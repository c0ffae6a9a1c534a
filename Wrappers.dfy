/** Optional values and success/failure results, used for the source's `null` returns and thrown errors. */
module Wrappers {

  datatype Option<+T> = None | Some(value: T)

  datatype Result<+R, +E> = Success(value: R) | Failure(error: E)
}
