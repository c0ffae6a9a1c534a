/** Order-preserving filtering, as `Array.prototype.filter` does it. */
module Seqs {
  /** The elements of `s` that `keep` accepts, in their original order. */
  function Filter<T(!new)>(s: seq<T>, keep: T -> bool): (r: seq<T>)
    ensures |r| <= |s|
    ensures forall x :: x in r <==> x in s && keep(x)
  {
    if s == [] then []
    else
      assert s == [s[0]] + s[1..];
      if keep(s[0]) then [s[0]] + Filter(s[1..], keep) else Filter(s[1..], keep)
  }

  /** Filtering distributes over concatenation, so the kept elements stay in order. */
  lemma {:induction false} FilterAppend<T(!new)>(a: seq<T>, b: seq<T>, keep: T -> bool)
    ensures Filter(a + b, keep) == Filter(a, keep) + Filter(b, keep)
  {
    if a == [] {
      assert a + b == b;
    } else {
      assert (a + b)[1..] == a[1..] + b;
      FilterAppend(a[1..], b, keep);
    }
  }

  /** Filtering keeps everything exactly when every element is accepted. */
  lemma {:induction false} FilterKeepsAll<T(!new)>(s: seq<T>, keep: T -> bool)
    requires forall i :: 0 <= i < |s| ==> keep(s[i])
    ensures Filter(s, keep) == s
  {
    if s != [] {
      FilterKeepsAll(s[1..], keep);
    }
  }

  /** Filtering drops everything when no element is accepted. */
  lemma {:induction false} FilterDropsAll<T(!new)>(s: seq<T>, keep: T -> bool)
    requires forall i :: 0 <= i < |s| ==> !keep(s[i])
    ensures Filter(s, keep) == []
  {
    if s != [] {
      FilterDropsAll(s[1..], keep);
    }
  }
}
