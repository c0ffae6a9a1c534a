/**
 * The diary entry schema (models/Entry.ts): the record shape, its required fields and defaults,
 * the timestamps the store maintains, and the compound unique index on `(date, userId)`.
 */
module EntryModel {
  import opened Wrappers

  /** A user's `_id`, as the session token carries it. */
  type UserId = string

  /** The schema default for `moodColor` (violet). */
  const DEFAULT_MOOD: string := "#8b5cf6"

  /** A stored entry; `date`, `createdAt` and `updatedAt` are milliseconds since the epoch. */
  datatype Entry = Entry(
    id: nat,
    date: int,
    userId: UserId,
    content: string,
    moodColor: string,
    images: seq<string>,
    createdAt: int,
    updatedAt: int)

  /** The fields a new document is built from; `None` is a field left out. */
  datatype Draft = Draft(
    date: Option<int>,
    userId: Option<UserId>,
    content: Option<string>,
    moodColor: Option<string>,
    images: Option<seq<string>>)

  datatype Field = DateField | UserIdField | ContentField

  /** The required fields a draft fails; a required String also fails when it is empty. */
  function MissingFields(d: Draft): set<Field>
  {
    (if d.date.None? then {DateField} else {})
    + (if d.userId.None? then {UserIdField} else {})
    + (if d.content.None? || d.content.value == "" then {ContentField} else {})
  }

  /** Document creation under the schema: validation, then defaults and both timestamps. */
  function Create(d: Draft, id: nat, now: int): (r: Result<Entry, set<Field>>)
    ensures r.Failure? <==> (d.date.None? || d.userId.None? || d.content.None? || d.content.value == "")
    ensures r.Failure? ==> r.error != {} && r.error == MissingFields(d)
    ensures r.Success? ==> r.value.date == d.date.value && r.value.userId == d.userId.value
    ensures r.Success? ==> r.value.content == d.content.value && r.value.content != ""
    ensures r.Success? ==> r.value.moodColor == (if d.moodColor.Some? then d.moodColor.value else DEFAULT_MOOD)
    ensures r.Success? ==> r.value.images == (if d.images.Some? then d.images.value else [])
    ensures r.Success? ==> r.value.id == id && r.value.createdAt == now && r.value.updatedAt == now
  {
    var missing := MissingFields(d);
    if missing != {} then Failure(missing)
    else
      Success(Entry(id, d.date.value, d.userId.value, d.content.value,
                    if d.moodColor.Some? then d.moodColor.value else DEFAULT_MOOD,
                    if d.images.Some? then d.images.value else [],
                    now, now))
  }

  /** The compound unique index: no two entries share both `date` and `userId`. */
  predicate UniqueDateUser(s: seq<Entry>)
  {
    forall i, j :: 0 <= i < j < |s| ==> s[i].date != s[j].date || s[i].userId != s[j].userId
  }

  /** Store-assigned identifiers are pairwise distinct. */
  predicate DistinctIds(s: seq<Entry>)
  {
    forall i, j :: 0 <= i < j < |s| ==> s[i].id != s[j].id
  }

  /** True when some entry other than the one at `except` already holds the key `(date, userId)`. */
  predicate KeyTaken(s: seq<Entry>, date: int, userId: UserId, except: int)
  {
    exists j :: 0 <= j < |s| && j != except && s[j].date == date && s[j].userId == userId
  }

  /** An index-checked insert: the store refuses a duplicate key (E11000) and keeps its records. */
  function InsertChecked(s: seq<Entry>, e: Entry): (r: Option<seq<Entry>>)
    ensures r.None? <==> KeyTaken(s, e.date, e.userId, -1)
    ensures r.Some? ==> r.value == s + [e]
    ensures r.Some? && UniqueDateUser(s) ==> UniqueDateUser(r.value)
  {
    if KeyTaken(s, e.date, e.userId, -1) then None else Some(s + [e])
  }

  /** An index-checked in-place replacement of the entry at `k`. */
  function ReplaceChecked(s: seq<Entry>, k: nat, e: Entry): (r: Option<seq<Entry>>)
    requires k < |s|
    ensures r.None? <==> KeyTaken(s, e.date, e.userId, k)
    ensures r.Some? ==> |r.value| == |s| && r.value[k] == e
    ensures r.Some? ==> forall j :: 0 <= j < |s| && j != k ==> r.value[j] == s[j]
    ensures r.Some? && UniqueDateUser(s) ==> UniqueDateUser(r.value)
  {
    if KeyTaken(s, e.date, e.userId, k) then None else Some(s[k := e])
  }
}
