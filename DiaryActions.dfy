/**
 * The diary record service (app/actions.ts): month and day lookups, the upsert behind
 * `saveEntry`, `deleteEntry`, and `getUserStats`, over a store of `Entry` records.
 * The session resolver is a parameter: `None` is "no session token, or it did not verify".
 * A date argument is the value of `new Date(dateStr)`: `None` is an Invalid Date, which the store
 * refuses to cast, so the call fails like a storage error.
 */
module DiaryActions {
  import opened Wrappers
  import opened EntryModel
  import CivilTime
  import Encryption
  import DiaryStats
  import Seqs

  type Session = Option<UserId>

  /** What the actions hand to the client: `_id`, `date`, decrypted `content`, `moodColor`. */
  datatype EntryView = EntryView(id: nat, date: int, content: string, moodColor: string)

  datatype Stats = Stats(totalEntries: nat, streak: nat, frequentMood: string)

  const DEFAULT_STATS: Stats := Stats(0, 0, DEFAULT_MOOD)
  const SAVE_FAILED: string := "Failed to save entry"
  const DELETE_FAILED: string := "Failed to delete entry"

  /** The query `{ userId, date: { $gte: lo, $lte: hi } }`. */
  predicate Matches(e: Entry, uid: UserId, lo: int, hi: int)
  {
    e.userId == uid && lo <= e.date <= hi
  }

  /** `findOne` / `findOneAndUpdate` / `findOneAndDelete`: the first match in store order. */
  function FirstMatch(s: seq<Entry>, uid: UserId, lo: int, hi: int): (r: Option<nat>)
    ensures r.Some? ==> r.value < |s| && Matches(s[r.value], uid, lo, hi)
    ensures r.Some? ==> forall j :: 0 <= j < r.value ==> !Matches(s[j], uid, lo, hi)
    ensures r.None? ==> forall j :: 0 <= j < |s| ==> !Matches(s[j], uid, lo, hi)
  {
    if s == [] then None
    else if Matches(s[0], uid, lo, hi) then Some(0)
    else
      match FirstMatch(s[1..], uid, lo, hi)
      case None => None
      case Some(i) => Some(i + 1)
  }

  /** `find(query)`: every match, in store order. */
  function AllMatches(s: seq<Entry>, uid: UserId, lo: int, hi: int): (r: seq<Entry>)
    ensures |r| <= |s|
    ensures forall e :: e in r <==> e in s && Matches(e, uid, lo, hi)
  {
    Seqs.Filter(s, e => Matches(e, uid, lo, hi))
  }

  /** The records of one user, in store order. */
  function UserEntries(s: seq<Entry>, uid: UserId): (r: seq<Entry>)
    ensures |r| <= |s|
    ensures forall e :: e in r <==> e in s && e.userId == uid
  {
    Seqs.Filter(s, (e: Entry) => e.userId == uid)
  }

  /** The matches of a concatenation are the concatenated matches. */
  lemma AllMatchesAppend(a: seq<Entry>, b: seq<Entry>, uid: UserId, lo: int, hi: int)
    ensures AllMatches(a + b, uid, lo, hi) == AllMatches(a, uid, lo, hi) + AllMatches(b, uid, lo, hi)
  {
    Seqs.FilterAppend(a, b, e => Matches(e, uid, lo, hi));
  }

  /** The client's view of a record, content decrypted with the process-wide key. */
  function ViewOf(e: Entry, config: string, p: Encryption.Primitives): EntryView
  {
    EntryView(e.id, e.date, Encryption.Decrypt(e.content, config, p), e.moodColor)
  }

  function ViewsOf(s: seq<Entry>, config: string, p: Encryption.Primitives): (r: seq<EntryView>)
    ensures |r| == |s|
    ensures forall i :: 0 <= i < |s| ==> r[i] == ViewOf(s[i], config, p)
  {
    if s == [] then [] else [ViewOf(s[0], config, p)] + ViewsOf(s[1..], config, p)
  }

  /** The views `getMonthEntries(year, month)` returns: the user's records in `MonthRange`. */
  function MonthViews(s: seq<Entry>, uid: UserId, year: int, month: int, config: string,
                      p: Encryption.Primitives): seq<EntryView>
  {
    var range := CivilTime.MonthRange(year, month);
    ViewsOf(AllMatches(s, uid, range.0, range.1), config, p)
  }

  /** A record of `uid` dated in the calendar month that `Date.UTC(year, month, ...)` names. */
  predicate InCalendarMonth(e: Entry, uid: UserId, year: int, month: int)
  {
    e.userId == uid && CivilTime.InMonth(e.date, CivilTime.NormalYear(year, month), month % 12)
  }

  /** The month views are exactly the user's records of that calendar month. */
  lemma MonthViewsExact(s: seq<Entry>, uid: UserId, year: int, month: int, config: string,
                        p: Encryption.Primitives)
    ensures forall e :: e in s && InCalendarMonth(e, uid, year, month)
                        ==> ViewOf(e, config, p) in MonthViews(s, uid, year, month, config, p)
    ensures forall v :: v in MonthViews(s, uid, year, month, config, p) ==>
      exists e :: e in s && InCalendarMonth(e, uid, year, month) && v == ViewOf(e, config, p)
  {
    var range := CivilTime.MonthRange(year, month);
    CivilTime.MonthRangeIsMonth(year, month);
    var ms := AllMatches(s, uid, range.0, range.1);
    var vs := MonthViews(s, uid, year, month, config, p);
    forall e | e in s && InCalendarMonth(e, uid, year, month)
      ensures ViewOf(e, config, p) in vs
    {
      assert e in ms;
      var i :| 0 <= i < |ms| && ms[i] == e;
      assert vs[i] == ViewOf(e, config, p);
    }
    forall v | v in vs
      ensures exists e :: e in s && InCalendarMonth(e, uid, year, month) && v == ViewOf(e, config, p)
    {
      var i :| 0 <= i < |vs| && vs[i] == v;
      assert ms[i] in ms;
    }
  }

  /**
   * `findOneAndUpdate(query, { userId, date: start, content, moodColor }, { upsert: true,
   * setDefaultsOnInsert: true })` with `query` the day range `[start, EndOfUtcDay(start)]`.
   * Success carries the new records and the index of the written one. Moving the first match
   * to `start` while another record of the user already sits at `start` violates the unique index.
   */
  function Upserted(s: seq<Entry>, uid: UserId, start: int, content: string, mood: string,
                    id: nat, now: int): (r: Option<(seq<Entry>, nat)>)
    ensures r.Some? ==> r.value.1 < |r.value.0|
    ensures r.Some? ==> var (t, k) := r.value;
      t[k].userId == uid && t[k].date == start && t[k].content == content && t[k].moodColor == mood
      && t[k].updatedAt == now
    ensures FirstMatch(s, uid, start, CivilTime.EndOfUtcDay(start)).None? ==>
      r.Some? && r.value.0 == s + [Entry(id, start, uid, content, mood, [], now, now)] && r.value.1 == |s|
    ensures FirstMatch(s, uid, start, CivilTime.EndOfUtcDay(start)).Some? ==>
      var k := FirstMatch(s, uid, start, CivilTime.EndOfUtcDay(start)).value;
      && (r.None? <==> KeyTaken(s, start, uid, k))
      && (r.Some? ==> r.value.1 == k && |r.value.0| == |s|
                      && r.value.0[k] == s[k].(date := start, content := content, moodColor := mood,
                                               updatedAt := now)
                      && forall j :: 0 <= j < |s| && j != k ==> r.value.0[j] == s[j])
  {
    match FirstMatch(s, uid, start, CivilTime.EndOfUtcDay(start))
    case None =>
      Written(InsertChecked(s, Entry(id, start, uid, content, mood, [], now, now)), |s|)
    case Some(k) =>
      var updated := s[k].(date := start, content := content, moodColor := mood, updatedAt := now);
      Written(ReplaceChecked(s, k, updated), k)
  }

  /** An index-checked write's records, paired with the index of the written one. */
  function Written(r: Option<seq<Entry>>, k: nat): Option<(seq<Entry>, nat)>
  {
    match r
    case None => None
    case Some(t) => Some((t, k))
  }

  /** The upsert keeps the unique index and the distinct, below-`id` identifiers. */
  lemma UpsertKeepsIndex(s: seq<Entry>, uid: UserId, start: int, content: string, mood: string,
                         id: nat, now: int)
    requires UniqueDateUser(s) && DistinctIds(s) && forall i :: 0 <= i < |s| ==> s[i].id < id
    ensures var r := Upserted(s, uid, start, content, mood, id, now);
      r.Some? ==> UniqueDateUser(r.value.0) && DistinctIds(r.value.0)
                  && forall i :: 0 <= i < |r.value.0| ==> r.value.0[i].id <= id
  {
    var end := CivilTime.EndOfUtcDay(start);
    var r := Upserted(s, uid, start, content, mood, id, now);
    if FirstMatch(s, uid, start, end).None? {
      forall j | 0 <= j < |s| ensures s[j].date != start || s[j].userId != uid {
        assert !Matches(s[j], uid, start, end);
      }
      var t := r.value.0;
      assert forall i :: 0 <= i < |s| ==> t[i] == s[i];
    }
  }

  /** `findOneAndDelete(query)`: removes the first match, if there is one. */
  function Deleted(s: seq<Entry>, uid: UserId, lo: int, hi: int): (r: seq<Entry>)
    ensures FirstMatch(s, uid, lo, hi).None? ==> r == s
    ensures FirstMatch(s, uid, lo, hi).Some? ==>
      var k := FirstMatch(s, uid, lo, hi).value; r == s[..k] + s[k + 1..]
  {
    match FirstMatch(s, uid, lo, hi)
    case None => s
    case Some(k) => s[..k] + s[k + 1..]
  }

  /** Deleting removes at most one record, and exactly one matching record when there was one. */
  lemma DeleteRemovesAtMostOne(s: seq<Entry>, uid: UserId, lo: int, hi: int)
    ensures |Deleted(s, uid, lo, hi)| == |s| - (if FirstMatch(s, uid, lo, hi).Some? then 1 else 0)
    ensures |AllMatches(Deleted(s, uid, lo, hi), uid, lo, hi)|
         == |AllMatches(s, uid, lo, hi)| - (if FirstMatch(s, uid, lo, hi).Some? then 1 else 0)
  {
    if FirstMatch(s, uid, lo, hi).Some? {
      var k := FirstMatch(s, uid, lo, hi).value;
      assert s == s[..k] + [s[k]] + s[k + 1..];
      AllMatchesAppend(s[..k] + [s[k]], s[k + 1..], uid, lo, hi);
      AllMatchesAppend(s[..k], [s[k]], uid, lo, hi);
      AllMatchesAppend(s[..k], s[k + 1..], uid, lo, hi);
      NoMatches(s[..k], uid, lo, hi);
      assert AllMatches([s[k]], uid, lo, hi) == [s[k]];
    }
  }

  /** Deleting keeps the unique index. */
  lemma DeleteKeepsIndex(s: seq<Entry>, uid: UserId, lo: int, hi: int)
    requires UniqueDateUser(s) && DistinctIds(s)
    ensures UniqueDateUser(Deleted(s, uid, lo, hi)) && DistinctIds(Deleted(s, uid, lo, hi))
  {
    if FirstMatch(s, uid, lo, hi).Some? {
      var k := FirstMatch(s, uid, lo, hi).value;
      var r := Deleted(s, uid, lo, hi);
      assert forall i :: 0 <= i < |r| ==> r[i] == s[if i < k then i else i + 1];
    }
  }

  /**
   * Saving twice for the same start instant leaves one record of the user in that day range,
   * holding the second content and mood, when there was at most one before.
   */
  lemma SaveTwiceKeepsOne(s: seq<Entry>, uid: UserId, start: int, c1: string, m1: string,
                          c2: string, m2: string, id: nat, now1: int, now2: int)
    requires UniqueDateUser(s) && DistinctIds(s) && forall i :: 0 <= i < |s| ==> s[i].id < id
    requires |AllMatches(s, uid, start, CivilTime.EndOfUtcDay(start))| <= 1
    ensures var r1 := Upserted(s, uid, start, c1, m1, id, now1);
      r1.Some? && var r2 := Upserted(r1.value.0, uid, start, c2, m2, id + 1, now2);
      r2.Some? && var ms := AllMatches(r2.value.0, uid, start, CivilTime.EndOfUtcDay(start));
      |ms| == 1 && ms[0].content == c2 && ms[0].moodColor == m2 && ms[0].date == start
  {
    SaveLeavesOne(s, uid, start, c1, m1, id, now1);
    var t1 := Upserted(s, uid, start, c1, m1, id, now1).value.0;
    SaveLeavesOne(t1, uid, start, c2, m2, id + 1, now2);
  }

  /**
   * With at most one record of the user in the day range, a save succeeds and leaves exactly one
   * there: the written one.
   */
  lemma SaveLeavesOne(s: seq<Entry>, uid: UserId, start: int, c: string, m: string, id: nat, now: int)
    requires UniqueDateUser(s) && DistinctIds(s) && forall i :: 0 <= i < |s| ==> s[i].id < id
    requires |AllMatches(s, uid, start, CivilTime.EndOfUtcDay(start))| <= 1
    ensures var r := Upserted(s, uid, start, c, m, id, now);
      && r.Some?
      && AllMatches(r.value.0, uid, start, CivilTime.EndOfUtcDay(start)) == [r.value.0[r.value.1]]
      && UniqueDateUser(r.value.0) && DistinctIds(r.value.0)
      && forall i :: 0 <= i < |r.value.0| ==> r.value.0[i].id < id + 1
  {
    var end := CivilTime.EndOfUtcDay(start);
    OnlyMatch(s, uid, start, end);
    if FirstMatch(s, uid, start, end).Some? {
      var k := FirstMatch(s, uid, start, end).value;
      forall j | 0 <= j < |s| && j != k ensures !(s[j].date == start && s[j].userId == uid) {
        assert !Matches(s[j], uid, start, end);
      }
      assert !KeyTaken(s, start, uid, k);
    }
    var r := Upserted(s, uid, start, c, m, id, now);
    OnlyMatchAfterWrite(s, r.value.0, r.value.1, uid, start, end);
    UpsertKeepsIndex(s, uid, start, c, m, id, now);
  }

  /** With at most one match, no record other than the first match lies in the range. */
  lemma OnlyMatch(s: seq<Entry>, uid: UserId, lo: int, hi: int)
    requires |AllMatches(s, uid, lo, hi)| <= 1
    ensures FirstMatch(s, uid, lo, hi).Some? ==>
      forall j :: 0 <= j < |s| && j != FirstMatch(s, uid, lo, hi).value ==> !Matches(s[j], uid, lo, hi)
  {
    if FirstMatch(s, uid, lo, hi).Some? {
      var k := FirstMatch(s, uid, lo, hi).value;
      forall j | k < j < |s| ensures !Matches(s[j], uid, lo, hi) {
        SecondMatch(s, k, j, uid, lo, hi);
      }
    }
  }

  /** Past a matching record, a store with at most one match holds no other. */
  lemma SecondMatch(s: seq<Entry>, i: nat, j: nat, uid: UserId, lo: int, hi: int)
    requires i < j < |s| && Matches(s[i], uid, lo, hi)
    requires |AllMatches(s, uid, lo, hi)| <= 1
    ensures !Matches(s[j], uid, lo, hi)
  {
    var a, b := s[..j], s[j..];
    assert s == a + b;
    AllMatchesAppend(a, b, uid, lo, hi);
    assert s[i] in a;
    assert |AllMatches(a, uid, lo, hi)| >= 1;
    assert AllMatches(b, uid, lo, hi) == [];
    assert b[0] == s[j] && b[0] in b;
  }

  /** After a write at `k` that leaves every other record in place, the range holds just that one. */
  lemma OnlyMatchAfterWrite(s: seq<Entry>, t: seq<Entry>, k: nat, uid: UserId, lo: int, hi: int)
    requires k < |t| && Matches(t[k], uid, lo, hi)
    requires forall j :: 0 <= j < |t| && j != k ==> j < |s| && t[j] == s[j] && !Matches(s[j], uid, lo, hi)
    ensures AllMatches(t, uid, lo, hi) == [t[k]]
  {
    assert t == t[..k] + [t[k]] + t[k + 1..];
    AllMatchesAppend(t[..k] + [t[k]], t[k + 1..], uid, lo, hi);
    AllMatchesAppend(t[..k], [t[k]], uid, lo, hi);
    NoMatches(t[..k], uid, lo, hi);
    NoMatches(t[k + 1..], uid, lo, hi);
  }

  lemma NoMatches(s: seq<Entry>, uid: UserId, lo: int, hi: int)
    requires forall j :: 0 <= j < |s| ==> !Matches(s[j], uid, lo, hi)
    ensures AllMatches(s, uid, lo, hi) == []
  {
    Seqs.FilterDropsAll(s, e => Matches(e, uid, lo, hi));
  }

  /**
   * The range starts at the given instant, not at UTC midnight: the client sends a full timestamp,
   * so saving at `t1` and then at a later `t2` of the same UTC day leaves two records for that day.
   */
  lemma LaterSameDaySaveAddsRecord(s: seq<Entry>, uid: UserId, t1: int, t2: int, c: string,
                                   m: string, id: nat, now: int)
    requires t1 < t2 && CivilTime.DayOf(t1) == CivilTime.DayOf(t2)
    requires forall j :: 0 <= j < |s| ==> s[j].userId != uid
    ensures var r1 := Upserted(s, uid, t1, c, m, id, now);
      r1.Some? && var r2 := Upserted(r1.value.0, uid, t2, c, m, id + 1, now);
      r2.Some? && |UserEntries(r2.value.0, uid)| == 2
      && forall e :: e in UserEntries(r2.value.0, uid) ==> CivilTime.DayOf(e.date) == CivilTime.DayOf(t1)
  {
    var e1 := Entry(id, t1, uid, c, m, [], now, now);
    var e2 := Entry(id + 1, t2, uid, c, m, [], now, now);
    NoMatchAppends(s, uid, t1, c, m, id, now);
    forall j | 0 <= j < |s + [e1]| ensures !Matches((s + [e1])[j], uid, t2, CivilTime.EndOfUtcDay(t2)) {
      if j < |s| { assert (s + [e1])[j] == s[j]; }
    }
    NoMatchAppends(s + [e1], uid, t2, c, m, id + 1, now);
    UserEntriesOfTwo(s, e1, e2, uid);
  }

  /** With no record of the user in the day range, the upsert appends a fresh record. */
  lemma NoMatchAppends(s: seq<Entry>, uid: UserId, start: int, c: string, m: string, id: nat, now: int)
    requires forall j :: 0 <= j < |s| ==> !Matches(s[j], uid, start, CivilTime.EndOfUtcDay(start))
    ensures Upserted(s, uid, start, c, m, id, now) == Some((s + [Entry(id, start, uid, c, m, [], now, now)], |s|))
  {
    assert FirstMatch(s, uid, start, CivilTime.EndOfUtcDay(start)).None?;
  }

  lemma UserEntriesOfTwo(s: seq<Entry>, e1: Entry, e2: Entry, uid: UserId)
    requires forall j :: 0 <= j < |s| ==> s[j].userId != uid
    requires e1.userId == uid && e2.userId == uid
    ensures UserEntries(s + [e1] + [e2], uid) == [e1, e2]
  {
    NoUserEntries(s, uid);
    UserEntriesAppend(s, [e1], uid);
    UserEntriesAppend(s + [e1], [e2], uid);
    assert UserEntries([e1], uid) == [e1];
    assert UserEntries([e2], uid) == [e2];
  }

  lemma UserEntriesAppend(a: seq<Entry>, b: seq<Entry>, uid: UserId)
    ensures UserEntries(a + b, uid) == UserEntries(a, uid) + UserEntries(b, uid)
  {
    Seqs.FilterAppend(a, b, (e: Entry) => e.userId == uid);
  }

  lemma NoUserEntries(s: seq<Entry>, uid: UserId)
    requires forall j :: 0 <= j < |s| ==> s[j].userId != uid
    ensures UserEntries(s, uid) == []
  {
    Seqs.FilterDropsAll(s, (e: Entry) => e.userId == uid);
  }

  /** Local calendar days never run backwards in time. */
  ghost predicate Monotone(dayOf: int -> int)
  {
    forall a, b :: a <= b ==> dayOf(a) <= dayOf(b)
  }

  function Dates(s: seq<Entry>): (r: seq<int>)
    ensures |r| == |s| && forall i :: 0 <= i < |s| ==> r[i] == s[i].date
  {
    if s == [] then [] else [s[0].date] + Dates(s[1..])
  }

  function Moods(s: seq<Entry>): (r: seq<string>)
    ensures |r| == |s| && forall i :: 0 <= i < |s| ==> r[i] == s[i].moodColor
  {
    if s == [] then [] else [s[0].moodColor] + Moods(s[1..])
  }

  function MapDays(dates: seq<int>, dayOf: int -> int): (r: seq<int>)
    ensures |r| == |dates| && forall i :: 0 <= i < |dates| ==> r[i] == dayOf(dates[i])
  {
    if dates == [] then [] else [dayOf(dates[0])] + MapDays(dates[1..], dayOf)
  }

  /** The local days of a user's records, newest first. */
  function UserDays(s: seq<Entry>, uid: UserId, dayOf: int -> int): (r: seq<int>)
    ensures |r| == |UserEntries(s, uid)|
  {
    var sorted := DiaryStats.SortDesc(Dates(UserEntries(s, uid)));
    assert |multiset(sorted)| == |multiset(Dates(UserEntries(s, uid)))|;
    MapDays(sorted, dayOf)
  }

  /** A monotone day function keeps the newest-first order. */
  lemma UserDaysSorted(s: seq<Entry>, uid: UserId, dayOf: int -> int)
    requires Monotone(dayOf)
    ensures DiaryStats.SortedDesc(UserDays(s, uid, dayOf))
  {
  }

  /** The record store, with the key configuration and cipher primitives fixed for the process. */
  class EntryStore {
    var entries: seq<Entry>
    var nextId: nat
    const keyConfig: string
    const crypto: Encryption.Primitives

    /** The unique index holds, and `nextId` is fresh. */
    ghost predicate Valid()
      reads this
    {
      UniqueDateUser(entries) && DistinctIds(entries)
      && forall i :: 0 <= i < |entries| ==> entries[i].id < nextId
    }

    constructor (keyConfig: string, crypto: Encryption.Primitives)
      ensures Valid() && entries == [] && this.keyConfig == keyConfig && this.crypto == crypto
    {
      entries := [];
      nextId := 0;
      this.keyConfig := keyConfig;
      this.crypto := crypto;
    }

    /** `getMonthEntries(year, month)`. */
    method GetMonthEntries(session: Session, year: int, month: int) returns (r: seq<EntryView>)
      ensures session.None? ==> r == []
      ensures session.Some? ==> r == MonthViews(entries, session.value, year, month, keyConfig, crypto)
    {
      if session.None? {
        return [];
      }
      r := MonthViews(entries, session.value, year, month, keyConfig, crypto);
    }

    /** `getEntryByDate(dateStr)`: the first record of the user in `[date, end of its UTC day]`. */
    method GetEntryByDate(session: Session, date: Option<int>) returns (r: Option<EntryView>)
      ensures session.None? || date.None? ==> r.None?
      ensures session.Some? && date.Some? ==>
        (r.Some? <==> exists e :: e in entries
                        && Matches(e, session.value, date.value, CivilTime.EndOfUtcDay(date.value)))
      ensures r.Some? ==> exists e :: e in entries && e.userId == session.value
                            && date.value <= e.date && CivilTime.DayOf(e.date) == CivilTime.DayOf(date.value)
                            && r.value == ViewOf(e, keyConfig, crypto)
    {
      if session.None? || date.None? {
        return None;
      }
      var end := CivilTime.EndOfUtcDay(date.value);
      match FirstMatch(entries, session.value, date.value, end)
      case None =>
        r := None;
      case Some(k) =>
        r := Some(ViewOf(entries[k], keyConfig, crypto));
    }

    /**
     * `saveEntry(dateStr, content, moodColor)` with `iv` the random IV and `now` the clock.
     * Errors (no session, bad date, duplicate key) are rethrown as "Failed to save entry".
     */
    method SaveEntry(session: Session, date: Option<int>, content: string, moodColor: string,
                     iv: seq<Encryption.Hex.byte>, now: int) returns (r: Result<EntryView, string>)
      requires Valid() && |iv| == Encryption.IV_LENGTH
      modifies this
      ensures Valid()
      ensures r.Failure? ==> r.error == SAVE_FAILED && entries == old(entries) && nextId == old(nextId)
      ensures session.None? || date.None? ==> r.Failure?
      ensures session.Some? && date.Some? ==>
        var res := Upserted(old(entries), session.value, date.value,
                            Encryption.Encrypt(content, keyConfig, iv, crypto), moodColor, old(nextId), now);
        (r.Success? <==> res.Some?)
        && (r.Success? ==> entries == res.value.0
                           && r.value == ViewOf(entries[res.value.1], keyConfig, crypto))
      ensures r.Success? && Encryption.Lawful(crypto) ==> r.value.content == content && r.value.moodColor == moodColor
    {
      if session.None? || date.None? {
        return Failure(SAVE_FAILED);
      }
      var uid, start := session.value, date.value;
      var encrypted := Encryption.Encrypt(content, keyConfig, iv, crypto);
      var res := Upserted(entries, uid, start, encrypted, moodColor, nextId, now);
      if res.None? {
        return Failure(SAVE_FAILED);
      }
      UpsertKeepsIndex(entries, uid, start, encrypted, moodColor, nextId, now);
      var (t, k) := res.value;
      entries := t;
      nextId := nextId + 1;
      r := Success(ViewOf(t[k], keyConfig, crypto));
      if Encryption.Lawful(crypto) {
        Encryption.RoundTrip(content, keyConfig, iv, crypto);
      }
    }

    /** `deleteEntry(dateStr)`: `{ success: true }` whether or not a record matched. */
    method DeleteEntry(session: Session, date: Option<int>) returns (r: Result<bool, string>)
      requires Valid()
      modifies this
      ensures Valid() && nextId == old(nextId)
      ensures session.None? || date.None? ==> r == Failure(DELETE_FAILED) && entries == old(entries)
      ensures session.Some? && date.Some? ==>
        r == Success(true)
        && entries == Deleted(old(entries), session.value, date.value, CivilTime.EndOfUtcDay(date.value))
    {
      if session.None? || date.None? {
        return Failure(DELETE_FAILED);
      }
      var end := CivilTime.EndOfUtcDay(date.value);
      DeleteKeepsIndex(entries, session.value, date.value, end);
      entries := Deleted(entries, session.value, date.value, end);
      r := Success(true);
    }

    /**
     * `getUserStats()` with `dayOf` the local-midnight normalisation and `today` the local day of
     * the clock. A missing session or an empty user id gives the default statistics.
     */
    method GetUserStats(session: Session, dayOf: int -> int, today: int) returns (s: Stats)
      ensures session.None? || session.value == "" ==> s == DEFAULT_STATS
      ensures session.Some? && session.value != "" ==>
        var moods := Moods(UserEntries(entries, session.value));
        && s.totalEntries == |moods|
        && s.streak <= s.totalEntries
        && (moods == [] ==> s.streak == 0 && s.frequentMood == DEFAULT_MOOD)
        && (moods != [] ==> s.frequentMood in moods)
        && (forall m :: m in moods ==> DiaryStats.Count(moods, m) <= DiaryStats.Count(moods, s.frequentMood))
        && (Monotone(dayOf) ==> s.streak == DiaryStats.ExpectedStreak(UserDays(entries, session.value, dayOf), today))
    {
      if session.None? || session.value == "" {
        return DEFAULT_STATS;
      }
      var mine := UserEntries(entries, session.value);
      var days := UserDays(entries, session.value, dayOf);
      var streak := DiaryStats.Streak(days, today);
      var mood := DiaryStats.FrequentMood(Moods(mine), DEFAULT_MOOD);
      if Monotone(dayOf) {
        UserDaysSorted(entries, session.value, dayOf);
      }
      s := Stats(|mine|, streak, mood);
    }
  }
}
