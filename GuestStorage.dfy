/**
 * The guest-mode diary (app/lib/guest-storage.ts): a date-keyed list of entries kept under the
 * `nikki_entries` key of the browser's local storage. JSON encoding is the I/O boundary: the slot
 * is modelled after decoding, as absent, holding a list, or holding text that does not parse.
 */
module GuestStorage {
  import opened Wrappers
  import Seqs

  datatype GuestEntry = GuestEntry(date: string, content: string, moodColor: string)

  /** The decoded `nikki_entries` slot. An empty stored string reads like an absent one. */
  datatype Slot = Absent | Stored(entries: seq<GuestEntry>) | Unparseable

  /** `getAllGuestEntries`: the stored list, or `[]` when nothing usable is stored. */
  function EntriesOf(slot: Slot): seq<GuestEntry>
  {
    if slot.Stored? then slot.entries else []
  }

  /** `findIndex(e => e.date === date)`. */
  function FindIndex(s: seq<GuestEntry>, date: string): (r: Option<nat>)
    ensures r.Some? ==> r.value < |s| && s[r.value].date == date
    ensures r.Some? ==> forall j :: 0 <= j < r.value ==> s[j].date != date
    ensures r.None? <==> forall j :: 0 <= j < |s| ==> s[j].date != date
  {
    if s == [] then None
    else if s[0].date == date then Some(0)
    else
      match FindIndex(s[1..], date)
      case None => None
      case Some(i) => Some(i + 1)
  }

  /** The list `saveGuestEntry` writes back: the first entry of that date replaced, else `e` appended. */
  function Saved(s: seq<GuestEntry>, e: GuestEntry): (r: seq<GuestEntry>)
    ensures FindIndex(s, e.date).Some? ==>
      var i := FindIndex(s, e.date).value;
      |r| == |s| && r[i] == e && forall j :: 0 <= j < |s| && j != i ==> r[j] == s[j]
    ensures FindIndex(s, e.date).None? ==> r == s + [e]
  {
    match FindIndex(s, e.date)
    case Some(i) => s[i := e]
    case None => s + [e]
  }

  /** `find(e => e.date === date) || null`. */
  function Find(s: seq<GuestEntry>, date: string): (r: Option<GuestEntry>)
    ensures r.None? <==> forall e :: e in s ==> e.date != date
    ensures r.Some? ==> exists i :: 0 <= i < |s| && s[i] == r.value && s[i].date == date
                                    && forall j :: 0 <= j < i ==> s[j].date != date
  {
    match FindIndex(s, date)
    case None => None
    case Some(i) => Some(s[i])
  }

  /** The entries `deleteGuestEntry(date)` keeps. */
  function Without(s: seq<GuestEntry>, date: string): seq<GuestEntry>
  {
    Seqs.Filter(s, (e: GuestEntry) => e.date != date)
  }

  /**
   * The entries of `getGuestMonthEntries(year, month)`, with `yearMonth` standing for
   * `new Date(date)` read back with `getFullYear`/`getMonth` (`None` for an Invalid Date).
   */
  function InMonth(s: seq<GuestEntry>, year: int, month: int, yearMonth: string -> Option<(int, int)>)
    : seq<GuestEntry>
  {
    Seqs.Filter(s, (e: GuestEntry) => yearMonth(e.date) == Some((year, month)))
  }

  ghost predicate DistinctDates(s: seq<GuestEntry>)
  {
    forall i, j :: 0 <= i < j < |s| ==> s[i].date != s[j].date
  }

  /** A save grows the list by one entry when the date is new, and keeps its length otherwise. */
  lemma SaveLength(s: seq<GuestEntry>, e: GuestEntry)
    ensures Find(s, e.date).None? ==> |Saved(s, e)| == |s| + 1
    ensures Find(s, e.date).Some? ==> |Saved(s, e)| == |s|
  {
  }

  /** Looking up the saved date finds the saved entry. */
  lemma SaveThenFind(s: seq<GuestEntry>, e: GuestEntry)
    ensures Find(Saved(s, e), e.date) == Some(e)
  {
    var r := Saved(s, e);
    match FindIndex(s, e.date)
    case Some(i) =>
      assert FindIndex(r, e.date) == Some(i) by {
        assert forall j :: 0 <= j < i ==> r[j] == s[j];
      }
    case None =>
      assert FindIndex(r, e.date) == Some(|s|) by {
        assert r[|s|] == e;
        assert forall j :: 0 <= j < |s| ==> r[j] == s[j] && r[j].date != e.date;
        var k := FindIndex(r, e.date);
        assert k.Some?;
        assert k.value >= |s|;
      }
  }

  /** A save leaves lookups of every other date as they were. */
  lemma SaveKeepsOtherDates(s: seq<GuestEntry>, e: GuestEntry, date: string)
    requires date != e.date
    ensures Find(Saved(s, e), date) == Find(s, date)
  {
    var r := Saved(s, e);
    assert forall j :: 0 <= j < |s| ==> (r[j].date == date <==> s[j].date == date);
    var k := FindIndex(s, date);
    var kr := FindIndex(r, date);
    if k.Some? {
      assert kr == k by {
        assert kr.Some?;
        assert kr.value >= k.value;
        assert kr.value <= k.value;
      }
    } else {
      assert kr.None?;
    }
  }

  /** Saving keeps the dates of the list pairwise distinct. */
  lemma SaveKeepsDistinct(s: seq<GuestEntry>, e: GuestEntry)
    requires DistinctDates(s)
    ensures DistinctDates(Saved(s, e))
  {
  }

  /** Deleting a date removes every entry of it and keeps every other entry. */
  lemma DeleteRemovesDate(s: seq<GuestEntry>, date: string)
    ensures Find(Without(s, date), date).None?
    ensures forall e :: e in Without(s, date) <==> e in s && e.date != date
    ensures |Without(s, date)| <= |s|
  {
  }

  /** Deleting keeps the order of the entries it keeps. */
  lemma DeleteKeepsOrder(a: seq<GuestEntry>, b: seq<GuestEntry>, date: string)
    ensures Without(a + b, date) == Without(a, date) + Without(b, date)
  {
    Seqs.FilterAppend(a, b, (e: GuestEntry) => e.date != date);
  }

  /** Deleting a date that is not stored leaves the list as it is. */
  lemma DeleteAbsent(s: seq<GuestEntry>, date: string)
    requires Find(s, date).None?
    ensures Without(s, date) == s
  {
    Seqs.FilterKeepsAll(s, (e: GuestEntry) => e.date != date);
  }

  /** The month view holds exactly the entries of that month, in their stored order. */
  lemma MonthEntriesExact(s: seq<GuestEntry>, a: seq<GuestEntry>, year: int, month: int,
                          yearMonth: string -> Option<(int, int)>)
    ensures forall e :: (e in InMonth(s, year, month, yearMonth))
                          <==> (e in s && yearMonth(e.date) == Some((year, month)))
    ensures InMonth(s + a, year, month, yearMonth)
         == InMonth(s, year, month, yearMonth) + InMonth(a, year, month, yearMonth)
  {
    Seqs.FilterAppend(s, a, (e: GuestEntry) => yearMonth(e.date) == Some((year, month)));
  }

  /** The local-storage slot of the guest diary. */
  class GuestStore {
    var slot: Slot

    function Entries(): seq<GuestEntry>
      reads this
    {
      EntriesOf(slot)
    }

    constructor (slot: Slot)
      ensures this.slot == slot
    {
      this.slot := slot;
    }

    /** `getAllGuestEntries()`. */
    method GetAll() returns (r: seq<GuestEntry>)
      ensures slot.Absent? || slot.Unparseable? ==> r == []
      ensures slot.Stored? ==> r == slot.entries
    {
      r := EntriesOf(slot);
    }

    /** `saveGuestEntry(date, content, moodColor)`: overwrite in place or push, then write back. */
    method Save(date: string, content: string, moodColor: string) returns (e: GuestEntry)
      modifies this
      ensures e == GuestEntry(date, content, moodColor)
      ensures slot == Stored(Saved(old(Entries()), e))
      ensures Find(Entries(), date) == Some(e)
      ensures DistinctDates(old(Entries())) ==> DistinctDates(Entries())
    {
      var entries := EntriesOf(slot);
      ghost var before := entries;
      var existingIndex := FindIndex(entries, date);
      e := GuestEntry(date, content, moodColor);
      if existingIndex.Some? {
        entries := entries[existingIndex.value := e];
      } else {
        entries := entries + [e];
      }
      slot := Stored(entries);
      SaveThenFind(before, e);
      if DistinctDates(before) {
        SaveKeepsDistinct(before, e);
      }
    }

    /** `getGuestEntryByDate(date)`. */
    method GetByDate(date: string) returns (r: Option<GuestEntry>)
      ensures r == Find(Entries(), date)
    {
      r := Find(EntriesOf(slot), date);
    }

    /** `deleteGuestEntry(date)`: the filtered list is written back, even when nothing was removed. */
    method Delete(date: string)
      modifies this
      ensures slot == Stored(Without(old(Entries()), date))
      ensures Find(Entries(), date).None?
    {
      var entries := EntriesOf(slot);
      DeleteRemovesDate(entries, date);
      slot := Stored(Without(entries, date));
    }

    /** `getGuestMonthEntries(year, month)`. */
    method MonthEntries(year: int, month: int, yearMonth: string -> Option<(int, int)>)
      returns (r: seq<GuestEntry>)
      ensures r == InMonth(Entries(), year, month, yearMonth)
    {
      r := InMonth(EntriesOf(slot), year, month, yearMonth);
    }

    /** `clearGuestEntries()`: the key is removed. */
    method Clear()
      modifies this
      ensures slot == Absent && Entries() == []
    {
      slot := Absent;
    }
  }
}
