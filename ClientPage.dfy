/**
 * The signed-in diary page (app/components/ClientPage.tsx): the calendar cache of marked days, the
 * editor state, and the handlers that call the record service. `dayKey` stands for
 * `new Date(t).toDateString()` in the browser's time zone and `localYearMonth` for
 * `getFullYear()`/`getMonth()`. A handler whose server call throws leaves the page state as it was.
 */
module ClientPage {
  import opened Wrappers
  import opened EntryModel
  import CivilTime
  import Encryption
  import Seqs
  import opened DiaryActions

  /** What the calendar keeps of a record: `{ date, moodColor }`. */
  datatype Mark = Mark(date: int, moodColor: string)

  function MarkOf(v: EntryView): Mark
  {
    Mark(v.date, v.moodColor)
  }

  function MarksOf(vs: seq<EntryView>): (r: seq<Mark>)
    ensures |r| == |vs| && forall i :: 0 <= i < |vs| ==> r[i] == MarkOf(vs[i])
  {
    if vs == [] then [] else [MarkOf(vs[0])] + MarksOf(vs[1..])
  }

  /** The marks whose day key differs from `key`. */
  function OtherDays(marks: seq<Mark>, key: string, dayKey: int -> string): seq<Mark>
  {
    Seqs.Filter(marks, (m: Mark) => dayKey(m.date) != key)
  }

  /** The marks whose day key is `key`. */
  function SameDay(marks: seq<Mark>, key: string, dayKey: int -> string): seq<Mark>
  {
    Seqs.Filter(marks, (m: Mark) => dayKey(m.date) == key)
  }

  /** The cache update of `handleSave`: drop the saved day's marks, append the saved one. */
  function ReplaceDay(marks: seq<Mark>, saved: Mark, dayKey: int -> string): seq<Mark>
  {
    OtherDays(marks, dayKey(saved.date), dayKey) + [saved]
  }

  /** After a save the saved day has exactly one mark, the new one, and it is last. */
  lemma ReplaceDayExact(marks: seq<Mark>, saved: Mark, dayKey: int -> string)
    ensures var r := ReplaceDay(marks, saved, dayKey);
      r != [] && r[|r| - 1] == saved && SameDay(r, dayKey(saved.date), dayKey) == [saved]
  {
    var key := dayKey(saved.date);
    var kept := OtherDays(marks, key, dayKey);
    Seqs.FilterAppend(kept, [saved], (m: Mark) => dayKey(m.date) == key);
    Seqs.FilterDropsAll(kept, (m: Mark) => dayKey(m.date) == key);
    assert SameDay([saved], key, dayKey) == [saved] by {
      assert [saved][1..] == [];
    }
  }

  /** A save keeps the marks of every other day, in their order. */
  lemma ReplaceDayKeepsOthers(marks: seq<Mark>, saved: Mark, dayKey: int -> string)
    ensures OtherDays(ReplaceDay(marks, saved, dayKey), dayKey(saved.date), dayKey)
         == OtherDays(marks, dayKey(saved.date), dayKey)
  {
    var key := dayKey(saved.date);
    var kept := OtherDays(marks, key, dayKey);
    Seqs.FilterAppend(kept, [saved], (m: Mark) => dayKey(m.date) != key);
    Seqs.FilterKeepsAll(kept, (m: Mark) => dayKey(m.date) != key);
    assert OtherDays([saved], key, dayKey) == [] by {
      assert [saved][1..] == [];
    }
  }

  /** After a delete no mark of the day is left, and the others keep their order. */
  lemma RemoveDayExact(marks: seq<Mark>, tail: seq<Mark>, key: string, dayKey: int -> string)
    ensures SameDay(OtherDays(marks, key, dayKey), key, dayKey) == []
    ensures OtherDays(marks + tail, key, dayKey) == OtherDays(marks, key, dayKey) + OtherDays(tail, key, dayKey)
  {
    var kept := OtherDays(marks, key, dayKey);
    assert forall i :: 0 <= i < |kept| ==> kept[i] in kept;
    Seqs.FilterDropsAll(kept, (m: Mark) => dayKey(m.date) == key);
    Seqs.FilterAppend(marks, tail, (m: Mark) => dayKey(m.date) != key);
  }

  class Page {
    var currentDate: int
    var selectedDate: int
    var entries: seq<Mark>
    var editorContent: string
    var editorColor: string
    const store: EntryStore
    const dayKey: int -> string
    const localYearMonth: int -> (int, int)

    ghost predicate Valid()
      reads this, store
    {
      store.Valid()
    }

    /** The first render: today selected, an empty cache, a blank editor. */
    constructor (store: EntryStore, dayKey: int -> string, localYearMonth: int -> (int, int), now: int)
      requires store.Valid()
      ensures Valid() && this.store == store && this.dayKey == dayKey && this.localYearMonth == localYearMonth
      ensures currentDate == now && selectedDate == now && entries == []
      ensures editorContent == "" && editorColor == DEFAULT_MOOD
    {
      this.store := store;
      this.dayKey := dayKey;
      this.localYearMonth := localYearMonth;
      currentDate := now;
      selectedDate := now;
      entries := [];
      editorContent := "";
      editorColor := DEFAULT_MOOD;
    }

    /** The calendar's `onDateSelect`: both the selected and the displayed date move. */
    method SelectDate(date: int)
      modifies this
      ensures selectedDate == date && currentDate == date
      ensures entries == old(entries) && editorContent == old(editorContent) && editorColor == old(editorColor)
    {
      selectedDate := date;
      currentDate := date;
    }

    /** `fetchMonthEntries`: the cache becomes the month of `currentDate`. */
    method FetchMonthEntries(session: Session)
      modifies this
      ensures session.None? ==> entries == []
      ensures session.Some? ==>
        entries == MarksOf(MonthViews(store.entries, session.value, localYearMonth(currentDate).0,
                                      localYearMonth(currentDate).1, store.keyConfig, store.crypto))
      ensures selectedDate == old(selectedDate) && currentDate == old(currentDate)
      ensures editorContent == old(editorContent) && editorColor == old(editorColor)
    {
      var yearMonth := localYearMonth(currentDate);
      var data := store.GetMonthEntries(session, yearMonth.0, yearMonth.1);
      entries := MarksOf(data);
      assert yearMonth == localYearMonth(currentDate);
    }

    /** `fetchSpecificEntry`: the editor shows the selected day's record, or a blank page. */
    method FetchSpecificEntry(session: Session)
      modifies this
      ensures session.None? ==> editorContent == "" && editorColor == DEFAULT_MOOD
      ensures session.Some? ==>
        var end := CivilTime.EndOfUtcDay(selectedDate);
        && ((forall e :: e in store.entries ==> !Matches(e, session.value, selectedDate, end)) ==>
              editorContent == "" && editorColor == DEFAULT_MOOD)
        && ((exists e :: e in store.entries && Matches(e, session.value, selectedDate, end)) ==>
              exists e :: e in store.entries && Matches(e, session.value, selectedDate, end)
                && editorContent == ViewOf(e, store.keyConfig, store.crypto).content
                && editorColor == e.moodColor)
      ensures entries == old(entries) && selectedDate == old(selectedDate) && currentDate == old(currentDate)
    {
      var data := store.GetEntryByDate(session, Some(selectedDate));
      if data.Some? {
        editorContent := data.value.content;
        editorColor := data.value.moodColor;
      } else {
        editorContent := "";
        editorColor := DEFAULT_MOOD;
      }
    }

    /**
     * `handleSave(content, color)`: the selected instant, in full, goes to `saveEntry`; on success
     * the saved day's mark is replaced and the editor shows the returned record.
     */
    method HandleSave(session: Session, content: string, color: string, iv: seq<Encryption.Hex.byte>,
                      now: int) returns (r: Result<EntryView, string>)
      requires Valid() && |iv| == Encryption.IV_LENGTH
      modifies this, store
      ensures Valid()
      ensures selectedDate == old(selectedDate) && currentDate == old(currentDate)
      ensures r.Failure? ==>
        entries == old(entries) && editorContent == old(editorContent) && editorColor == old(editorColor)
        && store.entries == old(store.entries)
      ensures r.Success? ==>
        r.value.date == selectedDate
        && entries == ReplaceDay(old(entries), MarkOf(r.value), dayKey)
        && editorContent == r.value.content && editorColor == r.value.moodColor
      ensures r.Success? && Encryption.Lawful(store.crypto) ==> editorContent == content && editorColor == color
    {
      r := store.SaveEntry(session, Some(selectedDate), content, color, iv, now);
      if r.Failure? {
        return;
      }
      ghost var res := Upserted(old(store.entries), session.value, selectedDate,
                                Encryption.Encrypt(content, store.keyConfig, iv, store.crypto), color,
                                old(store.nextId), now);
      assert r.value.date == selectedDate by {
        assert r.value == ViewOf(res.value.0[res.value.1], store.keyConfig, store.crypto);
      }
      entries := ReplaceDay(entries, MarkOf(r.value), dayKey);
      editorContent := r.value.content;
      editorColor := r.value.moodColor;
    }

    /** `handleDelete()`: on success the selected day's marks go and the editor is blanked. */
    method HandleDelete(session: Session) returns (r: Result<bool, string>)
      requires Valid()
      modifies this, store
      ensures Valid()
      ensures selectedDate == old(selectedDate) && currentDate == old(currentDate)
      ensures r.Failure? ==>
        entries == old(entries) && editorContent == old(editorContent) && editorColor == old(editorColor)
        && store.entries == old(store.entries)
      ensures r.Success? ==> session.Some?
      ensures r.Success? && session.Some? ==>
        entries == OtherDays(old(entries), dayKey(selectedDate), dayKey)
        && editorContent == "" && editorColor == DEFAULT_MOOD
        && store.entries == Deleted(old(store.entries), session.value, selectedDate,
                                    CivilTime.EndOfUtcDay(selectedDate))
    {
      r := store.DeleteEntry(session, Some(selectedDate));
      if r.Failure? {
        return;
      }
      entries := OtherDays(entries, dayKey(selectedDate), dayKey);
      editorContent := "";
      editorColor := DEFAULT_MOOD;
    }
  }
}
