/**
 * The statistics half of `getUserStats` (app/actions.ts): the streak loop over days sorted newest
 * first, and the most frequent mood. Days are whole local-calendar day numbers.
 */
module DiaryStats {

  /** Non-increasing: newest first, as `sort({ date: -1 })` returns them. */
  predicate SortedDesc(s: seq<int>)
  {
    forall i, j :: 0 <= i < j < |s| ==> s[i] >= s[j]
  }

  function InsertDesc(x: int, s: seq<int>): (r: seq<int>)
    requires SortedDesc(s)
    ensures SortedDesc(r)
    ensures multiset(r) == multiset(s) + multiset{x}
  {
    if s == [] || x >= s[0] then [x] + s
    else
      var rest := InsertDesc(x, s[1..]);
      assert s == [s[0]] + s[1..];
      HeadBoundsRest(x, s, rest);
      [s[0]] + rest
  }

  /** What is inserted behind the head of a sorted list stays at or below that head. */
  lemma HeadBoundsRest(x: int, s: seq<int>, rest: seq<int>)
    requires SortedDesc(s) && s != [] && x < s[0]
    requires multiset(rest) == multiset(s[1..]) + multiset{x}
    ensures forall k :: 0 <= k < |rest| ==> rest[k] <= s[0]
  {
    forall k | 0 <= k < |rest| ensures rest[k] <= s[0] {
      assert rest[k] in multiset(rest);
      if rest[k] != x {
        assert rest[k] in multiset(s[1..]);
        assert rest[k] in s[1..];
      }
    }
  }

  /** The store's descending sort of a user's dates. */
  function SortDesc(s: seq<int>): (r: seq<int>)
    ensures SortedDesc(r)
    ensures multiset(r) == multiset(s)
  {
    if s == [] then []
    else
      assert s == [s[0]] + s[1..];
      InsertDesc(s[0], SortDesc(s[1..]))
  }

  /** True when every day `d - k + 1 .. d` is in `days`. */
  ghost predicate RunIn(days: set<int>, d: int, k: nat)
  {
    forall x :: d - k < x <= d ==> x in days
  }

  /**
   * Reference definition of a streak: how many consecutive days, counting back from `d`, all
   * appear in `days`.
   */
  function ConsecutiveRun(days: set<int>, d: int): nat
    decreases |days|
  {
    if d in days then 1 + ConsecutiveRun(days - {d}, d - 1) else 0
  }

  /** The run length is the unique `k` with `d - k + 1 .. d` present and `d - k` absent. */
  lemma {:induction false} ConsecutiveRunIs(days: set<int>, d: int, k: nat)
    requires RunIn(days, d, k) && d - k !in days
    ensures ConsecutiveRun(days, d) == k
    decreases k
  {
    if k > 0 {
      assert d in days;
      var rest := days - {d};
      assert RunIn(rest, d - 1, k - 1) by {
        forall x | d - 1 - (k - 1) < x <= d - 1 ensures x in rest {
          assert x in days;
        }
      }
      ConsecutiveRunIs(rest, d - 1, k - 1);
    }
  }

  /** The distinct days of `days`. */
  function DaySet(days: seq<int>): set<int>
  {
    set x | x in days
  }

  /** The streak the source promises: 0 unless the newest day is today, yesterday or later. */
  function ExpectedStreak(days: seq<int>, today: int): nat
  {
    if days == [] || today - days[0] > 1 then 0
    else ConsecutiveRun(DaySet(days), days[0])
  }

  /** The streak loop of `getUserStats`, over local day numbers sorted newest first. */
  method Streak(days: seq<int>, today: int) returns (streak: nat)
    ensures streak <= |days|
    ensures streak == 0 <==> days == [] || today - days[0] > 1
    ensures SortedDesc(days) ==> streak == ExpectedStreak(days, today)
  {
    streak := 0;
    if |days| > 0 {
      var latest := days[0];
      var diffFromToday := today - latest;
      if diffFromToday <= 1 {
        streak := 1;
        var current := latest;
        var i := 1;
        while i < |days|
          invariant 1 <= i <= |days|
          invariant 1 <= streak <= i
          invariant current == latest - streak + 1
          invariant forall x :: current <= x <= latest ==> x in days[..i]
          invariant SortedDesc(days) ==> forall k :: 0 <= k < i ==> days[k] >= current
        {
          var diff := current - days[i];
          if diff == 1 {
            streak := streak + 1;
            current := days[i];
          } else if diff > 1 {
            assert SortedDesc(days) ==> forall k :: 0 <= k < |days| ==> days[k] != current - 1;
            break;
          }
          assert days[..i + 1] == days[..i] + [days[i]];
          i := i + 1;
        }
        if SortedDesc(days) {
          var daySet := DaySet(days);
          assert days[..|days|] == days;
          assert current - 1 !in daySet by {
            if i == |days| {
              assert forall k :: 0 <= k < |days| ==> days[k] >= current;
            }
          }
          assert RunIn(daySet, latest, streak) by {
            forall x | latest - streak < x <= latest ensures x in daySet {
              assert x in days[..i];
            }
          }
          ConsecutiveRunIs(daySet, latest, streak);
        }
      }
    }
  }

  /** Occurrences of `m` among `moods`. */
  function Count(moods: seq<string>, m: string): nat
  {
    multiset(moods)[m]
  }

  /** A mood no other mood outnumbers (the `$group`/`$sort`/`$limit 1` aggregation). */
  function MostFrequent(moods: seq<string>): (r: string)
    requires moods != []
    ensures r in moods
    ensures forall m :: m in moods ==> Count(moods, m) <= Count(moods, r)
  {
    if |moods| == 1 then moods[0]
    else
      var rest := MostFrequent(moods[1..]);
      assert moods == [moods[0]] + moods[1..];
      if Count(moods, moods[0]) >= Count(moods, rest) then moods[0] else rest
  }

  /** `frequentMood`: the most frequent mood, or the default violet without entries. */
  function FrequentMood(moods: seq<string>, fallback: string): (r: string)
    ensures moods == [] ==> r == fallback
    ensures moods != [] ==> r in moods && forall m :: m in moods ==> Count(moods, m) <= Count(moods, r)
  {
    if moods == [] then fallback else MostFrequent(moods)
  }

  /** The streak examples: three consecutive days ending today give 3, a gap after today gives 1,
      no entries or a newest entry three days ago give 0. */
  lemma StreakExamples(d: int)
    ensures ExpectedStreak([d, d - 1, d - 2], d) == 3
    ensures ExpectedStreak([d, d - 2], d) == 1
    ensures ExpectedStreak([], d) == 0
    ensures ExpectedStreak([d - 3], d) == 0
    ensures ExpectedStreak([d - 1, d - 2], d) == 2
  {
    var s3 := DaySet([d, d - 1, d - 2]);
    assert s3 == {d, d - 1, d - 2};
    ConsecutiveRunIs(s3, d, 3);
    var s2 := DaySet([d, d - 2]);
    assert s2 == {d, d - 2};
    ConsecutiveRunIs(s2, d, 1);
    var s1 := DaySet([d - 1, d - 2]);
    assert s1 == {d - 1, d - 2};
    ConsecutiveRunIs(s1, d - 1, 2);
  }

  /** Moods red, red, blue: red is the most frequent. */
  lemma MoodExample()
    ensures FrequentMood(["red", "red", "blue"], "violet") == "red"
  {
    var moods := ["red", "red", "blue"];
    var r := FrequentMood(moods, "violet");
    assert multiset(moods) == multiset{"red", "red", "blue"};
    assert Count(moods, "red") == 2 && Count(moods, "blue") == 1;
    assert r == "red" || r == "blue";
  }
}
