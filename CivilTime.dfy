/**
 * UTC calendar arithmetic as ECMAScript defines it for `Date.UTC` and `setUTCHours`
 * (ECMA-262 sections 21.4.1.3, 21.4.1.28 and 21.4.1.29), with time values as integer
 * milliseconds since 1970-01-01T00:00:00Z. Dafny's `/` and `%` by a positive constant are
 * ECMAScript's `floor` and `modulo`.
 */
module CivilTime {

  // A day is 86_400_000 ms; its last millisecond is at offset 86_399_999. The numbers are written
  // out because a named constant makes every product with it non-linear for the solver.

  predicate IsLeapYear(y: int)
  {
    y % 4 == 0 && (y % 100 != 0 || y % 400 == 0)
  }

  function DaysInYear(y: int): int
  {
    if IsLeapYear(y) then 366 else 365
  }

  /** Days in the zero-based month `m` of year `y`. */
  function DaysInMonth(y: int, m: int): (n: int)
    requires 0 <= m < 12
    ensures 28 <= n <= 31
  {
    if m == 1 then (if IsLeapYear(y) then 29 else 28)
    else if m == 3 || m == 5 || m == 8 || m == 10 then 30
    else 31
  }

  /** Days of year `y` that lie before the first of zero-based month `m` (month 12: the whole year). */
  function DaysBeforeMonth(y: int, m: int): int
    requires 0 <= m <= 12
  {
    [0, 31, 59, 90, 120, 151, 181, 212, 243, 273, 304, 334, 365][m]
      + (if m >= 2 && IsLeapYear(y) then 1 else 0)
  }

  /** ECMAScript `DayFromYear`: the day number of January 1 of year `y`. */
  function DayFromYear(y: int): int
  {
    365 * (y - 1970) + (y - 1969) / 4 - (y - 1901) / 100 + (y - 1601) / 400
  }

  /** ECMAScript `MakeDay`: month overflow carries into the year, day 0 is the previous month's last. */
  function MakeDay(year: int, month: int, date: int): int
  {
    var ym := year + month / 12;
    DayFromYear(ym) + DaysBeforeMonth(ym, month % 12) + date - 1
  }

  function MakeTime(h: int, m: int, s: int, ms: int): int
  {
    ((h * 60 + m) * 60 + s) * 1_000 + ms
  }

  /** `Date.UTC(year, month, date, h, m, s, ms)`; a year in 0..99 means 1900 + year. */
  function DateUTC(year: int, month: int, date: int, h: int, m: int, s: int, ms: int): int
  {
    var yr := if 0 <= year <= 99 then 1900 + year else year;
    MakeDay(yr, month, date) * 86_400_000 + MakeTime(h, m, s, ms)
  }

  /** The UTC day number of time value `t`. */
  function DayOf(t: int): int
  {
    t / 86_400_000
  }

  /** `end = new Date(start); end.setUTCHours(23, 59, 59, 999)`. */
  function EndOfUtcDay(t: int): (e: int)
    ensures t <= e
    ensures DayOf(e) == DayOf(t)
    ensures e % 86_400_000 == 86_399_999
  {
    DayOf(t) * 86_400_000 + 86_399_999
  }

  /** The year that `Date.UTC` actually uses for `year` and `month`. */
  function NormalYear(year: int, month: int): int
  {
    (if 0 <= year <= 99 then 1900 + year else year) + month / 12
  }

  /** The inclusive month range of `getMonthEntries`. */
  function MonthRange(year: int, month: int): (int, int)
  {
    (DateUTC(year, month, 1, 0, 0, 0, 0), DateUTC(year, month + 1, 0, 23, 59, 59, 999))
  }

  /** Time value `t` lies in zero-based month `m` of year `y`, by the cumulative month table. */
  predicate InMonth(t: int, y: int, m: int)
    requires 0 <= m < 12
  {
    DayFromYear(y) + DaysBeforeMonth(y, m) <= DayOf(t) < DayFromYear(y) + DaysBeforeMonth(y, m + 1)
  }

  /** The cumulative table agrees with the month lengths. */
  lemma MonthTable(y: int, m: int)
    requires 0 <= m < 12
    ensures DaysBeforeMonth(y, m + 1) - DaysBeforeMonth(y, m) == DaysInMonth(y, m)
  {
  }

  /** Consecutive `DayFromYear` values differ by the length of the year, leap rule included. */
  lemma YearLength(y: int)
    ensures DayFromYear(y + 1) - DayFromYear(y) == DaysInYear(y)
  {
    var a := (y - 1968) / 4 - (y - 1969) / 4;
    var b := (y - 1900) / 100 - (y - 1901) / 100;
    var c := (y - 1600) / 400 - (y - 1601) / 400;
    assert DayFromYear(y + 1) - DayFromYear(y) == 365 + a - b + c;
    LeapStep4(y);
    LeapStep100(y);
    LeapStep400(y);
    DivisorChain(y);
    assert IsLeapYear(y) <==> a == 1 && (b == 0 || c == 1);
  }

  /** Every fourth-centennial year is centennial, and every centennial year is a fourth year. */
  lemma DivisorChain(y: int)
    ensures y % 400 == 0 ==> y % 100 == 0
    ensures y % 100 == 0 ==> y % 4 == 0
  {
    if y % 400 == 0 {
      var k := 4 * (y / 400) - y / 100;
      assert 100 * k == y % 100;
      assert 0 <= 100 * k < 100;
    }
    if y % 100 == 0 {
      var k := 25 * (y / 100) - y / 4;
      assert 4 * k == y % 4;
      assert 0 <= 4 * k < 4;
    }
  }

  lemma LeapStep4(y: int)
    ensures (y - 1968) / 4 - (y - 1969) / 4 == if y % 4 == 0 then 1 else 0
  {
    var q, r := (y - 1969) / 4, (y - 1969) % 4;
    assert y - 1968 == 4 * q + r + 1;
    assert y == 4 * (q + 492) + r + 1;
  }

  lemma LeapStep100(y: int)
    ensures (y - 1900) / 100 - (y - 1901) / 100 == if y % 100 == 0 then 1 else 0
  {
    var q, r := (y - 1901) / 100, (y - 1901) % 100;
    assert y - 1900 == 100 * q + r + 1;
    assert y == 100 * (q + 19) + r + 1;
  }

  lemma LeapStep400(y: int)
    ensures (y - 1600) / 400 - (y - 1601) / 400 == if y % 400 == 0 then 1 else 0
  {
    var q, r := (y - 1601) / 400, (y - 1601) % 400;
    assert y - 1600 == 400 * q + r + 1;
    assert y == 400 * (q + 4) + r + 1;
  }

  /** The first of the month after `month` is `DaysInMonth` days after the first of `month`. */
  lemma NextMonthStart(year: int, month: int)
    ensures MakeDay(year, month + 1, 1) - MakeDay(year, month, 1)
         == DaysInMonth(year + month / 12, month % 12)
  {
    var ym := year + month / 12;
    if month % 12 == 11 {
      assert (month + 1) / 12 == month / 12 + 1 && (month + 1) % 12 == 0;
      YearLength(ym);
      MonthTable(ym, 11);
    } else {
      assert (month + 1) / 12 == month / 12 && (month + 1) % 12 == month % 12 + 1;
      MonthTable(ym, month % 12);
    }
  }

  /** The day number of the first of the (normalised) month that `MonthRange` covers. */
  function FirstDayOfMonth(year: int, month: int): int
  {
    DayFromYear(NormalYear(year, month)) + DaysBeforeMonth(NormalYear(year, month), month % 12)
  }

  /** Both ends of the month range, as whole days plus the time of day. */
  lemma MonthRangeDays(year: int, month: int)
    ensures MonthRange(year, month).0 == FirstDayOfMonth(year, month) * 86_400_000
    ensures MonthRange(year, month).1
         == (FirstDayOfMonth(year, month) + DaysInMonth(NormalYear(year, month), month % 12) - 1)
            * 86_400_000 + 86_399_999
  {
    var yr := if 0 <= year <= 99 then 1900 + year else year;
    MonthRangeEnds(year, month);
    MonthDays(yr, month);
    assert NormalYear(year, month) == yr + month / 12;
  }

  /** The month range in terms of `MakeDay`. */
  lemma MonthRangeEnds(year: int, month: int)
    ensures var yr := if 0 <= year <= 99 then 1900 + year else year;
      && MonthRange(year, month).0 == MakeDay(yr, month, 1) * 86_400_000
      && MonthRange(year, month).1 == MakeDay(yr, month + 1, 0) * 86_400_000 + 86_399_999
  {
  }

  /** The first and the last day of a month, as day numbers. */
  lemma MonthDays(yr: int, month: int)
    ensures MakeDay(yr, month, 1) == DayFromYear(yr + month / 12) + DaysBeforeMonth(yr + month / 12, month % 12)
    ensures MakeDay(yr, month + 1, 0) == MakeDay(yr, month, 1) + DaysInMonth(yr + month / 12, month % 12) - 1
  {
    NextMonthStart(yr, month);
  }

  /**
   * The month range starts at 00:00:00.000 UTC and ends at 23:59:59.999 UTC, spans exactly the
   * days of the (overflow-normalised) month, and contains precisely the instants of that month.
   */
  lemma MonthRangeIsMonth(year: int, month: int)
    ensures MonthRange(year, month).0 % 86_400_000 == 0
    ensures MonthRange(year, month).1 % 86_400_000 == 86_399_999
    ensures MonthRange(year, month).1 - MonthRange(year, month).0 + 1
         == DaysInMonth(NormalYear(year, month), month % 12) * 86_400_000
    ensures forall t :: MonthRange(year, month).0 <= t <= MonthRange(year, month).1
                    <==> InMonth(t, NormalYear(year, month), month % 12)
  {
    MonthRangeDays(year, month);
    var ny, nm := NormalYear(year, month), month % 12;
    var d := FirstDayOfMonth(year, month);
    var n := DaysInMonth(ny, nm);
    MonthTable(ny, nm);
    DayAligned(d);
    DayAligned(d + n - 1);
    forall t | true
      ensures MonthRange(year, month).0 <= t <= MonthRange(year, month).1 <==> InMonth(t, ny, nm)
    {
      DayOfBounds(t, d, d + n);
    }
  }

  /** Midnight of day `d` and the last millisecond of day `d`, modulo a day. */
  lemma DayAligned(d: int)
    ensures (d * 86_400_000) % 86_400_000 == 0
    ensures (d * 86_400_000 + 86_399_999) % 86_400_000 == 86_399_999
  {
  }

  /** Instants between day `lo` 00:00 and the last millisecond before day `hi` are those of days `lo..hi-1`. */
  lemma DayOfBounds(t: int, lo: int, hi: int)
    ensures lo * 86_400_000 <= t <= (hi - 1) * 86_400_000 + 86_399_999 <==> lo <= DayOf(t) < hi
  {
    var q := DayOf(t);
    assert q * 86_400_000 <= t < q * 86_400_000 + 86_400_000;
    if lo <= q < hi {
      assert lo * 86_400_000 <= q * 86_400_000;
      assert q * 86_400_000 <= (hi - 1) * 86_400_000;
    }
    if q < lo {
      assert q * 86_400_000 + 86_400_000 <= lo * 86_400_000;
    }
    if q >= hi {
      assert hi * 86_400_000 <= q * 86_400_000;
    }
  }

  /** Months tile the time line: each range ends one millisecond before the next begins. */
  lemma MonthRangesAdjoin(year: int, month: int)
    ensures MonthRange(year, month).1 + 1 == MonthRange(year, month + 1).0
  {
  }

  /**
   * Month 12 is January of the next year. Years 0..98 and their successors both go through the
   * two-digit-year rule, so they agree too; only -1 and 99 straddle the window.
   */
  lemma MonthOverflow(year: int)
    requires year != -1 && year != 99
    ensures MonthRange(year, 12) == MonthRange(year + 1, 0)
  {
  }

  /**
   * The two years where overflow leaves the two-digit window: month 12 of 99 is January 2000, not
   * January of year 100, and month 12 of -1 is January of year 0, not January 1900.
   */
  lemma MonthOverflowTwoDigitYear()
    ensures MonthRange(99, 12) == MonthRange(2000, 0)
    ensures MonthRange(99, 12) != MonthRange(100, 0)
    ensures MonthRange(-1, 12) != MonthRange(0, 0)
  {
    assert DayFromYear(100) < DayFromYear(2000);
    assert DayFromYear(0) < DayFromYear(1900);
  }

  /** February 2024 (month 1, a leap year) runs from 2024-02-01T00:00:00.000Z to 2024-02-29T23:59:59.999Z. */
  lemma LeapFebruary2024()
    ensures MonthRange(2024, 1) == (1_706_745_600_000, 1_709_251_199_999)
  {
    MonthRangeEnds(2024, 1);
    February2024Days();
  }

  lemma February2024Days()
    ensures MakeDay(2024, 1, 1) == 19_754
    ensures MakeDay(2024, 2, 0) == 19_782
  {
    assert DayFromYear(2024) == 19_723;
  }
}
