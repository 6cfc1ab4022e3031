/**
 * The client's second-Saturday helpers (src/lib/dates.ts). They build dates with the local
 * Date constructor and read them with getDay, getFullYear and getMonth; this model takes the
 * local time zone to be UTC, so `new Date(y, m, d)` is Date.UTC(y, m, d) (with the same
 * reading of years 0 to 99 and the same TimeClip) and the getters read the UTC calendar.
 */
module Dates {
  import opened Wrappers
  import opened Calendar

  /** Midnight at the start of the second Saturday of month m (1..12) of year y. */
  function SecondSaturdayMidnight(y: int, m: int): int
    requires 1 <= m <= 12
  {
    DateUtc(y, m - 1, SecondSaturdayOf(y, m), 0, 0, 0)
  }

  /**
   * getSecondSaturday(year, month0): the first of the month, its weekday, and the day one
   * week after the first Saturday; month0 counts from 0 and may be 12 (the next January).
   * An Invalid Date (a time outside TimeClip's range) is None.
   */
  function GetSecondSaturday(year: int, month0: int): Option<int>
  {
    var first := UtcTime(year, month0, 1, 0, 0, 0);
    if first.None? then None
    else UtcTime(year, month0, SecondSaturdayDay(UtcWeekday(first.value)), 0, 0, 0)
  }

  /** Midnight of a second Saturday is on that day of its month, a Saturday, at 00:00. */
  lemma MidnightFacts(y: int, m: int)
    requires 1 <= m <= 12
    ensures UtcDate(SecondSaturdayMidnight(y, m)) == Date(y, m, SecondSaturdayOf(y, m))
    ensures Day(SecondSaturdayMidnight(y, m)) == DayNumber(Date(y, m, SecondSaturdayOf(y, m)))
    ensures OnSecondSaturday(SecondSaturdayMidnight(y, m))
    ensures UtcWeekday(SecondSaturdayMidnight(y, m)) == Saturday
    ensures SecondSaturdayMidnight(y, m) % MsPerDay == 0
  {
    var t := SecondSaturdayMidnight(y, m);
    var d := Date(y, m, SecondSaturdayOf(y, m));
    SecondSaturdayIsSecondSaturday(y, m);
    UtcDateOfDateUtc(d, 0, 0, 0);
    assert t == DateUtc(d.year, d.month - 1, d.day, 0, 0, 0);
    assert Day(t) == DayNumber(d);
    DayOfMakeDate(MakeDay(y, m - 1, d.day), MakeTime(0, 0, 0, 0));
  }

  /** For a month of the years 100 to 9999, getSecondSaturday gives midnight of its second Saturday. */
  lemma GetSecondSaturdayIs(year: int, month0: int)
    requires 100 <= year <= 9999 && 0 <= month0 <= 11
    ensures GetSecondSaturday(year, month0) == Some(SecondSaturdayMidnight(year, month0 + 1))
  {
    var m := month0 + 1;
    FirstOfMonthUtc(year, m);
    var first := UtcTime(year, m - 1, 1, 0, 0, 0);
    assert first == Some(DateUtc(year, m - 1, 1, 0, 0, 0));
    assert SecondSaturdayDay(UtcWeekday(first.value)) == SecondSaturdayOf(year, m);
    UtcTimeInRange(year, m, SecondSaturdayOf(year, m), 0, 0, 0);
  }

  /** Month 12 of a year is January of the next: getSecondSaturday(year, month + 1) rolls over. */
  lemma MonthOverflow(year: int)
    requires year >= 100
    ensures GetSecondSaturday(year, 12) == GetSecondSaturday(year + 1, 0)
  {
    assert FullYear(year) == year && FullYear(year + 1) == year + 1;
    forall date | true
      ensures MakeDay(year, 12, date) == MakeDay(year + 1, 0, date)
    {
      assert 12 / 12 == 1 && 12 % 12 == 0 && 0 / 12 == 0 && 0 % 12 == 0;
    }
    var first := UtcTime(year, 12, 1, 0, 0, 0);
    assert first == UtcTime(year + 1, 0, 1, 0, 0, 0);
  }

  /** getSecondSaturday of the zero-based month after month m (1..12) is the second Saturday of NextMonth. */
  lemma FollowingMonth(year: int, month: int)
    requires 100 <= year <= 9998 && 1 <= month <= 12
    ensures GetSecondSaturday(year, month) == Some(SecondSaturdayMidnight(NextMonth(year, month).0, NextMonth(year, month).1))
  {
    if month == 12 {
      MonthOverflow(year);
      GetSecondSaturdayIs(year + 1, 0);
    } else {
      GetSecondSaturdayIs(year, month);
    }
  }

  /** Every day of a month comes before every day of the following month. */
  lemma BeforeNextMonth(d: Date, k: int)
    requires ValidDate(d) && 1 <= k
    ensures DayNumber(d) < DayNumber(Date(NextMonth(d.year, d.month).0, NextMonth(d.year, d.month).1, k))
  {
    DayNumberBounds(d);
    MonthStep(d.year, d.month);
    if d.month == 12 {
      YearStep(d.year);
    }
  }

  /**
   * getNextSecondSaturday(from) as written: this month's second Saturday when from is no
   * later than it, otherwise next month's. The comparison is between from, a moment of the
   * day, and midnight of the second Saturday.
   */
  function GetNextSecondSaturdayAsWritten(from: int): Option<int>
  {
    var d := UtcDate(from);
    var thisMonth := GetSecondSaturday(d.year, d.month - 1);
    if thisMonth.Some? && from <= thisMonth.value then thisMonth
    else GetSecondSaturday(d.year, d.month)
  }

  /**
   * Which month's second Saturday the function as written picks: this one while from is no
   * later than its midnight, the next one from the first millisecond after.
   */
  lemma {:induction false} NextSecondSaturdayAsWrittenIs(from: int)
    requires 100 <= UtcDate(from).year <= 9998
    ensures from <= SecondSaturdayMidnight(UtcDate(from).year, UtcDate(from).month) ==>
              GetNextSecondSaturdayAsWritten(from) == Some(SecondSaturdayMidnight(UtcDate(from).year, UtcDate(from).month))
    ensures from > SecondSaturdayMidnight(UtcDate(from).year, UtcDate(from).month) ==>
              GetNextSecondSaturdayAsWritten(from) ==
                Some(SecondSaturdayMidnight(NextMonth(UtcDate(from).year, UtcDate(from).month).0,
                                            NextMonth(UtcDate(from).year, UtcDate(from).month).1))
  {
    var d := UtcDate(from);
    GetSecondSaturdayIs(d.year, d.month - 1);
    FollowingMonth(d.year, d.month);
  }

  /** Midnight of a second Saturday moved to 10:59 UTC with setUTCHours is that month's submission deadline. */
  lemma MidnightToDeadline(y: int, m: int)
    requires 100 <= y <= 9999 && 1 <= m <= 12
    ensures SetUtcHours(Some(SecondSaturdayMidnight(y, m)), 10, 59, 0, 0) == Some(SecondSaturdayDeadline(y, m))
  {
    var s := SecondSaturdayOf(y, m);
    MidnightFacts(y, m);
    MakeDayInMonth(y, m, s);
    UtcTimeInRange(y, m, s, 10, 59, 0);
    assert Day(SecondSaturdayMidnight(y, m)) == MakeDay(y, m - 1, s);
  }

  /**
   * Later on the second Saturday itself than midnight, the function as written passes over
   * that day and returns next month's second Saturday, although it is documented to return
   * today; the corrected GetNextSecondSaturday returns midnight of today.
   */
  lemma {:induction false} AsWrittenSkipsSecondSaturday(from: int)
    requires 100 <= UtcDate(from).year <= 9998
    requires OnSecondSaturday(from) && from % MsPerDay > 0
    ensures GetNextSecondSaturdayAsWritten(from) ==
              Some(SecondSaturdayMidnight(NextMonth(UtcDate(from).year, UtcDate(from).month).0,
                                          NextMonth(UtcDate(from).year, UtcDate(from).month).1))
    ensures Day(from) < Day(GetNextSecondSaturdayAsWritten(from).value)
    ensures GetNextSecondSaturday(from) == Some(Day(from) * MsPerDay)
  {
    var d := UtcDate(from);
    ThisMonthPassed(from);
    FollowingMonth(d.year, d.month);
    NextMonthLater(from);
    CorrectedOnSecondSaturday(from);
  }

  /** Later on a second Saturday than midnight, this month's second Saturday lies before from. */
  lemma ThisMonthPassed(from: int)
    requires 100 <= UtcDate(from).year <= 9998
    requires OnSecondSaturday(from) && from % MsPerDay > 0
    ensures GetSecondSaturday(UtcDate(from).year, UtcDate(from).month - 1).Some?
    ensures GetSecondSaturday(UtcDate(from).year, UtcDate(from).month - 1).value < from
  {
    var d := UtcDate(from);
    GetSecondSaturdayIs(d.year, d.month - 1);
    MidnightFacts(d.year, d.month);
    var mid := SecondSaturdayMidnight(d.year, d.month);
    assert Day(from) == DayNumber(d) == Day(mid);
    MidnightBefore(from, mid);
  }

  /** Next month's second Saturday falls on a later day than from. */
  lemma NextMonthLater(from: int)
    requires 100 <= UtcDate(from).year <= 9998
    ensures Day(from) < Day(SecondSaturdayMidnight(NextMonth(UtcDate(from).year, UtcDate(from).month).0,
                                                   NextMonth(UtcDate(from).year, UtcDate(from).month).1))
  {
    var d := UtcDate(from);
    assert Day(from) == DayNumber(d);
    var (ny, nm) := NextMonth(d.year, d.month);
    MidnightFacts(ny, nm);
    BeforeNextMonth(d, SecondSaturdayOf(ny, nm));
  }

  /** On a second Saturday the corrected function gives midnight of that very day. */
  lemma CorrectedOnSecondSaturday(from: int)
    requires 100 <= UtcDate(from).year <= 9998 && OnSecondSaturday(from)
    ensures GetNextSecondSaturday(from) == Some(Day(from) * MsPerDay)
  {
    NextSecondSaturdayFacts(from);
    var t := GetNextSecondSaturday(from).value;
    assert t == Day(t) * MsPerDay;
  }

  /** Midnight of a day comes before any later moment of that day. */
  lemma MidnightBefore(t: int, mid: int)
    requires Day(t) == Day(mid) && mid % MsPerDay == 0 && t % MsPerDay > 0
    ensures mid < t && mid == Day(t) * MsPerDay
  {
  }

  /**
   * getNextSecondSaturday(from) as its documentation describes it: this month's second
   * Saturday when from falls on or before that day, otherwise next month's. The days are
   * compared, not the moments.
   */
  function GetNextSecondSaturday(from: int): Option<int>
  {
    var d := UtcDate(from);
    var thisMonth := GetSecondSaturday(d.year, d.month - 1);
    if thisMonth.Some? && Day(from) <= Day(thisMonth.value) then thisMonth
    else GetSecondSaturday(d.year, d.month)
  }

  /** Which month's second Saturday GetNextSecondSaturday picks: this one on or before it, the next one after it. */
  lemma {:induction false} NextSecondSaturdayIs(from: int)
    requires 100 <= UtcDate(from).year <= 9998
    ensures UtcDate(from).day <= SecondSaturdayOf(UtcDate(from).year, UtcDate(from).month) ==>
              GetNextSecondSaturday(from) == Some(SecondSaturdayMidnight(UtcDate(from).year, UtcDate(from).month))
    ensures UtcDate(from).day > SecondSaturdayOf(UtcDate(from).year, UtcDate(from).month) ==>
              GetNextSecondSaturday(from) ==
                Some(SecondSaturdayMidnight(NextMonth(UtcDate(from).year, UtcDate(from).month).0,
                                            NextMonth(UtcDate(from).year, UtcDate(from).month).1))
  {
    var d := UtcDate(from);
    NextChoice(from, d);
    FollowingMonth(d.year, d.month);
  }

  /** The test of GetNextSecondSaturday compares the day of the month with the second Saturday's. */
  lemma NextChoice(from: int, d: Date)
    requires d == UtcDate(from) && 100 <= d.year <= 9998
    ensures GetNextSecondSaturday(from) ==
              if d.day <= SecondSaturdayOf(d.year, d.month) then Some(SecondSaturdayMidnight(d.year, d.month))
              else GetSecondSaturday(d.year, d.month)
  {
    var s := SecondSaturdayOf(d.year, d.month);
    GetSecondSaturdayIs(d.year, d.month - 1);
    var thisMonth := GetSecondSaturday(d.year, d.month - 1);
    MidnightFacts(d.year, d.month);
    assert Day(thisMonth.value) == DayNumber(Date(d.year, d.month, s));
    assert Day(from) == DayNumber(d);
  }

  /**
   * GetNextSecondSaturday gives midnight of a second Saturday that is not before the day of
   * from; when from is itself on a second Saturday, it is that very day.
   */
  lemma {:induction false} NextSecondSaturdayFacts(from: int)
    requires 100 <= UtcDate(from).year <= 9998
    ensures GetNextSecondSaturday(from).Some?
    ensures OnSecondSaturday(GetNextSecondSaturday(from).value)
    ensures GetNextSecondSaturday(from).value % MsPerDay == 0
    ensures Day(from) <= Day(GetNextSecondSaturday(from).value)
    ensures OnSecondSaturday(from) ==> Day(GetNextSecondSaturday(from).value) == Day(from)
  {
    var d := UtcDate(from);
    NextSecondSaturdayIs(from);
    MidnightFacts(d.year, d.month);
    assert Day(from) == DayNumber(d);
    var (ny, nm) := NextMonth(d.year, d.month);
    MidnightFacts(ny, nm);
    if d.day > SecondSaturdayOf(d.year, d.month) {
      BeforeNextMonth(d, SecondSaturdayOf(ny, nm));
    }
  }
}
