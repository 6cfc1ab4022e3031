/**
 * The month picker of the dashboard (src/components/dashboard/DatePicker.tsx): generateMonths
 * lists the second Saturday of the current month and of the months before it, and
 * isSameMonth marks the entry of the selected month. As in Dates, the local time zone is
 * taken to be UTC, and an Invalid Date is None.
 */
module DatePicker {
  import opened Wrappers
  import opened Calendar
  import Dates

  /** The year and zero-based month i months before month0 of year. */
  function MonthBack(year: int, month0: int, i: int): (int, int)
  {
    var t := year * 12 + month0 - i;
    (t / 12, t % 12)
  }

  /**
   * The month i months back is the only (year, month) pair with a month in 0..11 whose
   * month index year * 12 + month is i less than the starting one.
   */
  lemma MonthBackIndex(year: int, month0: int, i: int, y: int, m: int)
    ensures 0 <= MonthBack(year, month0, i).1 <= 11
    ensures MonthBack(year, month0, i).0 * 12 + MonthBack(year, month0, i).1 == year * 12 + month0 - i
    ensures 0 <= m <= 11 && y * 12 + m == year * 12 + month0 - i ==> MonthBack(year, month0, i) == (y, m)
  {
    var t := year * 12 + month0 - i;
    assert t == (t / 12) * 12 + t % 12;
  }

  /** Going back zero months from a month in 0..11 stays on that month. */
  lemma MonthBackZero(year: int, month0: int)
    requires 0 <= month0 <= 11
    ensures MonthBack(year, month0, 0) == (year, month0)
  {
    MonthBackIndex(year, month0, 0, year, month0);
  }

  /**
   * One more month back is the month before: the month counts down, and from January it
   * becomes December of the year before.
   */
  lemma MonthBackStep(year: int, month0: int, i: int, y: int, m: int)
    requires (y, m) == MonthBack(year, month0, i)
    ensures MonthBack(year, month0, i + 1) == if m == 0 then (y - 1, 11) else (y, m - 1)
  {
    MonthBackIndex(year, month0, i, y, m);
    if m == 0 {
      MonthBackIndex(year, month0, i + 1, y - 1, 11);
    } else {
      MonthBackIndex(year, month0, i + 1, y, m - 1);
    }
  }

  /**
   * Entry i of generateMonths when the clock reads month0 (0..11) of year: getSecondSaturday
   * of the month i months before.
   */
  function Entry(year: int, month0: int, i: int): Option<int>
  {
    var (y, m) := MonthBack(year, month0, i);
    Dates.GetSecondSaturday(y, m)
  }

  lemma EntryIs(year: int, month0: int, i: int, y: int, m: int)
    requires (y, m) == MonthBack(year, month0, i)
    ensures Entry(year, month0, i) == Dates.GetSecondSaturday(y, m)
  {
  }

  /**
   * generateMonths(count), with now.getFullYear() and now.getMonth() as year and month0:
   * the loop steps the month back once per entry.
   */
  method GenerateMonths(year: int, month0: int, count: int) returns (months: seq<Option<int>>)
    requires 0 <= month0 <= 11
    ensures |months| == if count < 0 then 0 else count
    ensures forall i :: 0 <= i < |months| ==> months[i] == Entry(year, month0, i)
  {
    var y, m := year, month0;
    months := [];
    var i := 0;
    MonthBackZero(year, month0);
    while i < count
      invariant 0 <= i <= (if count < 0 then 0 else count)
      invariant (y, m) == MonthBack(year, month0, i)
      invariant |months| == i
      invariant forall k :: 0 <= k < i ==> months[k] == Entry(year, month0, k)
    {
      EntryIs(year, month0, i, y, m);
      months := months + [Dates.GetSecondSaturday(y, m)];
      MonthBackStep(year, month0, i, y, m);
      m := m - 1;
      if m < 0 {
        m := 11;
        y := y - 1;
      }
      i := i + 1;
    }
  }

  /** Entry 0 is the second Saturday of the current month. */
  lemma FirstEntryThisMonth(year: int, month0: int)
    requires 0 <= month0 <= 11
    ensures Entry(year, month0, 0) == Dates.GetSecondSaturday(year, month0)
  {
    MonthBackZero(year, month0);
  }

  /** isSameMonth: the same UTC year and month; an Invalid Date is in no month. */
  predicate IsSameMonth(a: Option<int>, b: Option<int>)
  {
    a.Some? && b.Some? && UtcDate(a.value).year == UtcDate(b.value).year && UtcDate(a.value).month == UtcDate(b.value).month
  }

  /**
   * For a month of the years 100 to 9999, entry i is midnight of that month's second
   * Saturday: a Saturday, day 8 to 14, in the month i months back.
   */
  lemma EntryFacts(year: int, month0: int, i: int, y: int, m: int)
    requires (y, m) == MonthBack(year, month0, i) && 100 <= y <= 9999
    ensures Entry(year, month0, i) == Some(Dates.SecondSaturdayMidnight(y, m + 1))
    ensures UtcDate(Entry(year, month0, i).value) == Date(y, m + 1, SecondSaturdayOf(y, m + 1))
    ensures OnSecondSaturday(Entry(year, month0, i).value)
  {
    MonthBackIndex(year, month0, i, y, m);
    Dates.GetSecondSaturdayIs(y, m);
    Dates.MidnightFacts(y, m + 1);
  }

  /**
   * No two entries are in the same month, so at most one entry is marked as the selected
   * month, whatever the selected date.
   */
  lemma AtMostOneSelected(year: int, month0: int, i: int, j: int, selected: Option<int>)
    requires 100 <= MonthBack(year, month0, i).0 <= 9999 && 100 <= MonthBack(year, month0, j).0 <= 9999
    requires IsSameMonth(Entry(year, month0, i), selected) && IsSameMonth(Entry(year, month0, j), selected)
    ensures i == j
  {
    var yi, mi := EntryMonth(year, month0, i);
    var yj, mj := EntryMonth(year, month0, j);
  }

  /** The UTC year and month of entry i, and its place among the months counted back. */
  lemma EntryMonth(year: int, month0: int, i: int) returns (y: int, m: int)
    requires 100 <= MonthBack(year, month0, i).0 <= 9999
    ensures Entry(year, month0, i).Some?
    ensures UtcDate(Entry(year, month0, i).value).year == y && UtcDate(Entry(year, month0, i).value).month == m + 1
    ensures y * 12 + m == year * 12 + month0 - i
  {
    y, m := MonthBack(year, month0, i).0, MonthBack(year, month0, i).1;
    EntryFacts(year, month0, i, y, m);
    MonthBackIndex(year, month0, i, y, m);
  }
}
