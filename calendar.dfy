/**
 * Proleptic Gregorian calendar arithmetic on millisecond timestamps, following the
 * day-number formulas of the ECMAScript Date object (section 21.4.1 of ECMA-262:
 * Day, DayFromYear, MakeDay, MakeDate, WeekDay). Every copy of the "second Saturday"
 * computation in the application is stated in terms of this module, and the facts
 * about it are proved here once.
 */
module Calendar {
  import opened Wrappers

  const MsPerSecond: int := 1000
  const MsPerMinute: int := 60000
  const MsPerHour: int := 3600000
  const MsPerDay: int := 86400000

  /** Weekday numbers as returned by getDay / getUTCDay. */
  const Saturday: int := 6
  const Wednesday: int := 3

  datatype Date = Date(year: int, month: int, day: int)   // month 1..12

  predicate IsLeap(y: int)
  {
    y % 4 == 0 && (y % 100 != 0 || y % 400 == 0)
  }

  function DaysInYear(y: int): int
  {
    if IsLeap(y) then 366 else 365
  }

  function DaysInMonth(y: int, m: int): int
    requires 1 <= m <= 12
  {
    if m == 2 then (if IsLeap(y) then 29 else 28)
    else if m == 4 || m == 6 || m == 9 || m == 11 then 30
    else 31
  }

  predicate ValidDate(d: Date)
  {
    1 <= d.month <= 12 && 1 <= d.day <= DaysInMonth(d.year, d.month)
  }

  /** Days from 1 January of year y to the first day of month m; m = 13 gives the whole year. */
  function DaysBeforeMonth(y: int, m: int): int
    requires 1 <= m <= 13
  {
    var leap := if m > 2 && IsLeap(y) then 1 else 0;
    leap + (if m == 1 then 0 else if m == 2 then 31 else if m == 3 then 59
            else if m == 4 then 90 else if m == 5 then 120 else if m == 6 then 151
            else if m == 7 then 181 else if m == 8 then 212 else if m == 9 then 243
            else if m == 10 then 273 else if m == 11 then 304 else if m == 12 then 334
            else 365)
  }

  /** Day number of 1 January of year y (ECMAScript DayFromYear; Dafny's division floors for a positive divisor). */
  function DayFromYear(y: int): int
  {
    365 * (y - 1970) + (y - 1969) / 4 - (y - 1901) / 100 + (y - 1601) / 400
  }

  /**
   * ECMAScript MakeDay for a zero-based month that may lie outside 0..11 and a day of
   * the month that may lie outside the month: the year absorbs whole multiples of twelve
   * months and the day count runs on past the end of the month.
   */
  function MakeDay(year: int, month0: int, date: int): int
  {
    var ym := year + month0 / 12;
    var mn := month0 % 12;
    DayFromYear(ym) + DaysBeforeMonth(ym, mn + 1) + date - 1
  }

  /** Day number of a calendar date (days since 1 January 1970). */
  function DayNumber(d: Date): int
    requires 1 <= d.month <= 12
  {
    DayFromYear(d.year) + DaysBeforeMonth(d.year, d.month) + d.day - 1
  }

  function MakeTime(hour: int, minute: int, second: int, ms: int): int
  {
    hour * MsPerHour + minute * MsPerMinute + second * MsPerSecond + ms
  }

  function MakeDate(day: int, time: int): int
  {
    day * MsPerDay + time
  }

  /** Day number of the day that contains timestamp t. */
  function Day(t: int): int
  {
    t / MsPerDay
  }

  /** Date.UTC(year, month0, date, hour, minute, second). */
  function DateUtc(year: int, month0: int, date: int, hour: int, minute: int, second: int): int
  {
    MakeDate(MakeDay(year, month0, date), MakeTime(hour, minute, second, 0))
  }

  /** The largest magnitude of a time value: 8.64e15 ms (TimeClip, section 21.4.1.31 of ECMA-262). */
  const MaxTime: int := 8_640_000_000_000_000

  /** TimeClip: a time outside the representable range is NaN, here None. */
  function TimeClip(t: int): (r: Option<int>)
    ensures r.Some? <==> -MaxTime <= t <= MaxTime
    ensures r.Some? ==> r.value == t
  {
    if -MaxTime <= t <= MaxTime then Some(t) else None
  }

  /**
   * setUTCHours(hour, minute, second, ms) and then getTime(): the same UTC day at the given
   * time. An Invalid Date (None) stays invalid, and so does a result beyond TimeClip's range.
   */
  function SetUtcHours(t: Option<int>, hour: int, minute: int, second: int, ms: int): (r: Option<int>)
    ensures r.Some? ==> t.Some? && r.value == Day(t.value) * MsPerDay + MakeTime(hour, minute, second, ms)
    ensures t.Some? && -MaxTime <= Day(t.value) * MsPerDay + MakeTime(hour, minute, second, ms) <= MaxTime ==> r.Some?
  {
    if t.None? then None else TimeClip(MakeDate(Day(t.value), MakeTime(hour, minute, second, ms)))
  }

  /** Date.UTC reads a year from 0 to 99 as 1900 + year. */
  function FullYear(year: int): (y: int)
    ensures 0 <= year <= 99 ==> y == 1900 + year
    ensures !(0 <= year <= 99) ==> y == year
  {
    if 0 <= year <= 99 then 1900 + year else year
  }

  /** Date.UTC(year, month0, date, hour, minute, second) in full: its year rule and TimeClip. */
  function UtcTime(year: int, month0: int, date: int, hour: int, minute: int, second: int): Option<int>
  {
    TimeClip(DateUtc(FullYear(year), month0, date, hour, minute, second))
  }

  /** Day of the week of a day number: 0 is Sunday, 6 is Saturday; 1 January 1970 was a Thursday. */
  function Weekday(day: int): int
  {
    (day + 4) % 7
  }

  function UtcWeekday(t: int): int
  {
    Weekday(Day(t))
  }

  // ---------------------------------------------------------------------------------
  // From day numbers back to calendar dates

  /** Consecutive years are DaysInYear apart. */
  lemma YearStep(y: int)
    ensures DayFromYear(y + 1) == DayFromYear(y) + DaysInYear(y)
  {
    LeapStep4(y);
    LeapStep100(y);
    LeapStep400(y);
    var p4, p100, p400 := (y - 1969) / 4, (y - 1901) / 100, (y - 1601) / 400;
    var q4, q100, q400 := (y + 1 - 1969) / 4, (y + 1 - 1901) / 100, (y + 1 - 1601) / 400;
    assert 365 * (y + 1 - 1970) == 365 * (y - 1970) + 365;
    assert DayFromYear(y) == 365 * (y - 1970) + p4 - p100 + p400;
    assert DayFromYear(y + 1) == 365 * (y - 1970) + 365 + q4 - q100 + q400;
    Divisibility(y);
  }

  /** A year divisible by 400 is divisible by 100, and one divisible by 100 by 4. */
  lemma Divisibility(y: int)
    ensures y % 100 == 0 ==> y % 4 == 0
    ensures y % 400 == 0 ==> y % 100 == 0
  {
    if y % 100 == 0 {
      var k := y / 100;
      assert y == 4 * (25 * k);
    }
    if y % 400 == 0 {
      var k := y / 400;
      assert y == 100 * (4 * k);
    }
  }

  /** The count of years divisible by 4 grows by one exactly past a year divisible by 4. */
  lemma LeapStep4(y: int)
    ensures (y + 1 - 1969) / 4 - (y - 1969) / 4 == if y % 4 == 0 then 1 else 0
  {
    FloorStep4(y - 1969);
    assert (y - 1968) % 4 == y % 4;
  }

  lemma LeapStep100(y: int)
    ensures (y + 1 - 1901) / 100 - (y - 1901) / 100 == if y % 100 == 0 then 1 else 0
  {
    FloorStep100(y - 1901);
    assert (y - 1900) % 100 == y % 100;
  }

  lemma LeapStep400(y: int)
    ensures (y + 1 - 1601) / 400 - (y - 1601) / 400 == if y % 400 == 0 then 1 else 0
  {
    FloorStep400(y - 1601);
    assert (y - 1600) % 400 == y % 400;
  }

  lemma FloorStep4(a: int)
    ensures (a + 1) / 4 - a / 4 == if (a + 1) % 4 == 0 then 1 else 0
  {
  }

  lemma FloorStep100(a: int)
    ensures (a + 1) / 100 - a / 100 == if (a + 1) % 100 == 0 then 1 else 0
  {
  }

  lemma FloorStep400(a: int)
    ensures (a + 1) / 400 - a / 400 == if (a + 1) % 400 == 0 then 1 else 0
  {
  }

  lemma {:induction false} YearMonotone(a: int, b: int)
    requires a <= b
    ensures DayFromYear(a) <= DayFromYear(b)
    decreases b - a
  {
    if a < b {
      YearStep(b - 1);
      YearMonotone(a, b - 1);
    }
  }

  lemma MonthStep(y: int, m: int)
    requires 1 <= m <= 12
    ensures DaysBeforeMonth(y, m + 1) == DaysBeforeMonth(y, m) + DaysInMonth(y, m)
  {
  }

  /** A year from which the search for the year containing day n may start. */
  function StartYear(n: int): (y: int)
    ensures DayFromYear(y) <= n
  {
    if n >= 0 then 1970 else 1970 + n / 365 - 1
  }

  function YearFrom(n: int, y: int): (r: int)
    requires DayFromYear(y) <= n
    ensures DayFromYear(r) <= n < DayFromYear(r + 1)
    decreases n - DayFromYear(y)
  {
    YearStep(y);
    if n < DayFromYear(y + 1) then y else YearFrom(n, y + 1)
  }

  function MonthFrom(y: int, doy: int, m: int): (r: int)
    requires 1 <= m <= 12 && DaysBeforeMonth(y, m) <= doy < DaysInYear(y)
    ensures m <= r <= 12 && DaysBeforeMonth(y, r) <= doy < DaysBeforeMonth(y, r + 1)
    decreases 12 - m
  {
    if doy < DaysBeforeMonth(y, m + 1) then m else MonthFrom(y, doy, m + 1)
  }

  /** The calendar date of a day number (ECMAScript YearFromTime, MonthFromTime, DateFromTime). */
  function FromDays(n: int): (d: Date)
    ensures ValidDate(d) && DayNumber(d) == n
  {
    var y := YearFrom(n, StartYear(n));
    YearStep(y);
    var m := MonthFrom(y, n - DayFromYear(y), 1);
    MonthStep(y, m);
    Date(y, m, n - DayFromYear(y) - DaysBeforeMonth(y, m) + 1)
  }

  /** The UTC calendar date of timestamp t (getUTCFullYear, getUTCMonth + 1, getUTCDate). */
  function UtcDate(t: int): Date
  {
    FromDays(Day(t))
  }

  /** A valid date's day number lies inside its year and its month. */
  lemma DayNumberBounds(d: Date)
    requires ValidDate(d)
    ensures DayFromYear(d.year) <= DayNumber(d) < DayFromYear(d.year + 1)
    ensures DayNumber(Date(d.year, d.month, 1)) <= DayNumber(d) < DayNumber(Date(d.year, d.month, 1)) + DaysInMonth(d.year, d.month)
  {
    MonthStep(d.year, d.month);
    YearStep(d.year);
    assert DaysBeforeMonth(d.year, d.month + 1) <= DaysBeforeMonth(d.year, 13) by {
      var k := d.month + 1;
      assert 2 <= k <= 13;
    }
  }

  /** Distinct valid dates have distinct day numbers. */
  lemma DayNumberInjective(a: Date, b: Date)
    requires ValidDate(a) && ValidDate(b) && DayNumber(a) == DayNumber(b)
    ensures a == b
  {
    DayNumberBounds(a);
    DayNumberBounds(b);
    if a.year < b.year {
      YearMonotone(a.year + 1, b.year);
    } else if b.year < a.year {
      YearMonotone(b.year + 1, a.year);
    }
    assert a.year == b.year;
    if a.month < b.month {
      MonthsApart(a.year, a.month, b.month);
    } else if b.month < a.month {
      MonthsApart(a.year, b.month, a.month);
    }
  }

  /** A day number lies in month m of year y exactly when its calendar date is in that month. */
  lemma InMonthIff(y: int, m: int, day: int)
    requires 1 <= m <= 12
    ensures DayNumber(Date(y, m, 1)) <= day < DayNumber(Date(y, m, 1)) + DaysInMonth(y, m) <==>
              FromDays(day).year == y && FromDays(day).month == m
  {
    var d := FromDays(day);
    var s := DayNumber(Date(y, m, 1));
    if d.year == y && d.month == m {
      DayNumberBounds(d);
    }
    if s <= day < s + DaysInMonth(y, m) {
      var d' := Date(y, m, day - s + 1);
      DayNumberInjective(d, d');
    }
  }

  /** Day 0 of the month after month m (zero-based m) is the last day of month m (one-based). */
  lemma LastDayOfMonth(y: int, m: int)
    requires 1 <= m <= 12
    ensures MakeDay(y, m, 0) == DayNumber(Date(y, m, 1)) + DaysInMonth(y, m) - 1
  {
    MonthStep(y, m);
    if m == 12 {
      YearStep(y);
      assert MakeDay(y, m, 0) == DayFromYear(y + 1) - 1;
    } else {
      assert MakeDay(y, m, 0) == DayFromYear(y) + DaysBeforeMonth(y, m + 1) - 1;
    }
  }

  lemma MonthsApart(y: int, m1: int, m2: int)
    requires 1 <= m1 < m2 <= 12
    ensures DaysBeforeMonth(y, m1) + DaysInMonth(y, m1) <= DaysBeforeMonth(y, m2)
  {
  }

  /** FromDays inverts DayNumber on valid dates. */
  lemma FromDaysOfDayNumber(d: Date)
    requires ValidDate(d)
    ensures FromDays(DayNumber(d)) == d
  {
    DayNumberInjective(FromDays(DayNumber(d)), d);
  }

  /** MakeDay normalises its month onto a valid calendar month. */
  lemma MakeDayIsDayNumber(year: int, month0: int, date: int)
    ensures MakeDay(year, month0, date) == DayNumber(Date(year + month0 / 12, month0 % 12 + 1, date))
  {
  }

  lemma DayOfMakeDate(day: int, time: int)
    requires 0 <= time < MsPerDay
    ensures Day(MakeDate(day, time)) == day
    ensures MakeDate(day, time) % MsPerDay == time
  {
  }

  /** A timestamp moved forward but not past midnight stays on the same UTC day. */
  lemma SameDayLater(t: int, d: int)
    requires 0 <= d && t % MsPerDay + d < MsPerDay
    ensures Day(t + d) == Day(t) && (t + d) % MsPerDay == t % MsPerDay + d
    ensures UtcDate(t + d) == UtcDate(t) && UtcWeekday(t + d) == UtcWeekday(t)
  {
    assert t + d == Day(t) * MsPerDay + (t % MsPerDay + d);
    DayOfMakeDate(Day(t), t % MsPerDay + d);
  }

  /** The UTC date of Date.UTC(year, month0 - 1, date, h, mi, s) for a valid date and time of day. */
  lemma UtcDateOfDateUtc(d: Date, hour: int, minute: int, second: int)
    requires ValidDate(d)
    requires 0 <= hour < 24 && 0 <= minute < 60 && 0 <= second < 60
    ensures UtcDate(DateUtc(d.year, d.month - 1, d.day, hour, minute, second)) == d
    ensures Day(DateUtc(d.year, d.month - 1, d.day, hour, minute, second)) == DayNumber(d)
  {
    var day := MakeDay(d.year, d.month - 1, d.day);
    MakeDayIsDayNumber(d.year, d.month - 1, d.day);
    assert day == DayNumber(d);
    var time := MakeTime(hour, minute, second, 0);
    assert 0 <= time < MsPerDay;
    DayOfMakeDate(day, time);
    FromDaysOfDayNumber(d);
  }

  // ---------------------------------------------------------------------------------
  // The second Saturday of a month

  /**
   * Day of the month of the second Saturday, given the weekday of the first of the month:
   * (6 - weekday + 7) % 7 days after the first is the first Saturday, one week later the second.
   */
  function SecondSaturdayDay(firstWeekday: int): int
  {
    ((6 - firstWeekday + 7) % 7) + 1 + 7
  }

  /** Weekday of the first of month m (1..12) of year y. */
  function FirstWeekday(y: int, m: int): int
    requires 1 <= m <= 12
  {
    Weekday(DayNumber(Date(y, m, 1)))
  }

  /** The day of the month of the second Saturday of month m of year y. */
  function SecondSaturdayOf(y: int, m: int): (d: int)
    requires 1 <= m <= 12
    ensures 8 <= d <= 14
  {
    SecondSaturdayDay(FirstWeekday(y, m))
  }

  /**
   * Among the first fourteen days of a month exactly two are Saturdays: the second
   * Saturday and the day one week before it; so the second Saturday is a valid date in its
   * month, it falls on a Saturday, and no day from 8 to 14 other than it does.
   */
  lemma {:induction false} SecondSaturdayIsSecondSaturday(y: int, m: int)
    requires 1 <= m <= 12
    ensures ValidDate(Date(y, m, SecondSaturdayOf(y, m)))
    ensures Weekday(DayNumber(Date(y, m, SecondSaturdayOf(y, m)))) == Saturday
    ensures forall k :: 1 <= k <= 14 ==>
              (Weekday(DayNumber(Date(y, m, k))) == Saturday <==>
               k == SecondSaturdayOf(y, m) || k == SecondSaturdayOf(y, m) - 7)
  {
    var base := DayNumber(Date(y, m, 1));
    var w := Weekday(base);
    forall k | 1 <= k <= 14
      ensures Weekday(DayNumber(Date(y, m, k))) == Saturday <==>
              k == SecondSaturdayOf(y, m) || k == SecondSaturdayOf(y, m) - 7
    {
      assert DayNumber(Date(y, m, k)) == base + k - 1;
      WeekdayShift(base, k - 1);
    }
  }

  lemma WeekdayShift(base: int, k: int)
    requires 0 <= k
    ensures Weekday(base + k) == (Weekday(base) + k) % 7
  {
  }

  /** A timestamp falls on the second Saturday of its UTC month. */
  predicate OnSecondSaturday(t: int)
  {
    var d := UtcDate(t);
    d.day == SecondSaturdayOf(d.year, d.month)
  }

  /**
   * The test used by the schedulers — the UTC weekday is Saturday and the UTC day of the
   * month lies in 8..14 — holds exactly on the second Saturday of the month.
   */
  lemma SaturdayInSecondWeekIff(t: int)
    ensures (UtcWeekday(t) == Saturday && 8 <= UtcDate(t).day <= 14) <==> OnSecondSaturday(t)
  {
    var d := UtcDate(t);
    SecondSaturdayIsSecondSaturday(d.year, d.month);
    assert Day(t) == DayNumber(Date(d.year, d.month, d.day));
    if 8 <= d.day <= 14 {
      assert 1 <= d.day <= 14;
    }
  }

  // ---------------------------------------------------------------------------------
  // Months of a submission cycle

  /** The month after (year, month): December rolls over to January of the next year. */
  function NextMonth(year: int, month: int): (r: (int, int))
    requires 1 <= month <= 12
    ensures 1 <= r.1 <= 12
    ensures month < 12 ==> r == (year, month + 1)
    ensures month == 12 ==> r == (year + 1, 1)
  {
    if month == 12 then (year + 1, 1) else (year, month + 1)
  }

  /** Submission deadline of a month: 10:59:00 UTC on its second Saturday. */
  function SecondSaturdayDeadline(year: int, month: int): int
    requires 1 <= month <= 12
  {
    DateUtc(year, month - 1, SecondSaturdayOf(year, month), 10, 59, 0)
  }

  /** The deadline of a month falls on that month's second Saturday, at 10:59 UTC. */
  lemma DeadlineFacts(year: int, month: int)
    requires 1 <= month <= 12
    ensures UtcDate(SecondSaturdayDeadline(year, month)) == Date(year, month, SecondSaturdayOf(year, month))
    ensures OnSecondSaturday(SecondSaturdayDeadline(year, month))
    ensures UtcWeekday(SecondSaturdayDeadline(year, month)) == Saturday
    ensures SecondSaturdayDeadline(year, month) % MsPerDay == MakeTime(10, 59, 0, 0)
  {
    var t := SecondSaturdayDeadline(year, month);
    var d := Date(year, month, SecondSaturdayOf(year, month));
    SecondSaturdayIsSecondSaturday(year, month);
    UtcDateOfDateUtc(d, 10, 59, 0);
    assert t == DateUtc(d.year, d.month - 1, d.day, 10, 59, 0);
    assert Day(t) == DayNumber(d);
    DayOfMakeDate(MakeDay(year, month - 1, d.day), MakeTime(10, 59, 0, 0));
  }

  /** Every deadline comes before the next month's deadline. */
  lemma DeadlinesIncrease(year: int, month: int)
    requires 1 <= month <= 12
    ensures SecondSaturdayDeadline(year, month) < SecondSaturdayDeadline(NextMonth(year, month).0, NextMonth(year, month).1)
  {
    var (ny, nm) := NextMonth(year, month);
    var s := SecondSaturdayOf(year, month);
    var ns := SecondSaturdayOf(ny, nm);
    MakeDayInMonth(year, month, s);
    MakeDayInMonth(ny, nm, ns);
    var day := DayNumber(Date(year, month, s));
    var nday := DayNumber(Date(ny, nm, ns));
    MonthStep(year, month);
    if month == 12 {
      YearStep(year);
      assert nday == DayFromYear(year + 1) + ns - 1;
    } else {
      assert nday == DayFromYear(year) + DaysBeforeMonth(year, month + 1) + ns - 1;
    }
    assert day < nday;
    MakeDateMonotone(day, nday, MakeTime(10, 59, 0, 0));
  }

  /** MakeDay on a month given one-based in 1..12 is the day number of that date. */
  lemma MakeDayInMonth(year: int, month: int, date: int)
    requires 1 <= month <= 12
    ensures MakeDay(year, month - 1, date) == DayNumber(Date(year, month, date))
  {
    assert (month - 1) / 12 == 0;
    assert (month - 1) % 12 == month - 1;
  }

  /** Days of the years 100 to 9999 are well inside the range of time values. */
  lemma DayBounds(year: int, month: int, day: int)
    requires 100 <= year <= 9999 && 1 <= month <= 12 && 1 <= day <= 31
    ensures -700000 <= MakeDay(year, month - 1, day) <= 3000000
  {
    MakeDayInMonth(year, month, day);
    YearMonotone(100, year);
    YearMonotone(year, 9999);
    assert DayFromYear(100) == -683003;
    assert DayFromYear(9999) == 2932532;
    assert 0 <= DaysBeforeMonth(year, month) <= 335;
  }

  /** Date.UTC(year, month - 1, 1) for a month of the years 100 to 9999: a valid time on that month's first day. */
  lemma FirstOfMonthUtc(year: int, month: int)
    requires 100 <= year <= 9999 && 1 <= month <= 12
    ensures UtcTime(year, month - 1, 1, 0, 0, 0) == Some(DateUtc(year, month - 1, 1, 0, 0, 0))
    ensures UtcWeekday(DateUtc(year, month - 1, 1, 0, 0, 0)) == FirstWeekday(year, month)
  {
    var day1 := MakeDay(year, month - 1, 1);
    MakeDayInMonth(year, month, 1);
    DayBounds(year, month, 1);
    var first := DateUtc(year, month - 1, 1, 0, 0, 0);
    assert first == MakeDate(day1, 0);
    DayOfMakeDate(day1, 0);
  }

  /** The first of a month of the years 100 to 9999, and the second Saturday its weekday gives. */
  lemma FirstOfMonth(year: int, month: int) returns (first: int)
    requires 100 <= year <= 9999 && 1 <= month <= 12
    ensures UtcTime(year, month - 1, 1, 0, 0, 0) == Some(first)
    ensures SecondSaturdayDay(UtcWeekday(first)) == SecondSaturdayOf(year, month)
  {
    FirstOfMonthUtc(year, month);
    first := DateUtc(year, month - 1, 1, 0, 0, 0);
  }

  /** A time of a day of the years 100 to 9999 is within TimeClip's range, so Date.UTC gives it. */
  lemma UtcTimeInRange(year: int, month: int, day: int, hour: int, minute: int, second: int)
    requires 100 <= year <= 9999 && 1 <= month <= 12 && 1 <= day <= 31
    requires 0 <= hour < 24 && 0 <= minute < 60 && 0 <= second < 60
    ensures UtcTime(year, month - 1, day, hour, minute, second) == Some(DateUtc(year, month - 1, day, hour, minute, second))
  {
    var d := MakeDay(year, month - 1, day);
    DayBounds(year, month, day);
    var time := MakeTime(hour, minute, second, 0);
    assert 0 <= time < MsPerDay;
    assert -700000 * MsPerDay <= d * MsPerDay <= 3000000 * MsPerDay;
  }

  lemma MakeDateMonotone(day1: int, day2: int, time: int)
    requires day1 < day2
    ensures MakeDate(day1, time) < MakeDate(day2, time)
  {
  }
}
