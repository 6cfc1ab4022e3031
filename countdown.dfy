/**
 * The deadline countdown of the submission screen: the pure computation behind
 * useDeadlineCountdown (src/hooks/useDeadlineCountdown.ts) and what the DeadlineCountdown
 * component (src/components/submissions/DeadlineCountdown.tsx) shows from it. The clock
 * reading Date.now() is the parameter now; the one-second re-render timer only calls the
 * computation again.
 */
module Countdown {
  import opened Wrappers
  import opened Calendar
  import opened Text
  import Dates

  datatype Countdown = Countdown(days: nat, hours: nat, minutes: nat, seconds: nat, isPast: bool, isUrgent: bool)

  /** compute(deadline): the time left split into days, hours, minutes and whole seconds. */
  function Compute(deadline: int, now: int): (c: Countdown)
    ensures c.isPast <==> deadline - now <= 0
    ensures c.isPast ==> c == Countdown(0, 0, 0, 0, true, false)
    ensures !c.isPast ==>
              c.hours < 24 && c.minutes < 60 && c.seconds < 60 &&
              c.days * MsPerDay + c.hours * MsPerHour + c.minutes * MsPerMinute + c.seconds * MsPerSecond
                == (deadline - now) - (deadline - now) % MsPerSecond
    ensures c.isUrgent <==> 0 < deadline - now < MsPerHour
  {
    var diff := deadline - now;
    if diff <= 0 then Countdown(0, 0, 0, 0, true, false)
    else
      Decompose(diff);
      Countdown(diff / MsPerDay, (diff % MsPerDay) / MsPerHour, (diff % MsPerHour) / MsPerMinute,
                (diff % MsPerMinute) / MsPerSecond, false, diff < MsPerHour)
  }

  /** Days, hours, minutes and seconds of a positive span add back up to it, less its milliseconds. */
  lemma Decompose(diff: int)
    requires diff > 0
    ensures (diff % MsPerDay) / MsPerHour < 24 && (diff % MsPerHour) / MsPerMinute < 60 && (diff % MsPerMinute) / MsPerSecond < 60
    ensures (diff / MsPerDay) * MsPerDay + ((diff % MsPerDay) / MsPerHour) * MsPerHour
              + ((diff % MsPerHour) / MsPerMinute) * MsPerMinute + ((diff % MsPerMinute) / MsPerSecond) * MsPerSecond
            == diff - diff % MsPerSecond
  {
    var d, h, m := diff % 86400000, diff % 3600000, diff % 60000;
    DayModHour(diff);
    HourModMinute(diff);
    MinuteModSecond(diff);
    assert d == (d / 3600000) * 3600000 + h;
    assert h == (h / 60000) * 60000 + m;
    assert m == (m / 1000) * 1000 + diff % 1000;
  }

  /** Taking a span modulo a day, an hour or a minute first leaves its remainder modulo the next smaller unit unchanged. */
  lemma DayModHour(x: int)
    ensures (x % 86400000) % 3600000 == x % 3600000
  {
    var q, r := x / 86400000, x % 86400000;
    var t, s := r / 3600000, r % 3600000;
    assert x == (24 * q + t) * 3600000 + s;
  }

  lemma HourModMinute(x: int)
    ensures (x % 3600000) % 60000 == x % 60000
  {
    var q, r := x / 3600000, x % 3600000;
    var t, s := r / 60000, r % 60000;
    assert x == (60 * q + t) * 60000 + s;
  }

  lemma MinuteModSecond(x: int)
    ensures (x % 60000) % 1000 == x % 1000
  {
    var q, r := x / 60000, x % 60000;
    var t, s := r / 1000, r % 1000;
    assert x == (60 * q + t) * 1000 + s;
  }

  /** The whole seconds a countdown shows. */
  function TotalSeconds(c: Countdown): int
  {
    c.days * 86400 + c.hours * 3600 + c.minutes * 60 + c.seconds
  }

  /** The countdown shows the whole seconds left, and never counts up as time passes. */
  lemma {:induction false} CountdownDecreases(deadline: int, now1: int, now2: int)
    requires now1 <= now2
    ensures !Compute(deadline, now1).isPast ==> TotalSeconds(Compute(deadline, now1)) == (deadline - now1) / MsPerSecond
    ensures TotalSeconds(Compute(deadline, now2)) <= TotalSeconds(Compute(deadline, now1))
    ensures Compute(deadline, now1).isPast ==> Compute(deadline, now2).isPast
  {
    var c1, c2 := Compute(deadline, now1), Compute(deadline, now2);
    if !c1.isPast {
      ShownSeconds(deadline - now1, c1);
    }
    if !c2.isPast {
      ShownSeconds(deadline - now2, c2);
      assert (deadline - now2) / MsPerSecond <= (deadline - now1) / MsPerSecond;
    }
  }

  lemma ShownSeconds(diff: int, c: Countdown)
    requires diff > 0
    requires c.days * MsPerDay + c.hours * MsPerHour + c.minutes * MsPerMinute + c.seconds * MsPerSecond
               == diff - diff % MsPerSecond
    ensures TotalSeconds(c) == diff / MsPerSecond
  {
    assert TotalSeconds(c) * MsPerSecond == diff - diff % MsPerSecond;
  }

  /** The countdown text: 'Submissions Locked', or the time left from its largest non-zero unit. */
  function TimeDisplay(c: Countdown): (s: string)
    ensures c.isPast ==> s == "Submissions Locked"
  {
    if c.isPast then "Submissions Locked" else Join(Shown(c), ' ')
  }

  /** The pieces of a running countdown's text: `${d}d ${h}h ${m}m ${s}s`, leading zero units dropped. */
  function Shown(c: Countdown): (r: seq<string>)
    ensures 2 <= |r| <= 4
  {
    var tail := [Amount(c.minutes, 'm'), Amount(c.seconds, 's')];
    if c.days > 0 then [Amount(c.days, 'd'), Amount(c.hours, 'h')] + tail
    else if c.hours > 0 then [Amount(c.hours, 'h')] + tail
    else tail
  }

  /** `${n}u`: a count followed by its unit letter. */
  function Amount(n: nat, u: char): (s: string)
    ensures |s| >= 2
  {
    NatToString(n) + [u]
  }

  // Reading a countdown text back: space-separated pieces, each digits and a unit letter.

  function UnitSeconds(u: char): Option<int>
  {
    if u == 'd' then Some(86400) else if u == 'h' then Some(3600)
    else if u == 'm' then Some(60) else if u == 's' then Some(1) else None
  }

  /** The seconds one piece stands for: a count in digits followed by a unit letter. */
  function PieceValue(p: string): Option<int>
  {
    if |p| < 2 || !AllDigits(p[..|p| - 1]) || UnitSeconds(p[|p| - 1]).None? then None
    else Some(DigitsValue(p[..|p| - 1]) * UnitSeconds(p[|p| - 1]).value)
  }

  function ReadPieces(pieces: seq<string>): Option<int>
  {
    if pieces == [] then Some(0)
    else
      var h := PieceValue(pieces[0]);
      var rest := ReadPieces(pieces[1..]);
      if h.None? || rest.None? then None else Some(h.value + rest.value)
  }

  /** The number of seconds a countdown text stands for, if it is one. */
  function ReadDisplay(s: string): Option<int>
  {
    ReadPieces(Split(s, ' '))
  }

  lemma NoSpace(n: nat, u: char)
    requires UnitSeconds(u).Some?
    ensures ' ' !in Amount(n, u)
  {
    var p := Amount(n, u);
    forall i | 0 <= i < |p|
      ensures p[i] != ' '
    {
      if i < |NatToString(n)| {
        assert IsDigit(NatToString(n)[i]);
      }
    }
  }

  /** The text of a running countdown reads back as exactly the seconds it counts. */
  lemma {:induction false} DisplayReadsBack(c: Countdown)
    requires !c.isPast
    ensures ReadDisplay(TimeDisplay(c)) == Some(TotalSeconds(c))
  {
    var r := Shown(c);
    NoSpace(c.days, 'd');
    NoSpace(c.hours, 'h');
    NoSpace(c.minutes, 'm');
    NoSpace(c.seconds, 's');
    SplitJoin(r, ' ');
    ShownReadsBack(c);
  }

  lemma ShownReadsBack(c: Countdown)
    ensures ReadPieces(Shown(c)) == Some(TotalSeconds(c))
  {
    AmountValue(c.minutes, 'm', 60);
    AmountValue(c.seconds, 's', 1);
    if c.days > 0 {
      ShownWithDays(c);
    } else if c.hours > 0 {
      ShownWithHours(c);
    } else {
      ReadTwo(Amount(c.minutes, 'm'), Amount(c.seconds, 's'), c.minutes * 60, c.seconds);
    }
  }

  lemma ShownWithDays(c: Countdown)
    requires c.days > 0
    ensures ReadPieces(Shown(c)) == Some(TotalSeconds(c))
  {
    var d, h, m, s := Amount(c.days, 'd'), Amount(c.hours, 'h'), Amount(c.minutes, 'm'), Amount(c.seconds, 's');
    AmountValue(c.days, 'd', 86400);
    AmountValue(c.hours, 'h', 3600);
    AmountValue(c.minutes, 'm', 60);
    AmountValue(c.seconds, 's', 1);
    assert Shown(c) == [d, h, m, s];
    ReadFour(d, h, m, s, c.days * 86400, c.hours * 3600, c.minutes * 60, c.seconds);
  }

  lemma ShownWithHours(c: Countdown)
    requires c.days == 0 && c.hours > 0
    ensures ReadPieces(Shown(c)) == Some(TotalSeconds(c))
  {
    var h, m, s := Amount(c.hours, 'h'), Amount(c.minutes, 'm'), Amount(c.seconds, 's');
    AmountValue(c.hours, 'h', 3600);
    AmountValue(c.minutes, 'm', 60);
    AmountValue(c.seconds, 's', 1);
    assert Shown(c) == [h, m, s];
    ReadThree(h, m, s, c.hours * 3600, c.minutes * 60, c.seconds);
  }

  /** Two, three or four pieces read back as the sum of what they stand for. */
  lemma ReadTwo(a: string, b: string, va: int, vb: int)
    requires PieceValue(a) == Some(va) && PieceValue(b) == Some(vb)
    ensures ReadPieces([a, b]) == Some(va + vb)
  {
    ReadFront(b, [], vb, 0);
    assert [b] + [] == [b];
    ReadFront(a, [b], va, vb);
    assert [a] + [b] == [a, b];
  }

  lemma ReadThree(a: string, b: string, c: string, va: int, vb: int, vc: int)
    requires PieceValue(a) == Some(va) && PieceValue(b) == Some(vb) && PieceValue(c) == Some(vc)
    ensures ReadPieces([a, b, c]) == Some(va + vb + vc)
  {
    ReadTwo(b, c, vb, vc);
    ReadFront(a, [b, c], va, vb + vc);
    assert [a] + [b, c] == [a, b, c];
  }

  lemma ReadFour(a: string, b: string, c: string, d: string, va: int, vb: int, vc: int, vd: int)
    requires PieceValue(a) == Some(va) && PieceValue(b) == Some(vb) && PieceValue(c) == Some(vc) && PieceValue(d) == Some(vd)
    ensures ReadPieces([a, b, c, d]) == Some(va + vb + vc + vd)
  {
    ReadThree(b, c, d, vb, vc, vd);
    ReadFront(a, [b, c, d], va, vb + vc + vd);
    assert [a] + [b, c, d] == [a, b, c, d];
  }

  /** A piece read in front of the rest. */
  lemma ReadFront(p: string, rest: seq<string>, vp: int, v: int)
    requires PieceValue(p) == Some(vp) && ReadPieces(rest) == Some(v)
    ensures ReadPieces([p] + rest) == Some(vp + v)
  {
    assert ([p] + rest)[0] == p;
    assert ([p] + rest)[1..] == rest;
  }

  /** `${n}u` stands for n times the seconds of its unit. */
  lemma AmountValue(n: nat, u: char, k: int)
    requires UnitSeconds(u) == Some(k)
    ensures PieceValue(Amount(n, u)) == Some(n * k)
  {
    var p := Amount(n, u);
    assert p[..|p| - 1] == NatToString(n);
    DigitsValueOfNatToString(n);
  }

  /** The text of compute's result reads back as the whole seconds left. */
  lemma ComputedDisplay(deadline: int, now: int)
    requires deadline > now
    ensures ReadDisplay(TimeDisplay(Compute(deadline, now))) == Some((deadline - now) / MsPerSecond)
  {
    var c := Compute(deadline, now);
    DisplayReadsBack(c);
    CountdownDecreases(deadline, now, now);
  }

  datatype Tone = Locked | Urgent | Calm

  /** The colour scheme of the box: destructive once past, amber when urgent, muted otherwise. */
  function ToneOf(c: Countdown): Tone
  {
    if c.isPast then Locked else if c.isUrgent then Urgent else Calm
  }

  /** Red once the deadline has come, amber in its last hour, and calm before that. */
  lemma ToneOfCompute(deadline: int, now: int)
    ensures ToneOf(Compute(deadline, now)) == Locked <==> now >= deadline
    ensures ToneOf(Compute(deadline, now)) == Urgent <==> deadline - MsPerHour < now < deadline
    ensures ToneOf(Compute(deadline, now)) == Calm <==> now <= deadline - MsPerHour
  {
  }

  /** The caption above the countdown; the locale rendering of the deadline is given. */
  function Caption(c: Countdown, deadlineLocal: string): (s: string)
    ensures c.isPast ==> s == "Submission Locked"
    ensures !c.isPast ==> s == "Deadline: " + deadlineLocal
  {
    if c.isPast then "Submission Locked" else "Deadline: " + deadlineLocal
  }

  /**
   * The default deadline as the component computes it: getNextSecondSaturday of dates.ts,
   * as written, then setUTCHours(10, 59, 0, 0).
   */
  function DefaultDeadline(now: int): Option<int>
  {
    SetUtcHours(Dates.GetNextSecondSaturdayAsWritten(now), 10, 59, 0, 0)
  }

  /** The default deadline over the corrected getNextSecondSaturday, which compares days. */
  function CorrectedDefaultDeadline(now: int): Option<int>
  {
    SetUtcHours(Dates.GetNextSecondSaturday(now), 10, 59, 0, 0)
  }

  /**
   * The deadline the component counts down to: the one it is given, else the default, which
   * for a date of the years 100 to 9998 always lies ahead of now.
   */
  function ResolvedDeadline(deadlineTimestamp: Option<int>, now: int): (r: Option<int>)
    ensures deadlineTimestamp.Some? ==> r == deadlineTimestamp
    ensures deadlineTimestamp.None? ==> r == DefaultDeadline(now)
    ensures deadlineTimestamp.None? && 100 <= UtcDate(now).year <= 9998 ==> r.Some? && now < r.value
  {
    if deadlineTimestamp.Some? then deadlineTimestamp
    else
      var r := DefaultDeadline(now);
      assert 100 <= UtcDate(now).year <= 9998 ==> r.Some? && now < r.value by {
        if 100 <= UtcDate(now).year <= 9998 {
          DefaultCountdownNeverLocked(now);
        }
      }
      r
  }

  /**
   * The default deadline as written: this month's submission deadline while now is no later
   * than midnight of its second Saturday, next month's from the first millisecond after.
   */
  lemma {:induction false} DefaultDeadlineIs(now: int)
    requires 100 <= UtcDate(now).year <= 9998
    ensures now <= Dates.SecondSaturdayMidnight(UtcDate(now).year, UtcDate(now).month) ==>
              DefaultDeadline(now) == Some(SecondSaturdayDeadline(UtcDate(now).year, UtcDate(now).month))
    ensures now > Dates.SecondSaturdayMidnight(UtcDate(now).year, UtcDate(now).month) ==>
              DefaultDeadline(now) == Some(SecondSaturdayDeadline(NextMonth(UtcDate(now).year, UtcDate(now).month).0,
                                                                  NextMonth(UtcDate(now).year, UtcDate(now).month).1))
  {
    var d := UtcDate(now);
    Dates.NextSecondSaturdayAsWrittenIs(now);
    var (ny, nm) := NextMonth(d.year, d.month);
    Dates.MidnightToDeadline(d.year, d.month);
    Dates.MidnightToDeadline(ny, nm);
  }

  /**
   * With no deadline given, the countdown as written is never locked: its deadline is
   * always still ahead, because on a second Saturday after midnight it has already moved
   * on to next month's.
   */
  lemma {:induction false} DefaultCountdownNeverLocked(now: int)
    requires 100 <= UtcDate(now).year <= 9998
    ensures DefaultDeadline(now).Some? && now < DefaultDeadline(now).value
    ensures !Compute(DefaultDeadline(now).value, now).isPast
  {
    var d := UtcDate(now);
    var mid := Dates.SecondSaturdayMidnight(d.year, d.month);
    DefaultDeadlineIs(now);
    if now <= mid {
      Dates.MidnightFacts(d.year, d.month);
      Dates.MidnightToDeadline(d.year, d.month);
      assert SecondSaturdayDeadline(d.year, d.month) == mid + MakeTime(10, 59, 0, 0);
    } else {
      var (ny, nm) := NextMonth(d.year, d.month);
      var t := SecondSaturdayDeadline(ny, nm);
      Dates.NextMonthLater(now);
      Dates.MidnightToDeadline(ny, nm);
      DayOfMakeDate(Day(Dates.SecondSaturdayMidnight(ny, nm)), MakeTime(10, 59, 0, 0));
      assert Day(t) == Day(Dates.SecondSaturdayMidnight(ny, nm));
      LaterDay(now, t);
    }
  }

  /** The corrected default: this month's deadline up to and including its second Saturday, next month's after it. */
  lemma {:induction false} CorrectedDefaultDeadlineIs(now: int)
    requires 100 <= UtcDate(now).year <= 9998
    ensures UtcDate(now).day <= SecondSaturdayOf(UtcDate(now).year, UtcDate(now).month) ==>
              CorrectedDefaultDeadline(now) == Some(SecondSaturdayDeadline(UtcDate(now).year, UtcDate(now).month))
    ensures UtcDate(now).day > SecondSaturdayOf(UtcDate(now).year, UtcDate(now).month) ==>
              CorrectedDefaultDeadline(now) ==
                Some(SecondSaturdayDeadline(NextMonth(UtcDate(now).year, UtcDate(now).month).0,
                                            NextMonth(UtcDate(now).year, UtcDate(now).month).1))
  {
    var d := UtcDate(now);
    Dates.NextSecondSaturdayIs(now);
    var (ny, nm) := NextMonth(d.year, d.month);
    Dates.MidnightToDeadline(d.year, d.month);
    Dates.MidnightToDeadline(ny, nm);
  }

  /**
   * With the corrected default, the countdown is locked exactly on a second Saturday from
   * 10:59 UTC to the end of that day; on every other day it is running.
   */
  lemma {:induction false} CorrectedCountdownLocked(now: int)
    requires 100 <= UtcDate(now).year <= 9998
    ensures CorrectedDefaultDeadline(now).Some?
    ensures Compute(CorrectedDefaultDeadline(now).value, now).isPast <==>
              OnSecondSaturday(now) && now % MsPerDay >= MakeTime(10, 59, 0, 0)
  {
    var d := UtcDate(now);
    var s := SecondSaturdayOf(d.year, d.month);
    CorrectedDefaultDeadlineIs(now);
    assert Day(now) == DayNumber(d);
    var (ny, nm) := NextMonth(d.year, d.month);
    if d.day <= s {
      var t := SecondSaturdayDeadline(d.year, d.month);
      DeadlineFacts(d.year, d.month);
      assert Day(t) == DayNumber(Date(d.year, d.month, s));
      if d.day < s {
        LaterDay(now, t);
      } else {
        SameDay(now, t);
      }
    } else {
      var t := SecondSaturdayDeadline(ny, nm);
      DeadlineFacts(ny, nm);
      Dates.BeforeNextMonth(d, SecondSaturdayOf(ny, nm));
      assert Day(t) == DayNumber(Date(ny, nm, SecondSaturdayOf(ny, nm)));
      LaterDay(now, t);
    }
  }

  /**
   * From 10:59 UTC on a second Saturday, the corrected countdown shows "Submission Locked",
   * while the countdown as written is still running, towards next month's deadline.
   */
  lemma {:induction false} AsWrittenNeverLocked(now: int)
    requires 100 <= UtcDate(now).year <= 9998
    requires OnSecondSaturday(now) && now % MsPerDay >= MakeTime(10, 59, 0, 0)
    ensures CorrectedDefaultDeadline(now).Some? && Compute(CorrectedDefaultDeadline(now).value, now).isPast
    ensures DefaultDeadline(now).Some? && !Compute(DefaultDeadline(now).value, now).isPast
  {
    CorrectedCountdownLocked(now);
    DefaultCountdownNeverLocked(now);
  }

  lemma LaterDay(t: int, u: int)
    requires Day(t) < Day(u)
    ensures t < u
  {
  }

  lemma SameDay(t: int, u: int)
    requires Day(t) == Day(u)
    ensures t >= u <==> t % MsPerDay >= u % MsPerDay
  {
  }
}
