/**
 * The admin's submission dashboard (src/components/AdminSubmissionDashboard.tsx): the
 * fallback deadline used until the backend's deadline has loaded, the cycle id derived from
 * the deadline, the reminders left for the cycle, and the two reminder handlers with the
 * sendingReminder state they set around the mutation.
 */
module AdminDashboard {
  import opened Wrappers
  import opened Calendar
  import opened Store
  import CycleIds
  import Crons
  import Dates

  /**
   * getDeadlineTimestamp(): this month's deadline (Date.UTC of the second Saturday at
   * 10:59), or, once now is past it, next month's, with month 11 + 1 rolling over to
   * January of the next year. The deadline of a month is computed as the lock job computes
   * it from a cycle id, Crons.CycleDeadlineOf of the year and the month counted from 1;
   * None is NaN. A NaN deadline is not passed, so it is returned as it is.
   */
  function GetDeadlineTimestamp(now: int): Option<int>
  {
    var d := UtcDate(now);
    DeadlineFrom(now, d.year, d.month - 1)
  }

  /** getDeadlineTimestamp once now.getUTCFullYear() and now.getUTCMonth() are read. */
  function DeadlineFrom(now: int, year: int, month: int): Option<int>
  {
    var deadline := Crons.CycleDeadlineOf((Some(year), Some(month + 1)));
    if deadline.Some? && now > deadline.value then
      var (nextYear, adjMonth) := Rollover(year, month);
      Crons.CycleDeadlineOf((Some(nextYear), Some(adjMonth + 1)))
    else deadline
  }

  /** The year and zero-based month after month (0..11) of year: month 11 + 1 is January of the next year. */
  function Rollover(year: int, month: int): (int, int)
  {
    var nextMonth := month + 1;
    var nextYear := if nextMonth > 11 then year + 1 else year;
    var adjMonth := if nextMonth > 11 then 0 else nextMonth;
    (nextYear, adjMonth)
  }

  /**
   * For a date of the years 100 to 9998, the fallback is this month's deadline up to and
   * including its moment, and next month's deadline after it.
   */
  lemma {:induction false} GetDeadlineTimestampIs(now: int)
    requires 100 <= UtcDate(now).year <= 9998
    ensures var d := UtcDate(now);
            now <= SecondSaturdayDeadline(d.year, d.month) ==>
              GetDeadlineTimestamp(now) == Some(SecondSaturdayDeadline(d.year, d.month))
    ensures var d := UtcDate(now);
            now > SecondSaturdayDeadline(d.year, d.month) ==>
              GetDeadlineTimestamp(now) == Some(SecondSaturdayDeadline(NextMonth(d.year, d.month).0, NextMonth(d.year, d.month).1))
  {
    var d := UtcDate(now);
    var (ny, nm) := NextMonth(d.year, d.month);
    DeadlineChoice(now, d);
    Crons.CycleDeadlineOfParts(d.year, d.month);
    Crons.CycleDeadlineOfParts(ny, nm);
  }

  /** The rollover of getDeadlineTimestamp is NextMonth. */
  lemma DeadlineChoice(now: int, d: Date)
    requires d == UtcDate(now)
    ensures 1 <= d.month <= 12
    ensures var dl := Crons.CycleDeadlineOf((Some(d.year), Some(d.month)));
            GetDeadlineTimestamp(now) ==
              if dl.Some? && now > dl.value
              then Crons.CycleDeadlineOf((Some(NextMonth(d.year, d.month).0), Some(NextMonth(d.year, d.month).1)))
              else dl
  {
    assert GetDeadlineTimestamp(now) == DeadlineFrom(now, d.year, d.month - 1);
    RolloverIsNextMonth(now, d.year, d.month);
  }

  lemma RolloverIsNextMonth(now: int, year: int, month: int)
    requires 1 <= month <= 12
    ensures var dl := Crons.CycleDeadlineOf((Some(year), Some(month)));
            DeadlineFrom(now, year, month - 1) ==
              if dl.Some? && now > dl.value
              then Crons.CycleDeadlineOf((Some(NextMonth(year, month).0), Some(NextMonth(year, month).1)))
              else dl
  {
    RolloverNext(year, month - 1);
  }

  lemma RolloverNext(year: int, month: int)
    requires 0 <= month <= 11
    ensures (Rollover(year, month).0, Rollover(year, month).1 + 1) == NextMonth(year, month + 1)
  {
  }

  /**
   * The fallback deadline is never in the past: it is at or after now, on a second
   * Saturday at 10:59 UTC.
   */
  lemma {:induction false} FallbackNotPast(now: int)
    requires 100 <= UtcDate(now).year <= 9998
    ensures GetDeadlineTimestamp(now).Some?
    ensures now <= GetDeadlineTimestamp(now).value
    ensures OnSecondSaturday(GetDeadlineTimestamp(now).value)
    ensures GetDeadlineTimestamp(now).value % MsPerDay == MakeTime(10, 59, 0, 0)
  {
    var d := UtcDate(now);
    var (ny, nm) := NextMonth(d.year, d.month);
    GetDeadlineTimestampIs(now);
    DeadlineFacts(d.year, d.month);
    DeadlineFacts(ny, nm);
    if now > SecondSaturdayDeadline(d.year, d.month) {
      NextDeadlineLater(now, d, ny, nm);
    }
  }

  /** Next month's deadline falls on a later day than now. */
  lemma NextDeadlineLater(now: int, d: Date, ny: int, nm: int)
    requires d == UtcDate(now) && (ny, nm) == NextMonth(d.year, d.month)
    ensures now < SecondSaturdayDeadline(ny, nm)
  {
    var t := SecondSaturdayDeadline(ny, nm);
    DeadlineFacts(ny, nm);
    Dates.BeforeNextMonth(d, SecondSaturdayOf(ny, nm));
    assert Day(now) == DayNumber(d);
    assert Day(now) < Day(t);
  }

  /** deadlineTimestamp: the backend's deadline once loaded, otherwise the fallback. */
  function DeadlineTimestamp(backend: Option<int>, now: int): Option<int>
  {
    if backend.Some? then backend else GetDeadlineTimestamp(now)
  }

  /** The cycle id derived from the deadline: `${y}-${MM}` of its UTC date; a NaN date gives "NaN-NaN". */
  function DashboardCycleId(deadline: Option<int>): string
  {
    if deadline.Some? then CycleIds.CycleIdAt(deadline.value) else "NaN-NaN"
  }

  /**
   * The cycle the dashboard asks about is the cycle of its deadline: the lock job computes,
   * from that cycle id, the very deadline the dashboard shows.
   */
  lemma {:induction false} CycleOfFallback(now: int)
    requires 100 <= UtcDate(now).year <= 9998
    ensures Crons.CycleDeadline(DashboardCycleId(DeadlineTimestamp(None, now))) == GetDeadlineTimestamp(now)
  {
    var d := UtcDate(now);
    var (ny, nm) := NextMonth(d.year, d.month);
    GetDeadlineTimestampIs(now);
    if now <= SecondSaturdayDeadline(d.year, d.month) {
      CycleOfDeadline(d.year, d.month);
    } else {
      CycleOfDeadline(ny, nm);
    }
  }

  /** The cycle id of a month's deadline names that month, and its deadline is that deadline. */
  lemma CycleOfDeadline(year: int, month: int)
    requires 100 <= year <= 9999 && 1 <= month <= 12
    ensures CycleIds.CycleIdAt(SecondSaturdayDeadline(year, month)) == CycleIds.Format(year, month)
    ensures Crons.CycleDeadline(CycleIds.CycleIdAt(SecondSaturdayDeadline(year, month))) == Some(SecondSaturdayDeadline(year, month))
  {
    DeadlineFacts(year, month);
    Crons.CycleDeadlineOfMonth(year, month);
  }

  /** remindersRemaining: 3 less the reminders used, which count as 0 until loaded. */
  function RemindersRemaining(reminderCount: Option<int>): (r: int)
    ensures reminderCount.None? ==> r == 3
    ensures reminderCount.Some? ==> r + reminderCount.value == 3
  {
    3 - (if reminderCount.Some? then reminderCount.value else 0)
  }

  /** What sendingReminder holds while a send is in flight: a member's user id, or 'bulk'. */
  datatype Sending = ToMember(userId: Id) | Bulk

  /** A call of one of the two reminder mutations. */
  datatype ReminderCall = SendAdminReminder(circleId: Id, targetUserId: Id, cycleId: string)
                        | SendBulkAdminReminder(circleId: Id, cycleId: string)

  /** A member's row: the status badge decides whether it has a reminder button. */
  datatype MemberStatus = Submitted | InProgress | NotStarted
  datatype MemberRow = MemberRow(userId: Id, status: MemberStatus)

  /** The user ids of the rows, top to bottom. */
  function UserIds(members: seq<MemberRow>): (r: seq<Id>)
    ensures |r| == |members| && forall i :: 0 <= i < |r| ==> r[i] == members[i].userId
  {
    seq(|members|, i requires 0 <= i < |members| => members[i].userId)
  }

  /** a is b with some entries taken out, the rest kept in their order. */
  predicate Subsequence(a: seq<Id>, b: seq<Id>)
  {
    if a == [] then true
    else if b == [] then false
    else (a[0] == b[0] && Subsequence(a[1..], b[1..])) || Subsequence(a, b[1..])
  }

  /** The user ids of the rows that show a reminder button: those not submitted, in row order. */
  function ReminderButtons(members: seq<MemberRow>): (r: seq<Id>)
    ensures forall x :: x in r <==> exists i :: 0 <= i < |members| && members[i].userId == x && members[i].status != Submitted
    ensures |r| <= |members|
    ensures Subsequence(r, UserIds(members))
  {
    if members == [] then []
    else
      var rest := ReminderButtons(members[1..]);
      assert forall i :: 1 <= i < |members| ==> members[i] == members[1..][i - 1];
      assert UserIds(members)[1..] == UserIds(members[1..]);
      if members[0].status != Submitted then
        assert ([members[0].userId] + rest)[1..] == rest;
        [members[0].userId] + rest
      else rest
  }

  /** The dashboard's reminder state: sendingReminder, and the mutation calls issued so far. */
  class ReminderPanel {
    const circleId: Id
    var sending: Option<Sending>
    var calls: seq<ReminderCall>

    constructor (circleId: Id)
      ensures this.circleId == circleId && sending == None && calls == []
    {
      this.circleId := circleId;
      sending := None;
      calls := [];
    }

    /** Both kinds of reminder button are disabled with no reminder left or while a send is in flight. */
    predicate Disabled(remaining: int)
      reads this
    {
      remaining <= 0 || sending.Some?
    }

    /**
     * handleSendReminder(target), up to its await: nothing with no reminder left; otherwise
     * sendingReminder names the target and the mutation is called once.
     */
    method HandleSendReminder(target: Id, cycleId: string, remaining: int)
      modifies this`sending, this`calls
      ensures remaining <= 0 ==> sending == old(sending) && calls == old(calls)
      ensures remaining > 0 ==> sending == Some(ToMember(target)) &&
                                calls == old(calls) + [SendAdminReminder(circleId, target, cycleId)]
    {
      if remaining <= 0 {
        return;
      }
      sending := Some(ToMember(target));
      calls := calls + [SendAdminReminder(circleId, target, cycleId)];
    }

    /** handleBulkReminder(), up to its await: the same guard, then one bulk call. */
    method HandleBulkReminder(cycleId: string, remaining: int)
      modifies this`sending, this`calls
      ensures remaining <= 0 ==> sending == old(sending) && calls == old(calls)
      ensures remaining > 0 ==> sending == Some(Bulk) && calls == old(calls) + [SendBulkAdminReminder(circleId, cycleId)]
    {
      if remaining <= 0 {
        return;
      }
      sending := Some(Bulk);
      calls := calls + [SendBulkAdminReminder(circleId, cycleId)];
    }

    /** The finally block after the mutation settles, whether it succeeded or failed. */
    method Settle()
      modifies this`sending
      ensures sending == None
    {
      sending := None;
    }
  }

  /**
   * Clicking a button that is enabled, then waiting for the mutation to settle, issues
   * exactly one call; while it is in flight every reminder button is disabled.
   */
  method ClickAndSettle(panel: ReminderPanel, target: Id, cycleId: string, remaining: int)
    requires !panel.Disabled(remaining)
    modifies panel
    ensures panel.calls == old(panel.calls) + [SendAdminReminder(panel.circleId, target, cycleId)]
    ensures panel.sending == None && !panel.Disabled(remaining)
  {
    panel.HandleSendReminder(target, cycleId, remaining);
    assert panel.Disabled(remaining);
    panel.Settle();
  }
}
