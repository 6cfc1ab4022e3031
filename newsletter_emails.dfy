/**
 * The newsletter senders (convex/newsletterEmails.ts): the Saturday cron handler that, on
 * the second Saturday of the month, compiles each active circle's newsletter and schedules
 * either the newsletter or the missed-month email; the newsletter send loop that records how
 * many emails went out; and the labels the emails carry.
 *
 * Sending, rendering and the compile mutation are outside the model: whether one email
 * was accepted and what compileNewsletter returned for a circle are inputs.
 */
module NewsletterEmails {
  import opened Wrappers
  import opened Text
  import opened Calendar
  import opened Store
  import CycleIds
  import Crons
  import opened NewsletterHelpers

  // ---------------------------------------------------------------------------------
  // Labels

  const MonthNames: seq<string> := [
    "January", "February", "March", "April", "May", "June",
    "July", "August", "September", "October", "November", "December"]

  /** `${monthNames[i]}` for a zero-based index: outside 0..11, or NaN, it prints "undefined". */
  function MonthLabel(i: Option<int>): string
  {
    if i.Some? && 0 <= i.value < 12 then MonthNames[i.value] else "undefined"
  }

  /** `${n}` for a number that may be NaN. */
  function NumberText(n: Option<int>): string
  {
    if n.Some? then IntToString(n.value) else "NaN"
  }

  /** The issue date of the newsletter email: `${monthNames[parseInt(month) - 1]} ${year}`, year as written. */
  function IssueDate(cycleId: string): string
  {
    IssueDateOf(Split(cycleId, '-'))
  }

  function IssueDateOf(parts: seq<string>): string
    requires |parts| >= 1
  {
    var month := if |parts| >= 2 then ParseInt(parts[1]) else None;
    MonthLabel(if month.Some? then Some(month.value - 1) else None) + " " + parts[0]
  }

  /** The issue date of a month's cycle is the month's name and the year. */
  lemma IssueDateOfMonth(year: nat, month: nat)
    requires 1 <= month <= 12
    ensures IssueDate(CycleIds.Format(year, month)) == MonthNames[month - 1] + " " + NatToString(year)
  {
    CycleIds.SplitFormat(year, month);
    IssueDateOfParts(year, month);
  }

  lemma IssueDateOfParts(year: nat, month: nat)
    requires 1 <= month <= 12
    ensures IssueDateOf([NatToString(year), PadStart2(NatToString(month))]) == MonthNames[month - 1] + " " + NatToString(year)
  {
    CycleIds.PaddedMonthValue(month);
    IssueDateOfPair(NatToString(year), PadStart2(NatToString(month)), month);
  }

  /** The issue date of a year part and a month part that parses to month. */
  lemma IssueDateOfPair(y: string, ms: string, month: int)
    requires 1 <= month <= 12 && AllDigits(ms) && ms != [] && DigitsValue(ms) == month
    ensures IssueDateOf([y, ms]) == MonthNames[month - 1] + " " + y
  {
    assert ParseInt(ms) == Some(month);
  }

  /** The subject of the newsletter email: `${circleName} - Issue #${issueNumber}`. */
  function Subject(circleName: string, issueNumber: int): string
  {
    circleName + " - Issue #" + IntToString(issueNumber)
  }

  /** The subject starts with the circle's name and ends with the issue number in decimal. */
  lemma SubjectNamesIssue(circleName: string, issueNumber: nat)
    ensures var s := Subject(circleName, issueNumber);
            s[..|circleName|] == circleName && s[|circleName|..|circleName| + 10] == " - Issue #" &&
            AllDigits(s[|circleName| + 10..]) && DigitsValue(s[|circleName| + 10..]) == issueNumber
  {
    var s := Subject(circleName, issueNumber);
    assert s[|circleName| + 10..] == NatToString(issueNumber);
    DigitsValueOfNatToString(issueNumber);
  }

  function MissedMonthSubject(circleName: string): string
  {
    "No submissions this month for " + circleName
  }

  /**
   * The next deadline of the missed-month email: the cycle's year and month are read with
   * parseInt, the month after it is taken (December rolls over to January of the next year),
   * and the second Saturday of that month is found from the UTC weekday of its first day;
   * the label is `${monthNames[nextMonth]} ${day}, ${nextYear}`. A part that is NaN carries
   * through as NaN.
   */
  function NextDeadlineLabel(cycleId: string): string
  {
    var (y, m) := CycleIds.ParseParts(cycleId);
    NextDeadlineLabelOf(y, m)
  }

  function NextDeadlineLabelOf(y: Option<int>, m: Option<int>): string
  {
    var month0 := if m.Some? then Some(m.value - 1) else None;
    var nextMonth := if month0.Some? then Some(if month0.value == 11 then 0 else month0.value + 1) else None;
    var nextYear := if y.Some? then Some(if month0 == Some(11) then y.value + 1 else y.value) else None;
    DeadlineLabel(nextYear, nextMonth)
  }

  /** The label of the second Saturday of a zero-based month, found from the UTC weekday of its first day. */
  function DeadlineLabel(nextYear: Option<int>, nextMonth: Option<int>): string
  {
    var first := if nextYear.Some? && nextMonth.Some? then UtcTime(nextYear.value, nextMonth.value, 1, 0, 0, 0) else None;
    var day := if first.Some? then Some(SecondSaturdayDay(UtcWeekday(first.value))) else None;
    MonthLabel(nextMonth) + " " + NumberText(day) + ", " + NumberText(nextYear)
  }

  /**
   * For the cycle of a month, the next deadline named is the second Saturday of the month
   * after it, December rolling over to January of the next year.
   */
  lemma NextDeadlineOfMonth(year: int, month: int)
    requires 100 <= year < 9999 && 1 <= month <= 12
    ensures NextDeadlineLabel(CycleIds.Format(year, month)) ==
              MonthNames[NextMonth(year, month).1 - 1] + " " +
              NatToString(SecondSaturdayOf(NextMonth(year, month).0, NextMonth(year, month).1)) + ", " +
              NatToString(NextMonth(year, month).0)
  {
    CycleIds.ParseFormat(year, month);
    NextDeadlineOfParts(year, month);
  }

  lemma NextDeadlineOfParts(year: int, month: int)
    requires 100 <= year < 9999 && 1 <= month <= 12
    ensures NextDeadlineLabelOf(Some(year), Some(month)) ==
              MonthNames[NextMonth(year, month).1 - 1] + " " +
              NatToString(SecondSaturdayOf(NextMonth(year, month).0, NextMonth(year, month).1)) + ", " +
              NatToString(NextMonth(year, month).0)
  {
    var (ny, nm) := NextMonth(year, month);
    var first := FirstOfMonth(ny, nm);
    LabelOfMonth(year, month, ny, nm, first, SecondSaturdayOf(ny, nm));
  }

  /** With both parts present, the label names the following month, its second-Saturday day and its year. */
  lemma LabelOfMonth(year: int, month: int, ny: int, nm: int, first: int, day: int)
    requires 1 <= month <= 12 && (ny, nm) == NextMonth(year, month) && 0 <= ny && 0 <= day
    requires UtcTime(ny, nm - 1, 1, 0, 0, 0) == Some(first)
    requires SecondSaturdayDay(UtcWeekday(first)) == day
    ensures NextDeadlineLabelOf(Some(year), Some(month)) == MonthNames[nm - 1] + " " + NatToString(day) + ", " + NatToString(ny)
  {
    NextLabelIsDeadline(year, month);
    DeadlineLabelOf(ny, nm - 1, first, day);
  }

  /** With both parts present, the label is the deadline label of the following month. */
  lemma NextLabelIsDeadline(year: int, month: int)
    requires 1 <= month <= 12
    ensures NextDeadlineLabelOf(Some(year), Some(month)) ==
              DeadlineLabel(Some(NextMonth(year, month).0), Some(NextMonth(year, month).1 - 1))
  {
  }

  /** The label of a month whose first day is known. */
  lemma DeadlineLabelOf(ny: int, m0: int, first: int, day: int)
    requires 0 <= m0 < 12 && 0 <= ny && 0 <= day
    requires UtcTime(ny, m0, 1, 0, 0, 0) == Some(first)
    requires SecondSaturdayDay(UtcWeekday(first)) == day
    ensures DeadlineLabel(Some(ny), Some(m0)) == MonthNames[m0] + " " + NatToString(day) + ", " + NatToString(ny)
  {
    MonthLabelIn(m0);
    assert NumberText(Some(day)) == NatToString(day);
    assert NumberText(Some(ny)) == NatToString(ny);
  }

  lemma MonthLabelIn(i: int)
    requires 0 <= i < 12
    ensures MonthLabel(Some(i)) == MonthNames[i]
  {
  }

  // ---------------------------------------------------------------------------------
  // Sending the newsletter

  /** The number of the first n sends that were accepted; delivered(i) tells whether send i was. */
  function SentCount(n: nat, delivered: nat -> bool): nat
  {
    if n == 0 then 0 else SentCount(n - 1, delivered) + (if delivered(n - 1) then 1 else 0)
  }

  /** No more emails are counted than were sent, and all of them exactly when every send was accepted. */
  lemma {:induction false} SentCountBounds(n: nat, delivered: nat -> bool)
    ensures SentCount(n, delivered) <= n
    ensures SentCount(n, delivered) == n <==> forall i :: 0 <= i < n ==> delivered(i)
  {
    if n > 0 {
      SentCountBounds(n - 1, delivered);
    }
  }

  function Emails(rs: seq<Recipient>): (r: seq<string>)
    ensures |r| == |rs| && forall i :: 0 <= i < |rs| ==> r[i] == rs[i].email
  {
    seq(|rs|, i requires 0 <= i < |rs| => rs[i].email)
  }

  /** One newsletter send: the subject and date it carried, the addresses tried and how many were accepted. */
  datatype NewsletterMail = NewsletterMail(subject: string, date: string, to: seq<string>, sentCount: nat)

  /** The mail sendNewsletter sends for a newsletter and its send data. */
  function MailOf(n: Newsletter, d: SendData, delivered: nat -> bool): NewsletterMail
  {
    NewsletterMail(Subject(d.circleName, n.issueNumber), IssueDate(n.cycleId), Emails(d.recipients),
                   SentCount(|d.recipients|, delivered))
  }

  /**
   * sendNewsletter: reads the newsletter's send data (a missing newsletter or circle is an
   * error and nothing changes), sends one email per recipient counting the accepted ones,
   * and records that count as the newsletter's recipientCount.
   */
  method SendNewsletter(db: Database, newsletterId: Id, delivered: nat -> bool) returns (r: Result<NewsletterMail>)
    requires db.Valid()
    modifies db`newsletters
    ensures db.Valid()
    ensures newsletterId !in old(db.newsletters) ==>
              r == Err(NewsletterNotFound) && db.newsletters == old(db.newsletters)
    ensures newsletterId in old(db.newsletters) && old(db.newsletters)[newsletterId].circleId !in db.circles ==>
              r == Err(CircleNotFound) && db.newsletters == old(db.newsletters)
    ensures newsletterId in old(db.newsletters) && old(db.newsletters)[newsletterId].circleId in db.circles ==>
              var n := old(db.newsletters)[newsletterId];
              var d := CircleData(db.circles, db.users, db.memberships, db.nextId, n.circleId);
              r == Ok(MailOf(n, d, delivered)) &&
              db.newsletters == old(db.newsletters)[newsletterId := n.(recipientCount := Some(r.value.sentCount))]
  {
    var data := GetNewsletterSendData(db, newsletterId);
    if data.Err? {
      return Err(data.msg);
    }
    var mail := Deliver(db, newsletterId, data.value.0, data.value.1, delivered);
    r := Ok(mail);
  }

  /** The sending half of sendNewsletter, once the send data of an existing newsletter is read. */
  method Deliver(db: Database, newsletterId: Id, n: Newsletter, d: SendData, delivered: nat -> bool)
    returns (mail: NewsletterMail)
    requires db.Valid() && newsletterId in db.newsletters && db.newsletters[newsletterId] == n
    modifies db`newsletters
    ensures db.Valid()
    ensures mail == MailOf(n, d, delivered)
    ensures db.newsletters == old(db.newsletters)[newsletterId := n.(recipientCount := Some(mail.sentCount))]
  {
    var date := IssueDate(n.cycleId);
    var subject := Subject(d.circleName, n.issueNumber);
    var sentCount := CountSent(|d.recipients|, delivered);
    var _ := UpdateRecipientCount(db, newsletterId, sentCount);
    mail := NewsletterMail(subject, date, Emails(d.recipients), sentCount);
  }

  /** The send loop: sentCount goes up by one for every send that was accepted. */
  method CountSent(n: nat, delivered: nat -> bool) returns (sentCount: nat)
    ensures sentCount == SentCount(n, delivered)
  {
    sentCount := 0;
    for i := 0 to n
      invariant sentCount == SentCount(i, delivered)
    {
      if delivered(i) {
        sentCount := sentCount + 1;
      }
    }
  }

  /** The recorded recipient count never exceeds the number of recipients of the circle. */
  lemma RecipientCountAtMostRecipients(n: Newsletter, d: SendData, delivered: nat -> bool)
    ensures MailOf(n, d, delivered).sentCount <= |d.recipients| == |MailOf(n, d, delivered).to|
  {
    SentCountBounds(|d.recipients|, delivered);
  }

  // ---------------------------------------------------------------------------------
  // The missed-month email

  datatype MissedMonthMail = MissedMonthMail(subject: string, nextDeadline: string, to: seq<string>)

  /**
   * sendMissedMonthEmail: reads the circle's send data (a missing circle is an error) and
   * sends every recipient the missed-month email naming the next deadline.
   */
  method SendMissedMonthEmail(db: Database, circleId: Id, cycleId: string) returns (r: Result<MissedMonthMail>)
    requires db.Valid()
    ensures circleId !in db.circles ==> r == Err(CircleNotFound)
    ensures circleId in db.circles ==>
              var d := CircleData(db.circles, db.users, db.memberships, db.nextId, circleId);
              r == Ok(MissedMonthMail(MissedMonthSubject(d.circleName), NextDeadlineLabel(cycleId), Emails(d.recipients)))
  {
    var data := GetCircleSendData(db, circleId);
    if data.Err? {
      return Err(data.msg);
    }
    var d := data.value;
    r := Ok(MissedMonthMail(MissedMonthSubject(d.circleName), NextDeadlineLabel(cycleId), Emails(d.recipients)));
  }

  // ---------------------------------------------------------------------------------
  // processNewsletters

  /** isSecondSaturday: the UTC weekday is Saturday and the UTC day of the month is 8..14. */
  predicate IsSecondSaturday(now: int)
  {
    UtcWeekday(now) == Saturday && 8 <= UtcDate(now).day <= 14
  }

  /** The test holds exactly on the second Saturday of the UTC month. */
  lemma IsSecondSaturdayIff(now: int)
    ensures IsSecondSaturday(now) <==> OnSecondSaturday(now)
  {
    SaturdayInSecondWeekIff(now);
  }

  /**
   * The processing runs at 11:00 UTC or later on a second Saturday: by then the deadline of
   * the cycle it names has passed, so the lock job of 10:59 has already locked that cycle.
   */
  lemma ProcessingFollowsDeadline(now: int)
    requires IsSecondSaturday(now) && 100 <= UtcDate(now).year <= 9999
    requires now % MsPerDay >= MakeTime(11, 0, 0, 0)
    ensures Crons.CycleDeadline(CycleIds.CycleIdAt(now)).Some?
    ensures Crons.CycleDeadline(CycleIds.CycleIdAt(now)).value < now
  {
    var d := UtcDate(now);
    IsSecondSaturdayIff(now);
    Crons.CycleDeadlineOfMonth(d.year, d.month);
    var deadline := SecondSaturdayDeadline(d.year, d.month);
    DeadlineFacts(d.year, d.month);
    assert UtcDate(deadline) == d;
    assert Day(deadline) == Day(now) by {
      assert DayNumber(UtcDate(deadline)) == Day(deadline);
      assert DayNumber(d) == Day(now);
    }
  }

  /** What compileNewsletter did for a circle: it threw, found no submissions, or compiled a newsletter. */
  datatype CompileResult = CompileFailed | MissedMonth | Compiled(newsletterId: Id)

  /** The work processNewsletters schedules. */
  datatype Job = MissedMonthEmail(circleId: Id, cycleId: string) | SendNewsletterJob(newsletterId: Id)

  /** The job scheduled for one circle: none when compiling threw, else the one missedMonth chooses. */
  function JobFor(r: CompileResult, circleId: Id, cycleId: string): seq<Job>
  {
    match r
    case CompileFailed => []
    case MissedMonth => [MissedMonthEmail(circleId, cycleId)]
    case Compiled(n) => [SendNewsletterJob(n)]
  }

  /** The jobs scheduled for the circles cs, in their order. */
  function ScheduledJobs(cs: seq<Id>, compile: Id -> CompileResult, cycleId: string): seq<Job>
  {
    if cs == [] then []
    else ScheduledJobs(cs[..|cs| - 1], compile, cycleId) + JobFor(compile(cs[|cs| - 1]), cs[|cs| - 1], cycleId)
  }

  /**
   * Each circle gets exactly the job its own compile result chooses, whatever happened to the
   * other circles: a missed-month email when it found no submissions, the newsletter send
   * when it compiled one, and nothing when it threw; so there are at most as many jobs as
   * circles, and as many when no compile threw.
   */
  lemma {:induction false} ScheduledJobsFacts(cs: seq<Id>, compile: Id -> CompileResult, cycleId: string)
    ensures |ScheduledJobs(cs, compile, cycleId)| <= |cs|
    ensures (forall i :: 0 <= i < |cs| ==> compile(cs[i]) != CompileFailed) ==> |ScheduledJobs(cs, compile, cycleId)| == |cs|
    ensures forall c :: MissedMonthEmail(c, cycleId) in ScheduledJobs(cs, compile, cycleId) <==>
              c in cs && compile(c) == MissedMonth
    ensures forall n :: SendNewsletterJob(n) in ScheduledJobs(cs, compile, cycleId) <==>
              exists c :: c in cs && compile(c) == Compiled(n)
    ensures forall j :: j in ScheduledJobs(cs, compile, cycleId) && j.MissedMonthEmail? ==> j.cycleId == cycleId
    decreases |cs|
  {
    if cs != [] {
      var init := cs[..|cs| - 1];
      var last := cs[|cs| - 1];
      ScheduledJobsFacts(init, compile, cycleId);
      assert cs == init + [last];
      assert forall c :: c in cs <==> c in init || c == last;
      if forall i :: 0 <= i < |cs| ==> compile(cs[i]) != CompileFailed {
        assert forall i :: 0 <= i < |init| ==> compile(init[i]) != CompileFailed by {
          forall i | 0 <= i < |init| ensures compile(init[i]) != CompileFailed {
            assert init[i] == cs[i];
          }
        }
        assert compile(cs[|cs| - 1]) != CompileFailed;
      }
    }
  }

  /**
   * processNewsletters: nothing unless now is a second Saturday; then the cycle is the UTC
   * month of now and every active circle, in scan order, is compiled and gets its job.
   */
  method ProcessNewsletters(db: Database, now: int, compile: Id -> CompileResult) returns (jobs: seq<Job>)
    requires db.Valid()
    ensures !IsSecondSaturday(now) ==> jobs == []
    ensures IsSecondSaturday(now) ==>
              jobs == ScheduledJobs(ActiveCircles(db.circles, db.nextId), compile, CycleIds.CycleIdAt(now))
  {
    if !IsSecondSaturday(now) {
      return [];
    }
    var cycleId := CycleIds.CycleIdAt(now);
    var circles := ActiveCircles(db.circles, db.nextId);
    jobs := ScheduleEach(circles, compile, cycleId);
  }

  /** The loop of processNewsletters over the active circles. */
  method ScheduleEach(circles: seq<Id>, compile: Id -> CompileResult, cycleId: string) returns (jobs: seq<Job>)
    ensures jobs == ScheduledJobs(circles, compile, cycleId)
  {
    jobs := [];
    for i := 0 to |circles|
      invariant jobs == ScheduledJobs(circles[..i], compile, cycleId)
    {
      PrefixSnoc(circles, i);
      ScheduledJobsSnoc(circles[..i], circles[i], compile, cycleId);
      var result := compile(circles[i]);
      match result
      case CompileFailed =>
      case MissedMonth =>
        jobs := jobs + [MissedMonthEmail(circles[i], cycleId)];
      case Compiled(n) =>
        jobs := jobs + [SendNewsletterJob(n)];
    }
    PrefixFull(circles);
  }

  lemma ScheduledJobsSnoc(cs: seq<Id>, c: Id, compile: Id -> CompileResult, cycleId: string)
    ensures ScheduledJobs(cs + [c], compile, cycleId) == ScheduledJobs(cs, compile, cycleId) + JobFor(compile(c), c, cycleId)
  {
    var cs' := cs + [c];
    assert cs' != [] && cs'[..|cs'| - 1] == cs && cs'[|cs'| - 1] == c;
  }
}
