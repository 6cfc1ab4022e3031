/**
 * The scheduled jobs: every Saturday at 10:59 UTC the lock job locks each submission whose
 * cycle's deadline has passed; at 11:00 UTC on Saturdays the newsletters are processed, and
 * on Wednesdays at 11:00 UTC the submission reminders go out.
 */
module Crons {
  import opened Wrappers
  import opened Calendar
  import opened Store
  import CycleIds
  import Submissions

  // ---------------------------------------------------------------------------------
  // The deadline of a cycle, as the lock job derives it

  /**
   * The deadline the lock job computes for a cycle id: the id is split at '-', both parts
   * read with parseInt, the weekday of the first of the month found with Date.UTC and
   * getUTCDay, and the deadline is Date.UTC(year, month - 1, secondSaturday, 10, 59, 0).
   * None is NaN: a part that does not read as a number, or a date out of range.
   */
  function CycleDeadline(cycleId: string): Option<int>
  {
    CycleDeadlineOf(CycleIds.ParseParts(cycleId))
  }

  /** The deadline computed from the two parts of a cycle id, once read. */
  function CycleDeadlineOf(parts: (Option<int>, Option<int>)): Option<int>
  {
    var (y, m) := parts;
    if y.None? || m.None? then None
    else
      var first := UtcTime(y.value, m.value - 1, 1, 0, 0, 0);
      if first.None? then None
      else UtcTime(y.value, m.value - 1, SecondSaturdayDay(UtcWeekday(first.value)), 10, 59, 0)
  }

  /** For the id of a month from the year 100 on, the lock job's deadline is that month's deadline. */
  lemma CycleDeadlineOfMonth(year: int, month: int)
    requires 100 <= year <= 9999 && 1 <= month <= 12
    ensures CycleDeadline(CycleIds.Format(year, month)) == Some(SecondSaturdayDeadline(year, month))
  {
    CycleIds.ParseFormat(year, month);
    CycleDeadlineOfParts(year, month);
  }

  lemma CycleDeadlineOfParts(year: int, month: int)
    requires 100 <= year <= 9999 && 1 <= month <= 12
    ensures CycleDeadlineOf((Some(year), Some(month))) == Some(SecondSaturdayDeadline(year, month))
  {
    FirstOfMonthWeekday(year, month);
    DeadlineUtc(year, month);
  }

  /** Date.UTC gives the first of the month, and its weekday places the second Saturday. */
  lemma FirstOfMonthWeekday(year: int, month: int)
    requires 100 <= year <= 9999 && 1 <= month <= 12
    ensures UtcTime(year, month - 1, 1, 0, 0, 0).Some?
    ensures SecondSaturdayDay(UtcWeekday(UtcTime(year, month - 1, 1, 0, 0, 0).value)) == SecondSaturdayOf(year, month)
  {
    FirstOfMonthUtc(year, month);
  }

  /** Date.UTC gives the deadline of the month. */
  lemma DeadlineUtc(year: int, month: int)
    requires 100 <= year <= 9999 && 1 <= month <= 12
    ensures UtcTime(year, month - 1, SecondSaturdayOf(year, month), 10, 59, 0) == Some(SecondSaturdayDeadline(year, month))
  {
    UtcTimeInRange(year, month, SecondSaturdayOf(year, month), 10, 59, 0);
  }


  // ---------------------------------------------------------------------------------
  // lockPastDeadlineSubmissions

  /** The submissions the job locks: not yet locked (lockedAt undefined) and past the deadline. */
  predicate DueForLock(s: Submission, now: int)
  {
    s.lockedAt.None? && CycleDeadline(s.cycleId).Some? && now >= CycleDeadline(s.cycleId).value
  }

  function Due(now: int): Submission -> bool
  {
    (s: Submission) => DueForLock(s, now)
  }

  function Unlocked(): Submission -> bool
  {
    (s: Submission) => s.lockedAt.None?
  }

  /**
   * The patch of a locked submission: lockedAt and updatedAt become now; submittedAt is
   * written back with the value it had, so it stays as it was.
   */
  function Lock(s: Submission, now: int): Submission
  {
    s.(lockedAt := Some(now), updatedAt := now)
  }

  /** The submissions table after the lock job ran at time now. */
  function AfterLockJob(subs: map<Id, Submission>, now: int): (r: map<Id, Submission>)
    ensures r.Keys == subs.Keys
  {
    map k | k in subs :: if DueForLock(subs[k], now) then Lock(subs[k], now) else subs[k]
  }

  /** The ids of the submissions the job locks. */
  ghost function DueSet(subs: map<Id, Submission>, now: int): set<Id>
  {
    Matching(subs, Due(now))
  }

  /**
   * lockPastDeadlineSubmissions: the job's result counts the submissions it patched, and
   * the new table is AfterLockJob of the old.
   */
  method LockPastDeadlineSubmissions(db: Database, now: int) returns (lockedCount: nat)
    requires db.Valid()
    modifies db`submissions
    ensures db.Valid()
    ensures db.submissions == AfterLockJob(old(db.submissions), now)
    ensures lockedCount == |DueSet(old(db.submissions), now)|
  {
    ghost var before := db.submissions;
    var unlocked := Rows(db.submissions, db.nextId, Unlocked());
    lockedCount := LockEach(db, unlocked, now);
    LockEachIsLockJob(before, db.nextId, unlocked, now);
    CountRows(before, db.nextId, Unlocked(), Due(now));
  }

  /** The loop of the job over the unlocked submissions, in scan order. */
  method LockEach(db: Database, unlocked: seq<Id>, now: int) returns (lockedCount: nat)
    requires db.Valid()
    requires forall i, j :: 0 <= i < j < |unlocked| ==> unlocked[i] < unlocked[j]
    requires forall i :: 0 <= i < |unlocked| ==> unlocked[i] in db.submissions && db.submissions[unlocked[i]].lockedAt.None?
    modifies db`submissions
    ensures db.Valid()
    ensures db.submissions == LockedAlong(old(db.submissions), unlocked, now)
    ensures lockedCount == CountWhere(old(db.submissions), unlocked, Due(now))
  {
    lockedCount := 0;
    ghost var before := db.submissions;
    for i := 0 to |unlocked|
      invariant db.Valid()
      invariant db.submissions == LockedAlong(before, unlocked[..i], now)
      invariant lockedCount == CountWhere(before, unlocked[..i], Due(now))
    {
      var id := unlocked[i];
      PrefixSnoc(unlocked, i);
      NotInPrefix(unlocked, i);
      LockedAlongAt(before, unlocked[..i], now, id);
      LockedAlongSnoc(before, unlocked[..i], id, now);
      CountWhereAppend(before, unlocked[..i], id, Due(now));
      var locked := LockIfDue(db, id, now);
      if locked {
        lockedCount := lockedCount + 1;
      }
    }
    assert unlocked[..|unlocked|] == unlocked;
  }

  /** One step of the loop: patch the unlocked submission id if its deadline has passed. */
  method LockIfDue(db: Database, id: Id, now: int) returns (locked: bool)
    requires db.Valid() && id in db.submissions && db.submissions[id].lockedAt.None?
    modifies db`submissions
    ensures db.Valid()
    ensures locked == DueForLock(old(db.submissions)[id], now)
    ensures locked ==> db.submissions == old(db.submissions)[id := Lock(old(db.submissions)[id], now)]
    ensures !locked ==> db.submissions == old(db.submissions)
  {
    var s := db.submissions[id];
    var deadline := CycleDeadline(s.cycleId);
    locked := deadline.Some? && now >= deadline.value;
    if locked {
      db.SetSubmission(id, s.(lockedAt := Some(now), updatedAt := now, submittedAt := s.submittedAt));
    }
  }

  /** The table after the loop has visited the ids ks, first to last. */
  ghost function LockedAlong(m: map<Id, Submission>, ks: seq<Id>, now: int): (r: map<Id, Submission>)
    ensures r.Keys == m.Keys
    decreases |ks|
  {
    if ks == [] then m
    else
      var p := LockedAlong(m, ks[..|ks| - 1], now);
      var k := ks[|ks| - 1];
      if k in m && DueForLock(m[k], now) then p[k := Lock(m[k], now)] else p
  }

  /** Visiting one more id locks it when it is due. */
  lemma LockedAlongSnoc(m: map<Id, Submission>, ks: seq<Id>, x: Id, now: int)
    requires x in m
    ensures LockedAlong(m, ks + [x], now) ==
              if DueForLock(m[x], now) then LockedAlong(m, ks, now)[x := Lock(m[x], now)] else LockedAlong(m, ks, now)
  {
    assert (ks + [x])[..|ks|] == ks;
  }

  /** Each visited id is locked when due, and every other document is untouched. */
  lemma {:induction false} LockedAlongAt(m: map<Id, Submission>, ks: seq<Id>, now: int, k: Id)
    ensures k in m ==>
              LockedAlong(m, ks, now)[k] == if k in ks && DueForLock(m[k], now) then Lock(m[k], now) else m[k]
    decreases |ks|
  {
    if ks != [] {
      var init, last := ks[..|ks| - 1], ks[|ks| - 1];
      LockedAlongAt(m, init, now, k);
      var p := LockedAlong(m, init, now);
      assert LockedAlong(m, ks, now) == if last in m && DueForLock(m[last], now) then p[last := Lock(m[last], now)] else p;
      InitOrLast(ks, k);
    }
  }

  lemma InitOrLast(ks: seq<Id>, k: Id)
    requires ks != []
    ensures k in ks <==> k in ks[..|ks| - 1] || k == ks[|ks| - 1]
  {
    assert ks == ks[..|ks| - 1] + [ks[|ks| - 1]];
  }

  lemma LockEachIsLockJob(before: map<Id, Submission>, n: nat, unlocked: seq<Id>, now: int)
    requires Below(before, n) && unlocked == Rows(before, n, Unlocked())
    ensures LockedAlong(before, unlocked, now) == AfterLockJob(before, now)
  {
    var after, job := LockedAlong(before, unlocked, now), AfterLockJob(before, now);
    forall k | k in before
      ensures after[k] == job[k]
    {
      LockJobAt(before, n, unlocked, now, k);
    }
  }

  lemma LockJobAt(before: map<Id, Submission>, n: nat, unlocked: seq<Id>, now: int, k: Id)
    requires Below(before, n) && unlocked == Rows(before, n, Unlocked())
    requires k in before
    ensures LockedAlong(before, unlocked, now)[k] == AfterLockJob(before, now)[k]
  {
    LockedAlongAt(before, unlocked, now, k);
    if before[k].lockedAt.None? {
      assert Unlocked()(before[k]) && k < n;
      assert k in unlocked;
    }
  }

  // ---------------------------------------------------------------------------------
  // What the job promises

  /**
   * A submission is locked by the job exactly when it was not locked and the job runs at or
   * after its cycle's deadline; a submission already locked is left as it was, and locking
   * keeps submittedAt; nothing but lockedAt and updatedAt changes.
   */
  lemma LockJobEffect(subs: map<Id, Submission>, now: int, k: Id)
    requires k in subs
    ensures var s, s' := subs[k], AfterLockJob(subs, now)[k];
            (s' != s <==> DueForLock(s, now)) &&
            (s.lockedAt.Some? ==> s' == s) &&
            s'.submittedAt == s.submittedAt && s'.cycleId == s.cycleId &&
            s'.userId == s.userId && s'.circleId == s.circleId && s'.createdAt == s.createdAt &&
            (DueForLock(s, now) ==> s'.lockedAt == Some(now) && s'.updatedAt == now)
  {
    var s := subs[k];
    if DueForLock(s, now) {
      assert Lock(s, now).lockedAt != s.lockedAt;
    }
  }

  /**
   * For a cycle id createSubmission accepts, the job locks the submission exactly when it is
   * unlocked and the job runs at or after 10:59 UTC on the month's second Saturday.
   */
  lemma LockedIffPastDeadline(s: Submission, now: int)
    requires Submissions.ValidateCycleId(s.cycleId).Pass?
    ensures exists y, m :: 2024 <= y <= 2099 && 1 <= m <= 12 && s.cycleId == CycleIds.Format(y, m) &&
              (DueForLock(s, now) <==> s.lockedAt.None? && now >= SecondSaturdayDeadline(y, m))
  {
    Submissions.ValidCycleIdIffMonth(s.cycleId);
    var y, m :| 2024 <= y <= 2099 && 1 <= m <= 12 && s.cycleId == CycleIds.Format(y, m);
    CycleDeadlineOfMonth(y, m);
  }

  /** An id whose parts do not read as numbers gives no deadline: such a submission is never locked. */
  lemma UnreadableCycleNeverLocked(s: Submission, now: int)
    requires CycleIds.ParseParts(s.cycleId).0.None? || CycleIds.ParseParts(s.cycleId).1.None?
    ensures !DueForLock(s, now)
  {
  }

  /** A second run at the same time locks nothing and changes nothing. */
  lemma LockJobIdempotent(subs: map<Id, Submission>, now: int)
    ensures AfterLockJob(AfterLockJob(subs, now), now) == AfterLockJob(subs, now)
    ensures DueSet(AfterLockJob(subs, now), now) == {}
  {
    var once := AfterLockJob(subs, now);
    forall k | k in once
      ensures !DueForLock(once[k], now)
    {
      if DueForLock(subs[k], now) {
        assert once[k].lockedAt.Some?;
      }
    }
  }

  /** Locking changes no (user, circle, cycle) key, so submissions stay unique per key. */
  lemma LockJobKeepsOneSubmission(subs: map<Id, Submission>, now: int)
    requires Submissions.OneSubmissionPerCycle(subs)
    ensures Submissions.OneSubmissionPerCycle(AfterLockJob(subs, now))
  {
    var after := AfterLockJob(subs, now);
    forall a, b | a in after && b in after && Submissions.SameCycleKey(after[a], after[b])
      ensures a == b
    {
      assert Submissions.SameCycleKey(subs[a], subs[b]);
    }
  }

  // ---------------------------------------------------------------------------------
  // The schedule

  /** A weekly cron entry: minute, hour (UTC) and day of the week. */
  datatype Weekly = Weekly(minute: int, hour: int, weekday: int)

  /** '59 10 * * 6': the lock job. */
  const LockSchedule := Weekly(59, 10, Saturday)
  /** '0 11 * * 6': newsletter processing. */
  const NewsletterSchedule := Weekly(0, 11, Saturday)
  /** { dayOfWeek: 'wednesday', hourUTC: 11, minuteUTC: 0 }: submission reminders. */
  const ReminderSchedule := Weekly(0, 11, Wednesday)

  /** The entry fires at time t: the start of its minute on its weekday, in UTC. */
  predicate Fires(w: Weekly, t: int)
  {
    UtcWeekday(t) == w.weekday && t % MsPerDay == w.hour * MsPerHour + w.minute * MsPerMinute
  }

  /**
   * The lock job fires exactly at every month's deadline, and newsletter processing fires
   * one minute later on the same second Saturday, when every submission of the month is locked.
   */
  lemma LockRunsAtDeadlineBeforeNewsletters(year: int, month: int)
    requires 1 <= month <= 12
    ensures Fires(LockSchedule, SecondSaturdayDeadline(year, month))
    ensures Fires(NewsletterSchedule, SecondSaturdayDeadline(year, month) + MsPerMinute)
    ensures OnSecondSaturday(SecondSaturdayDeadline(year, month) + MsPerMinute)
  {
    var t := SecondSaturdayDeadline(year, month);
    DeadlineFacts(year, month);
    SameDayLater(t, MsPerMinute);
    var d := UtcDate(t);
    assert UtcDate(t + MsPerMinute) == d && d.day == SecondSaturdayOf(d.year, d.month);
  }

  /** The reminders fire on a Wednesday; three days later is the Saturday the reminder is about. */
  lemma RemindersThreeDaysBefore(t: int)
    requires Fires(ReminderSchedule, t)
    ensures UtcWeekday(t + 3 * MsPerDay) == Saturday
  {
    assert Day(t + 3 * MsPerDay) == Day(t) + 3;
  }
}
