/**
 * Notification preferences, the admins' manual reminders (at most three per admin, circle
 * and cycle), the members who have not yet submitted, and the scheduled reminder and
 * newsletter-ready pushes. The push itself is not modelled: an action's result is the list
 * of player ids it would hand to the push sender.
 */
module Notifications {
  import opened Wrappers
  import opened Store
  import opened Calendar
  import Access
  import CycleIds
  import NewsletterHelpers

  const MaxAdminReminders := 3
  const MaxRemindersError := "Maximum of 3 admin reminders per cycle reached"
  const TargetNotActive := "Target user is not an active member of this circle"

  // ---------------------------------------------------------------------------------
  // Preferences

  function ForUser(userId: Id): Preferences -> bool
  {
    (p: Preferences) => p.userId == userId
  }

  /** The user's preferences row, looked up with the by_user index and `.first()`. */
  function PreferencesOf(prefs: map<Id, Preferences>, n: nat, userId: Id): (r: Option<Id>)
    ensures r.Some? ==> r.value in prefs && prefs[r.value].userId == userId
    ensures r.Some? ==> forall k :: k in prefs && k < r.value ==> prefs[k].userId != userId
    ensures r.None? <==> forall k :: k in prefs && k < n ==> prefs[k].userId != userId
  {
    var rows := Rows(prefs, n, ForUser(userId));
    if |rows| == 0 then None
    else
      assert rows[0] in rows;
      assert forall k :: k in prefs && k < rows[0] && ForUser(userId)(prefs[k]) ==> k in rows;
      Some(rows[0])
  }

  datatype PreferencePair = PreferencePair(submissionReminders: bool, newsletterReady: bool)

  /**
   * getNotificationPreferences: with no row both notifications are on; otherwise the pair
   * stored in the user's row.
   */
  function GetNotificationPreferences(prefs: map<Id, Preferences>, n: nat, caller: Id): (r: PreferencePair)
    ensures (forall k :: k in prefs && k < n ==> prefs[k].userId != caller) ==> r == PreferencePair(true, true)
    ensures PreferencesOf(prefs, n, caller).Some? ==>
              var p := prefs[PreferencesOf(prefs, n, caller).value];
              r == PreferencePair(p.submissionReminders, p.newsletterReady)
  {
    match PreferencesOf(prefs, n, caller)
    case None => PreferencePair(true, true)
    case Some(k) => PreferencePair(prefs[k].submissionReminders, prefs[k].newsletterReady)
  }

  /** Each user has at most one preferences row. */
  ghost predicate OnePreferencesPerUser(prefs: map<Id, Preferences>)
  {
    forall a, b :: a in prefs && b in prefs && prefs[a].userId == prefs[b].userId ==> a == b
  }

  /**
   * updateNotificationPreferences: an upsert keyed by user. An existing row keeps createdAt
   * and gets updatedAt = now; otherwise a row is inserted with createdAt = updatedAt = now.
   * Reading the preferences back gives the pair just written.
   */
  method UpdateNotificationPreferences(db: Database, caller: Id, submissionReminders: bool, newsletterReady: bool, now: int)
    requires db.Valid()
    modifies db`preferences, db`nextId
    ensures db.Valid()
    ensures PreferencesOf(old(db.preferences), old(db.nextId), caller).Some? ==>
              var k := PreferencesOf(old(db.preferences), old(db.nextId), caller).value;
              db.nextId == old(db.nextId) &&
              db.preferences == old(db.preferences)[k := old(db.preferences)[k].(
                submissionReminders := submissionReminders, newsletterReady := newsletterReady, updatedAt := now)]
    ensures PreferencesOf(old(db.preferences), old(db.nextId), caller).None? ==>
              db.nextId == old(db.nextId) + 1 &&
              db.preferences == old(db.preferences)[old(db.nextId) :=
                Preferences(caller, submissionReminders, newsletterReady, now, now)]
    ensures GetNotificationPreferences(db.preferences, db.nextId, caller) == PreferencePair(submissionReminders, newsletterReady)
    ensures OnePreferencesPerUser(old(db.preferences)) ==> OnePreferencesPerUser(db.preferences)
  {
    var existing := PreferencesOf(db.preferences, db.nextId, caller);
    match existing
    case Some(k) =>
      var p := db.preferences[k];
      PatchPreferences(db, k, p.(submissionReminders := submissionReminders, newsletterReady := newsletterReady, updatedAt := now));
    case None =>
      var id := InsertFirstPreferences(db, Preferences(caller, submissionReminders, newsletterReady, now, now));
  }

  /** The patch branch of UpdateNotificationPreferences: the user's row k takes the new values. */
  method PatchPreferences(db: Database, k: Id, row: Preferences)
    requires db.Valid() && PreferencesOf(db.preferences, db.nextId, row.userId) == Some(k)
    modifies db`preferences
    ensures db.Valid() && db.preferences == old(db.preferences)[k := row]
    ensures PreferencesOf(db.preferences, db.nextId, row.userId) == Some(k)
    ensures OnePreferencesPerUser(old(db.preferences)) ==> OnePreferencesPerUser(db.preferences)
  {
    PreferencesAfterPatch(db.preferences, db.nextId, row.userId, k, row);
    db.SetPreferences(k, row);
  }

  /** The insert branch of UpdateNotificationPreferences: the user's first row. */
  method InsertFirstPreferences(db: Database, row: Preferences) returns (id: Id)
    requires db.Valid() && PreferencesOf(db.preferences, db.nextId, row.userId).None?
    modifies db`preferences, db`nextId
    ensures db.Valid()
    ensures id == old(db.nextId) && db.nextId == id + 1 && db.preferences == old(db.preferences)[id := row]
    ensures PreferencesOf(db.preferences, db.nextId, row.userId) == Some(id)
    ensures OnePreferencesPerUser(old(db.preferences)) ==> OnePreferencesPerUser(db.preferences)
  {
    PreferencesAfterInsert(db.preferences, db.nextId, row);
    id := db.InsertPreferences(row);
  }

  /** Patching the user's row keeps it the user's row, and rows stay unique per user. */
  lemma PreferencesAfterPatch(prefs: map<Id, Preferences>, n: nat, userId: Id, k: Id, row: Preferences)
    requires PreferencesOf(prefs, n, userId) == Some(k) && row.userId == userId
    ensures PreferencesOf(prefs[k := row], n, userId) == Some(k)
    ensures OnePreferencesPerUser(prefs) ==> OnePreferencesPerUser(prefs[k := row])
  {
    RowsSet(prefs, n, k, row, ForUser(userId));
    PatchKeepsOnePreferences(prefs, k, row);
  }

  lemma PatchKeepsOnePreferences(prefs: map<Id, Preferences>, k: Id, row: Preferences)
    requires k in prefs && row.userId == prefs[k].userId
    ensures OnePreferencesPerUser(prefs) ==> OnePreferencesPerUser(prefs[k := row])
  {
  }

  /** A row inserted for a user with none becomes that user's row, and rows stay unique per user. */
  lemma PreferencesAfterInsert(prefs: map<Id, Preferences>, n: nat, row: Preferences)
    requires Below(prefs, n) && PreferencesOf(prefs, n, row.userId).None?
    ensures PreferencesOf(prefs[n := row], n + 1, row.userId) == Some(n)
    ensures OnePreferencesPerUser(prefs) ==> OnePreferencesPerUser(prefs[n := row])
  {
    assert Rows(prefs, n, ForUser(row.userId)) == [];
    RowsInsert(prefs, n, row, ForUser(row.userId));
    assert Rows(prefs[n := row], n + 1, ForUser(row.userId)) == [n];
    InsertKeepsOnePreferences(prefs, n, row);
  }

  lemma InsertKeepsOnePreferences(prefs: map<Id, Preferences>, id: Id, row: Preferences)
    requires id !in prefs && forall k :: k in prefs ==> prefs[k].userId != row.userId
    ensures OnePreferencesPerUser(prefs) ==> OnePreferencesPerUser(prefs[id := row])
  {
  }

  // ---------------------------------------------------------------------------------
  // Admin reminders

  function ReminderKey(adminUserId: Id, circleId: Id, cycleId: string): AdminReminder -> bool
  {
    (r: AdminReminder) => r.adminUserId == adminUserId && r.circleId == circleId && r.cycleId == cycleId
  }

  /** getAdminReminderCount, and the count both send mutations check: the by_admin_circle_cycle rows. */
  function ReminderCount(reminders: map<Id, AdminReminder>, n: nat, adminUserId: Id, circleId: Id, cycleId: string): (c: nat)
    requires Below(reminders, n)
    ensures c == |Matching(reminders, ReminderKey(adminUserId, circleId, cycleId))|
  {
    RowsCard(reminders, n, ReminderKey(adminUserId, circleId, cycleId));
    |Rows(reminders, n, ReminderKey(adminUserId, circleId, cycleId))|
  }

  /** No admin has more than three reminders for one circle and cycle. */
  ghost predicate RemindersCapped(reminders: map<Id, AdminReminder>)
  {
    forall k :: k in reminders ==>
      |Matching(reminders, ReminderKey(reminders[k].adminUserId, reminders[k].circleId, reminders[k].cycleId))| <= MaxAdminReminders
  }

  /** Inserting a reminder whose key has fewer than three keeps every key at three or fewer. */
  lemma InsertKeepsCap(reminders: map<Id, AdminReminder>, id: Id, row: AdminReminder)
    requires id !in reminders && RemindersCapped(reminders)
    requires |Matching(reminders, ReminderKey(row.adminUserId, row.circleId, row.cycleId))| < MaxAdminReminders
    ensures RemindersCapped(reminders[id := row])
  {
    var after := reminders[id := row];
    forall k | k in after
      ensures |Matching(after, ReminderKey(after[k].adminUserId, after[k].circleId, after[k].cycleId))| <= MaxAdminReminders
    {
      var r := after[k];
      var key := ReminderKey(r.adminUserId, r.circleId, r.cycleId);
      MatchingInsert(reminders, id, row, key);
      if key(row) {
        assert key == ReminderKey(row.adminUserId, row.circleId, row.cycleId);
        assert id !in Matching(reminders, key);
        assert |Matching(after, key)| == |Matching(reminders, key)| + 1;
      } else {
        assert k != id && r == reminders[k];
        assert Matching(after, key) == Matching(reminders, key);
      }
    }
  }

  /** Deleting reminders keeps every key at three or fewer. */
  lemma DeleteKeepsCap(reminders: map<Id, AdminReminder>, after: map<Id, AdminReminder>)
    requires RemindersCapped(reminders)
    requires forall k :: k in after ==> k in reminders && after[k] == reminders[k]
    ensures RemindersCapped(after)
  {
    forall k | k in after
      ensures |Matching(after, ReminderKey(after[k].adminUserId, after[k].circleId, after[k].cycleId))| <= MaxAdminReminders
    {
      var key := ReminderKey(after[k].adminUserId, after[k].circleId, after[k].cycleId);
      MatchingShrinks(reminders, after, key);
      assert |Matching(reminders, key)| <= MaxAdminReminders;
    }
  }

  /** The player id of a user, when the user exists and has a non-empty one. */
  function PlayerOf(users: map<Id, User>, userId: Id): seq<string>
  {
    if userId in users && users[userId].oneSignalPlayerId.Some? && users[userId].oneSignalPlayerId.value != "" then
      [users[userId].oneSignalPlayerId.value]
    else []
  }

  /**
   * The checks of sendAdminReminder, in their order: the caller is an active admin, has
   * sent fewer than three reminders, and the target has an active, unblocked membership.
   */
  function AdminReminderGuard(ms: map<Id, Membership>, reminders: map<Id, AdminReminder>, n: nat,
                              caller: Id, circleId: Id, targetUserId: Id, cycleId: string): (g: Outcome)
    requires Below(reminders, n)
    ensures Access.RequireAdminMember(ms, n, caller, circleId).Err? ==>
              g == Fail(Access.RequireAdminMember(ms, n, caller, circleId).msg)
    ensures Access.RequireAdminMember(ms, n, caller, circleId).Ok? &&
            ReminderCount(reminders, n, caller, circleId, cycleId) >= MaxAdminReminders ==>
              g == Fail(MaxRemindersError)
    ensures g.Fail? ==> g.msg in {Access.NotAMember, Access.NotAnAdmin, MaxRemindersError, TargetNotActive}
    ensures g.Pass? <==>
              Access.RequireAdminMember(ms, n, caller, circleId).Ok? &&
              ReminderCount(reminders, n, caller, circleId, cycleId) < MaxAdminReminders &&
              Access.RequireMember(ms, n, targetUserId, circleId).Ok? &&
              !ms[Access.MembershipOf(ms, n, targetUserId, circleId).value].blocked
  {
    match Access.RequireAdminMember(ms, n, caller, circleId)
    case Err(e) => Fail(e)
    case Ok(_) =>
      if ReminderCount(reminders, n, caller, circleId, cycleId) >= MaxAdminReminders then Fail(MaxRemindersError)
      else
        match Access.MembershipOf(ms, n, targetUserId, circleId)
        case None => Fail(TargetNotActive)
        case Some(t) => if HasLeft(ms[t]) || ms[t].blocked then Fail(TargetNotActive) else Pass
  }

  /**
   * sendAdminReminder: when every check passes, one reminder row naming the target is
   * inserted and the result is the target's player id, if any, for the push. The row is
   * inserted before the target is checked, but a failed check rolls the insert back.
   */
  method SendAdminReminder(db: Database, caller: Id, circleId: Id, targetUserId: Id, cycleId: string, now: int)
    returns (r: Result<seq<string>>)
    requires db.Valid()
    modifies db`reminders, db`nextId
    ensures db.Valid()
    ensures var g := AdminReminderGuard(old(db.memberships), old(db.reminders), old(db.nextId), caller, circleId, targetUserId, cycleId);
            (g.Fail? ==> r == Err(g.msg) && db.reminders == old(db.reminders) && db.nextId == old(db.nextId)) &&
            (g.Pass? ==>
               r == Ok(PlayerOf(db.users, targetUserId)) && db.nextId == old(db.nextId) + 1 &&
               db.reminders == old(db.reminders)[old(db.nextId) := AdminReminder(circleId, caller, Some(targetUserId), cycleId, now)])
    ensures RemindersCapped(old(db.reminders)) ==> RemindersCapped(db.reminders)
  {
    var g := AdminReminderGuard(db.memberships, db.reminders, db.nextId, caller, circleId, targetUserId, cycleId);
    if g.Fail? {
      return Err(g.msg);
    }
    var row := AdminReminder(circleId, caller, Some(targetUserId), cycleId, now);
    if RemindersCapped(db.reminders) {
      InsertKeepsCap(db.reminders, db.nextId, row);
    }
    var id := db.InsertAdminReminder(row);
    r := Ok(PlayerOf(db.users, targetUserId));
  }

  /** The checks of sendBulkAdminReminder: an active admin with fewer than three reminders sent. */
  function BulkReminderGuard(ms: map<Id, Membership>, reminders: map<Id, AdminReminder>, n: nat,
                             caller: Id, circleId: Id, cycleId: string): (g: Outcome)
    requires Below(reminders, n)
    ensures Access.RequireAdminMember(ms, n, caller, circleId).Err? ==>
              g == Fail(Access.RequireAdminMember(ms, n, caller, circleId).msg)
    ensures g.Pass? <==>
              Access.RequireAdminMember(ms, n, caller, circleId).Ok? &&
              ReminderCount(reminders, n, caller, circleId, cycleId) < MaxAdminReminders
    ensures Access.RequireAdminMember(ms, n, caller, circleId).Ok? && g.Fail? ==> g.msg == MaxRemindersError
  {
    match Access.RequireAdminMember(ms, n, caller, circleId)
    case Err(e) => Fail(e)
    case Ok(_) =>
      if ReminderCount(reminders, n, caller, circleId, cycleId) >= MaxAdminReminders then Fail(MaxRemindersError)
      else Pass
  }

  /**
   * sendBulkAdminReminder: one reminder row without a target, then the player ids of the
   * circle's non-submitters; notifiedCount is the length of that list.
   */
  method SendBulkAdminReminder(db: Database, caller: Id, circleId: Id, cycleId: string, now: int)
    returns (r: Result<seq<string>>)
    requires db.Valid()
    modifies db`reminders, db`nextId
    ensures db.Valid()
    ensures var g := BulkReminderGuard(old(db.memberships), old(db.reminders), old(db.nextId), caller, circleId, cycleId);
            (g.Fail? ==> r == Err(g.msg) && db.reminders == old(db.reminders) && db.nextId == old(db.nextId)) &&
            (g.Pass? ==>
               db.nextId == old(db.nextId) + 1 &&
               db.reminders == old(db.reminders)[old(db.nextId) := AdminReminder(circleId, caller, None, cycleId, now)] &&
               r == Ok(Players(db.users, db.preferences, db.nextId, db.memberships,
                               NonSubmitters(db.memberships, db.submissions, db.nextId, circleId, cycleId), Any)))
    ensures RemindersCapped(old(db.reminders)) ==> RemindersCapped(db.reminders)
  {
    var g := BulkReminderGuard(db.memberships, db.reminders, db.nextId, caller, circleId, cycleId);
    if g.Fail? {
      return Err(g.msg);
    }
    var row := AdminReminder(circleId, caller, None, cycleId, now);
    if RemindersCapped(db.reminders) {
      InsertKeepsCap(db.reminders, db.nextId, row);
    }
    var id := db.InsertAdminReminder(row);
    var nonSubmitters := NonSubmitters(db.memberships, db.submissions, db.nextId, circleId, cycleId);
    var playerIds := CollectPlayers(db, nonSubmitters, Any);
    r := Ok(playerIds);
  }

  // ---------------------------------------------------------------------------------
  // Non-submitters

  /** A membership of the circle that is neither left nor blocked. */
  predicate ActiveIn(m: Membership, circleId: Id)
  {
    m.circleId == circleId && !HasLeft(m) && !m.blocked
  }

  function ActiveInCircle(circleId: Id): Membership -> bool
  {
    (m: Membership) => ActiveIn(m, circleId)
  }

  /** getActiveMembers: the circle's memberships that are neither left nor blocked. */
  function ActiveMembers(ms: map<Id, Membership>, n: nat, circleId: Id): (r: seq<Id>)
    requires Below(ms, n)
    ensures forall k :: k in r <==> k in ms && ActiveIn(ms[k], circleId)
    ensures forall i, j :: 0 <= i < j < |r| ==> r[i] < r[j]
  {
    Rows(ms, n, ActiveInCircle(circleId))
  }

  function SubmittedIn(circleId: Id, cycleId: string): Submission -> bool
  {
    (s: Submission) => s.circleId == circleId && s.cycleId == cycleId && Truthy(s.submittedAt)
  }

  /** The users of the submissions ks, in order. */
  function UserIds(subs: map<Id, Submission>, ks: seq<Id>): (r: seq<Id>)
    requires forall i :: 0 <= i < |ks| ==> ks[i] in subs
    ensures forall u :: u in r <==> exists i :: 0 <= i < |ks| && subs[ks[i]].userId == u
  {
    if ks == [] then []
    else
      var rest := UserIds(subs, ks[1..]);
      assert forall i :: 0 < i < |ks| ==> ks[i] == ks[1..][i - 1];
      [subs[ks[0]].userId] + rest
  }

  function NotAmong(userIds: seq<Id>): Membership -> bool
  {
    (m: Membership) => m.userId !in userIds
  }

  /** The user has a submission for the cycle in the circle with submittedAt set. */
  predicate HasSubmitted(subs: map<Id, Submission>, userId: Id, circleId: Id, cycleId: string)
  {
    exists s :: s in subs && subs[s].userId == userId && subs[s].circleId == circleId &&
                subs[s].cycleId == cycleId && Truthy(subs[s].submittedAt)
  }

  /**
   * getNonSubmittersInternal: the circle's active members, in index order, whose user has no
   * submitted submission for the cycle in the circle.
   */
  function NonSubmitters(ms: map<Id, Membership>, subs: map<Id, Submission>, n: nat, circleId: Id, cycleId: string): (r: seq<Id>)
    requires Below(ms, n) && Below(subs, n)
    ensures forall k :: k in r <==> k in ms && ActiveIn(ms[k], circleId) && !HasSubmitted(subs, ms[k].userId, circleId, cycleId)
    ensures forall i, j :: 0 <= i < j < |r| ==> r[i] < r[j]
  {
    var submitted := UserIds(subs, Rows(subs, n, SubmittedIn(circleId, cycleId)));
    NonSubmittersFacts(ms, subs, n, circleId, cycleId, submitted);
    WhereAscending(ms, ActiveMembers(ms, n, circleId), NotAmong(submitted));
    Where(ms, ActiveMembers(ms, n, circleId), NotAmong(submitted))
  }

  lemma NonSubmittersFacts(ms: map<Id, Membership>, subs: map<Id, Submission>, n: nat, circleId: Id, cycleId: string,
                           submitted: seq<Id>)
    requires Below(ms, n) && Below(subs, n)
    requires submitted == UserIds(subs, Rows(subs, n, SubmittedIn(circleId, cycleId)))
    ensures forall u :: u in submitted <==> HasSubmitted(subs, u, circleId, cycleId)
  {
    var rows := Rows(subs, n, SubmittedIn(circleId, cycleId));
    forall u
      ensures u in submitted <==> HasSubmitted(subs, u, circleId, cycleId)
    {
      if HasSubmitted(subs, u, circleId, cycleId) {
        var s :| s in subs && subs[s].userId == u && subs[s].circleId == circleId &&
                 subs[s].cycleId == cycleId && Truthy(subs[s].submittedAt);
        assert SubmittedIn(circleId, cycleId)(subs[s]);
        assert s in rows;
        var i :| 0 <= i < |rows| && rows[i] == s;
      }
    }
  }

  // ---------------------------------------------------------------------------------
  // Player ids and the scheduled pushes

  /** Which preference a push respects; the admins' bulk reminder respects none. */
  datatype Topic = Any | SubmissionReminders | NewsletterReady

  /** The user accepts the push: no preferences row, or the row has the topic's flag on. */
  predicate Opted(prefs: map<Id, Preferences>, n: nat, userId: Id, topic: Topic)
  {
    match topic
    case Any => true
    case SubmissionReminders => GetNotificationPreferences(prefs, n, userId).submissionReminders
    case NewsletterReady => GetNotificationPreferences(prefs, n, userId).newsletterReady
  }

  /** The player ids of the members ids, in order, of the users who accept the push and have one. */
  function Players(users: map<Id, User>, prefs: map<Id, Preferences>, n: nat, ms: map<Id, Membership>,
                   ids: seq<Id>, topic: Topic): seq<string>
    requires forall i :: 0 <= i < |ids| ==> ids[i] in ms
  {
    if ids == [] then []
    else
      var userId := ms[ids[|ids| - 1]].userId;
      Players(users, prefs, n, ms, ids[..|ids| - 1], topic) + (if Opted(prefs, n, userId, topic) then PlayerOf(users, userId) else [])
  }

  /** x is the player id of a user who accepts the push. */
  predicate PlayerFor(users: map<Id, User>, prefs: map<Id, Preferences>, n: nat, userId: Id, topic: Topic, x: string)
  {
    Opted(prefs, n, userId, topic) && PlayerOf(users, userId) == [x]
  }

  /** A player id is on the list exactly when it is that of a listed member who accepts the push. */
  lemma {:induction false} PlayersMembers(users: map<Id, User>, prefs: map<Id, Preferences>, n: nat, ms: map<Id, Membership>,
                                          ids: seq<Id>, topic: Topic)
    requires forall i :: 0 <= i < |ids| ==> ids[i] in ms
    ensures |Players(users, prefs, n, ms, ids, topic)| <= |ids|
    ensures forall x :: x in Players(users, prefs, n, ms, ids, topic) <==>
              exists i :: 0 <= i < |ids| && PlayerFor(users, prefs, n, ms[ids[i]].userId, topic, x)
    decreases |ids|
  {
    if ids != [] {
      var init := ids[..|ids| - 1];
      PlayersMembers(users, prefs, n, ms, init, topic);
      forall x
        ensures x in Players(users, prefs, n, ms, ids, topic) <==>
                exists i :: 0 <= i < |ids| && PlayerFor(users, prefs, n, ms[ids[i]].userId, topic, x)
      {
        PlayersStep(users, prefs, n, ms, ids, topic, x);
        MemberStep(users, prefs, n, ms, ids, init, topic, x);
      }
    }
  }

  /** The last member adds at most its own player id, and only when it accepts the push. */
  lemma PlayersStep(users: map<Id, User>, prefs: map<Id, Preferences>, n: nat, ms: map<Id, Membership>,
                    ids: seq<Id>, topic: Topic, x: string)
    requires ids != [] && forall i :: 0 <= i < |ids| ==> ids[i] in ms
    ensures |Players(users, prefs, n, ms, ids, topic)| <= |Players(users, prefs, n, ms, ids[..|ids| - 1], topic)| + 1
    ensures x in Players(users, prefs, n, ms, ids, topic) <==>
              x in Players(users, prefs, n, ms, ids[..|ids| - 1], topic) || PlayerFor(users, prefs, n, ms[ids[|ids| - 1]].userId, topic, x)
  {
  }

  /** Some member of ids has x: one of all but the last, or the last. */
  lemma MemberStep(users: map<Id, User>, prefs: map<Id, Preferences>, n: nat, ms: map<Id, Membership>,
                   ids: seq<Id>, init: seq<Id>, topic: Topic, x: string)
    requires ids != [] && init == ids[..|ids| - 1] && forall i :: 0 <= i < |ids| ==> ids[i] in ms
    ensures (exists i :: 0 <= i < |ids| && PlayerFor(users, prefs, n, ms[ids[i]].userId, topic, x)) <==>
              (exists i :: 0 <= i < |init| && PlayerFor(users, prefs, n, ms[init[i]].userId, topic, x)) ||
              PlayerFor(users, prefs, n, ms[ids[|ids| - 1]].userId, topic, x)
  {
    if i :| 0 <= i < |ids| && PlayerFor(users, prefs, n, ms[ids[i]].userId, topic, x) {
      if i < |init| {
        assert init[i] == ids[i];
      }
    }
    if i :| 0 <= i < |init| && PlayerFor(users, prefs, n, ms[init[i]].userId, topic, x) {
      assert ids[i] == init[i];
    }
  }

  /** One more member: its player id, if it accepts the push and has one, goes at the end. */
  lemma PlayersSnoc(users: map<Id, User>, prefs: map<Id, Preferences>, n: nat, ms: map<Id, Membership>,
                    ids: seq<Id>, i: nat, topic: Topic)
    requires i < |ids| && forall j :: 0 <= j < |ids| ==> ids[j] in ms
    ensures Players(users, prefs, n, ms, ids[..i + 1], topic) ==
              Players(users, prefs, n, ms, ids[..i], topic) +
              (if Opted(prefs, n, ms[ids[i]].userId, topic) then PlayerOf(users, ms[ids[i]].userId) else [])
  {
    assert ids[..i + 1][..i] == ids[..i];
  }

  /** The loop over members that pushes the player id of each one who accepts the push. */
  method CollectPlayers(db: Database, ids: seq<Id>, topic: Topic) returns (playerIds: seq<string>)
    requires forall i :: 0 <= i < |ids| ==> ids[i] in db.memberships
    ensures playerIds == Players(db.users, db.preferences, db.nextId, db.memberships, ids, topic)
  {
    playerIds := [];
    for i := 0 to |ids|
      invariant playerIds == Players(db.users, db.preferences, db.nextId, db.memberships, ids[..i], topic)
    {
      PlayersSnoc(db.users, db.preferences, db.nextId, db.memberships, ids, i, topic);
      var userId := db.memberships[ids[i]].userId;
      var wants := match topic
        case Any => true
        case SubmissionReminders => GetNotificationPreferences(db.preferences, db.nextId, userId).submissionReminders
        case NewsletterReady => GetNotificationPreferences(db.preferences, db.nextId, userId).newsletterReady;
      if wants && userId in db.users {
        var player := db.users[userId].oneSignalPlayerId;
        if player.Some? && player.value != "" {
          playerIds := playerIds + [player.value];
        }
      }
    }
    assert ids[..|ids|] == ids;
  }

  /**
   * isComingSaturdaySecondSaturday: the moment three days after now is a valid date, a UTC
   * Saturday, and its UTC day of the month is from 8 to 14.
   */
  function IsComingSaturdaySecondSaturday(now: int): bool
  {
    var saturday := TimeClip(now + 3 * MsPerDay);
    saturday.Some? && UtcWeekday(saturday.value) == Saturday &&
    8 <= UtcDate(saturday.value).day <= 14
  }

  /** The test holds exactly when three days from now is the second Saturday of its month. */
  lemma ComingSaturdayIff(now: int)
    ensures IsComingSaturdaySecondSaturday(now) <==>
              -MaxTime <= now + 3 * MsPerDay <= MaxTime && OnSecondSaturday(now + 3 * MsPerDay)
  {
    SaturdayInSecondWeekIff(now + 3 * MsPerDay);
  }

  /** One scheduled push: the circle it is about and the player ids it goes to. */
  datatype Push = Push(circleId: Id, playerIds: seq<string>)

  /** A push is scheduled only when it has at least one player id. */
  function PushIfAny(circleId: Id, playerIds: seq<string>): seq<Push>
  {
    if |playerIds| > 0 then [Push(circleId, playerIds)] else []
  }

  /** The reminder players of one circle: its non-submitters who accept submission reminders. */
  function ReminderPlayers(users: map<Id, User>, prefs: map<Id, Preferences>, ms: map<Id, Membership>,
                           subs: map<Id, Submission>, n: nat, circleId: Id, cycleId: string): seq<string>
    requires Below(ms, n) && Below(subs, n)
  {
    Players(users, prefs, n, ms, NonSubmitters(ms, subs, n, circleId, cycleId), SubmissionReminders)
  }

  /** The reminder pushes for the circles cs, in order. */
  function ReminderPushes(users: map<Id, User>, prefs: map<Id, Preferences>, ms: map<Id, Membership>,
                          subs: map<Id, Submission>, n: nat, cs: seq<Id>, cycleId: string): seq<Push>
    requires Below(ms, n) && Below(subs, n)
  {
    if cs == [] then []
    else
      ReminderPushes(users, prefs, ms, subs, n, cs[..|cs| - 1], cycleId) +
      PushIfAny(cs[|cs| - 1], ReminderPlayers(users, prefs, ms, subs, n, cs[|cs| - 1], cycleId))
  }

  /**
   * sendSubmissionReminder: nothing unless the coming Saturday is a second Saturday; then,
   * for each active circle in order, one push to its non-submitters for the current UTC
   * month who accept reminders and have a player id, when there is at least one.
   */
  method SendSubmissionReminder(db: Database, now: int) returns (pushes: seq<Push>)
    requires db.Valid()
    ensures !IsComingSaturdaySecondSaturday(now) ==> pushes == []
    ensures IsComingSaturdaySecondSaturday(now) ==>
              pushes == ReminderPushes(db.users, db.preferences, db.memberships, db.submissions, db.nextId,
                                       NewsletterHelpers.ActiveCircles(db.circles, db.nextId), CycleIds.CycleIdAt(now))
  {
    if !IsComingSaturdaySecondSaturday(now) {
      return [];
    }
    var cycleId := CycleIds.CycleIdAt(now);
    var circles := NewsletterHelpers.ActiveCircles(db.circles, db.nextId);
    pushes := RemindEach(db, circles, cycleId);
  }

  /** The loop over the active circles of sendSubmissionReminder. */
  method RemindEach(db: Database, circles: seq<Id>, cycleId: string) returns (pushes: seq<Push>)
    requires db.Valid()
    ensures pushes == ReminderPushes(db.users, db.preferences, db.memberships, db.submissions, db.nextId, circles, cycleId)
  {
    pushes := [];
    for i := 0 to |circles|
      invariant pushes == ReminderPushes(db.users, db.preferences, db.memberships, db.submissions, db.nextId, circles[..i], cycleId)
    {
      PrefixSnoc(circles, i);
      ReminderPushesSnoc(db.users, db.preferences, db.memberships, db.submissions, db.nextId, circles[..i], circles[i], cycleId);
      var nonSubmitters := NonSubmitters(db.memberships, db.submissions, db.nextId, circles[i], cycleId);
      var playerIds := CollectPlayers(db, nonSubmitters, SubmissionReminders);
      if |playerIds| > 0 {
        pushes := pushes + [Push(circles[i], playerIds)];
      }
    }
    PrefixFull(circles);
  }

  lemma ReminderPushesSnoc(users: map<Id, User>, prefs: map<Id, Preferences>, ms: map<Id, Membership>,
                           subs: map<Id, Submission>, n: nat, cs: seq<Id>, c: Id, cycleId: string)
    requires Below(ms, n) && Below(subs, n)
    ensures ReminderPushes(users, prefs, ms, subs, n, cs + [c], cycleId) ==
            ReminderPushes(users, prefs, ms, subs, n, cs, cycleId) + PushIfAny(c, ReminderPlayers(users, prefs, ms, subs, n, c, cycleId))
  {
    var cs' := cs + [c];
    assert cs' != [] && cs'[..|cs'| - 1] == cs && cs'[|cs'| - 1] == c;
  }

  /**
   * Every reminder push goes to one of the listed circles, and each of its player ids
   * belongs to an active member of that circle who has not submitted for the cycle and
   * accepts reminders.
   */
  lemma {:induction false} ReminderPushesEligible(users: map<Id, User>, prefs: map<Id, Preferences>, ms: map<Id, Membership>,
                                                  subs: map<Id, Submission>, n: nat, cs: seq<Id>, cycleId: string,
                                                  p: Push, x: string)
    requires Below(ms, n) && Below(subs, n)
    requires p in ReminderPushes(users, prefs, ms, subs, n, cs, cycleId) && x in p.playerIds
    ensures p.circleId in cs
    ensures exists k :: k in ms && ActiveIn(ms[k], p.circleId) && !HasSubmitted(subs, ms[k].userId, p.circleId, cycleId) &&
                        PlayerFor(users, prefs, n, ms[k].userId, SubmissionReminders, x)
    decreases |cs|
  {
    var init := cs[..|cs| - 1];
    var c := cs[|cs| - 1];
    if p in ReminderPushes(users, prefs, ms, subs, n, init, cycleId) {
      ReminderPushesEligible(users, prefs, ms, subs, n, init, cycleId, p, x);
    } else {
      assert p == Push(c, ReminderPlayers(users, prefs, ms, subs, n, c, cycleId));
      var ids := NonSubmitters(ms, subs, n, c, cycleId);
      PlayersMembers(users, prefs, n, ms, ids, SubmissionReminders);
      var i :| 0 <= i < |ids| && PlayerFor(users, prefs, n, ms[ids[i]].userId, SubmissionReminders, x);
      assert ids[i] in ids;
    }
  }

  /**
   * sendNewsletterReadyNotification: the player ids of the circle's active members who
   * accept newsletter-ready pushes; cleanupAdminReminders for the cycle is scheduled after it.
   */
  method NewsletterReadyPlayers(db: Database, circleId: Id) returns (playerIds: seq<string>)
    requires db.Valid()
    ensures playerIds == Players(db.users, db.preferences, db.nextId, db.memberships,
                                 ActiveMembers(db.memberships, db.nextId, circleId), NewsletterReady)
  {
    var members := ActiveMembers(db.memberships, db.nextId, circleId);
    playerIds := CollectPlayers(db, members, NewsletterReady);
  }

  // ---------------------------------------------------------------------------------
  // Cleanup

  function CircleCycle(circleId: Id, cycleId: string): AdminReminder -> bool
  {
    (r: AdminReminder) => r.circleId == circleId && r.cycleId == cycleId
  }

  /**
   * cleanupAdminReminders: deletes every reminder of the circle and cycle, from any admin,
   * and keeps the others as they were.
   */
  method CleanupAdminReminders(db: Database, circleId: Id, cycleId: string)
    requires db.Valid()
    modifies db`reminders
    ensures db.Valid()
    ensures forall k :: k in db.reminders <==>
              k in old(db.reminders) && !(old(db.reminders)[k].circleId == circleId && old(db.reminders)[k].cycleId == cycleId)
    ensures forall k :: k in db.reminders ==> db.reminders[k] == old(db.reminders)[k]
    ensures RemindersCapped(old(db.reminders)) ==> RemindersCapped(db.reminders)
  {
    ghost var before := db.reminders;
    var reminders := Rows(db.reminders, db.nextId, CircleCycle(circleId, cycleId));
    DeleteEach(db, reminders);
    if RemindersCapped(before) {
      DeleteKeepsCap(before, db.reminders);
    }
  }

  /** The loop that deletes the documents ids of the reminders table, one by one. */
  method DeleteEach(db: Database, ids: seq<Id>)
    requires db.Valid()
    modifies db`reminders
    ensures db.Valid()
    ensures forall k :: k in db.reminders <==> k in old(db.reminders) && k !in ids
    ensures forall k :: k in db.reminders ==> db.reminders[k] == old(db.reminders)[k]
  {
    ghost var before := db.reminders;
    for i := 0 to |ids|
      invariant db.Valid()
      invariant forall k :: k in db.reminders <==> k in before && k !in ids[..i]
      invariant forall k :: k in db.reminders ==> db.reminders[k] == before[k]
    {
      PrefixSnoc(ids, i);
      db.DeleteAdminReminder(ids[i]);
    }
    assert ids[..|ids|] == ids;
  }

  /** After cleanup no admin has a reminder left for the circle and cycle. */
  lemma CleanupClearsCounts(before: map<Id, AdminReminder>, after: map<Id, AdminReminder>, n: nat,
                            circleId: Id, cycleId: string, adminUserId: Id)
    requires Below(after, n)
    requires forall k :: k in after ==> k in before && !(before[k].circleId == circleId && before[k].cycleId == cycleId)
    requires forall k :: k in after ==> after[k] == before[k]
    ensures ReminderCount(after, n, adminUserId, circleId, cycleId) == 0
  {
    assert Matching(after, ReminderKey(adminUserId, circleId, cycleId)) == {};
  }
}
