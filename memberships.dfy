/**
 * convex/memberships.ts: joining a circle with its invite code, and the two membership
 * queries. A membership row is never removed here; a member who leaves keeps the row with
 * leftAt set.
 */
module Memberships {
  import opened Wrappers
  import opened Store
  import Access
  import Circles

  const InvalidInviteCode := "Invalid invite code"
  const CircleArchived := "This circle has been archived"

  /** What joinCircle returns. */
  datatype Joined = Joined(circleId: Id, alreadyMember: bool)

  /** The row joinCircle inserts: role member, joined now, not left, not blocked, subscribed. */
  function NewMember(userId: Id, circleId: Id, now: int): (r: Membership)
    ensures Access.InCircle(r, userId, circleId) && r.role == Member && !HasLeft(r)
    ensures r.joinedAt == now && !r.blocked && !r.emailUnsubscribed
  {
    Membership(userId, circleId, Member, now, None, false, false)
  }

  /**
   * The membership table after the caller joins circle c: unchanged when they already have
   * a row there, left or not; otherwise with the new row under the next id n.
   */
  function AfterJoin(ms: map<Id, Membership>, n: nat, userId: Id, c: Id, now: int): map<Id, Membership>
  {
    if Access.MembershipOf(ms, n, userId, c).Some? then ms else ms[n := NewMember(userId, c, now)]
  }

  /**
   * joinCircle: the earliest circle with the code, which must exist and must not be
   * archived; a caller who has any membership row in it is told so and nothing is written;
   * otherwise one member row is inserted. The caller's user id is an input.
   */
  method JoinCircle(db: Database, caller: Id, inviteCode: string, now: int) returns (r: Result<Joined>)
    requires db.Valid()
    modifies db`memberships, db`nextId
    ensures db.Valid()
    ensures Circles.CircleWithCode(old(db.circles), old(db.nextId), inviteCode).None? ==>
              r == Err(InvalidInviteCode) && db.memberships == old(db.memberships) && db.nextId == old(db.nextId)
    ensures Circles.CircleWithCode(old(db.circles), old(db.nextId), inviteCode).Some? ==>
              var c := Circles.CircleWithCode(old(db.circles), old(db.nextId), inviteCode).value;
              if Truthy(old(db.circles)[c].archivedAt) then
                r == Err(CircleArchived) && db.memberships == old(db.memberships) && db.nextId == old(db.nextId)
              else if Access.MembershipOf(old(db.memberships), old(db.nextId), caller, c).Some? then
                r == Ok(Joined(c, true)) && db.memberships == old(db.memberships) && db.nextId == old(db.nextId)
              else
                r == Ok(Joined(c, false)) && db.nextId == old(db.nextId) + 1 &&
                db.memberships == AfterJoin(old(db.memberships), old(db.nextId), caller, c, now)
  {
    var found := Circles.CircleWithCode(db.circles, db.nextId, inviteCode);
    if found.None? {
      return Err(InvalidInviteCode);
    }
    var c := found.value;
    if Truthy(db.circles[c].archivedAt) {
      return Err(CircleArchived);
    }
    if Access.MembershipOf(db.memberships, db.nextId, caller, c).Some? {
      return Ok(Joined(c, true));
    }
    var id := db.InsertMembership(NewMember(caller, c, now));
    r := Ok(Joined(c, false));
  }

  /**
   * After a join the caller has a membership row in the circle; every other user's earliest
   * row in every circle, and the caller's in other circles, is where it was.
   */
  lemma JoinGivesMembership(ms: map<Id, Membership>, n: nat, caller: Id, c: Id, now: int, userId: Id, circleId: Id)
    requires Below(ms, n)
    ensures Access.MembershipOf(AfterJoin(ms, n, caller, c, now), n + 1, caller, c).Some?
    ensures userId != caller || circleId != c ==>
              Access.MembershipOf(AfterJoin(ms, n, caller, c, now), n + 1, userId, circleId) ==
              Access.MembershipOf(ms, n, userId, circleId)
  {
    if Access.MembershipOf(ms, n, caller, c).Some? {
      MembershipOfWider(ms, n, caller, c);
      MembershipOfWider(ms, n, userId, circleId);
    } else {
      var x := NewMember(caller, c, now);
      Access.MembershipOfInsert(ms, n, caller, c, x);
      Access.MembershipOfInsert(ms, n, userId, circleId, x);
    }
  }

  /** Looking one id further finds nothing new in a table whose ids are all below n. */
  lemma MembershipOfWider(ms: map<Id, Membership>, n: nat, userId: Id, circleId: Id)
    requires Below(ms, n)
    ensures Access.MembershipOf(ms, n + 1, userId, circleId) == Access.MembershipOf(ms, n, userId, circleId)
  {
    var a := Access.MembershipOf(ms, n, userId, circleId);
    var b := Access.MembershipOf(ms, n + 1, userId, circleId);
    if a.Some? {
      assert b.Some?;
      assert !(b.value < a.value);
    } else {
      assert b.None?;
    }
  }

  /** Joining twice: the second call finds the row of the first and reports alreadyMember. */
  lemma SecondJoinIsAlreadyMember(ms: map<Id, Membership>, n: nat, caller: Id, c: Id, now: int, later: int)
    requires Below(ms, n)
    ensures var ms1 := AfterJoin(ms, n, caller, c, now);
            Below(ms1, n + 1) && AfterJoin(ms1, n + 1, caller, c, later) == ms1
  {
    JoinGivesMembership(ms, n, caller, c, now, caller, c);
  }

  /** joinCircle never creates a second row for a user in a circle. */
  lemma JoinKeepsOneMembership(ms: map<Id, Membership>, n: nat, caller: Id, c: Id, now: int)
    requires Below(ms, n) && Access.OneMembershipPerCircle(ms)
    ensures Access.OneMembershipPerCircle(AfterJoin(ms, n, caller, c, now))
  {
    if Access.MembershipOf(ms, n, caller, c).None? {
      var ms' := ms[n := NewMember(caller, c, now)];
      forall a, b | a in ms' && b in ms' && ms'[a].userId == ms'[b].userId && ms'[a].circleId == ms'[b].circleId
        ensures a == b
      {
        if a == n && b != n {
          assert Access.InCircle(ms[b], caller, c);
        } else if b == n && a != n {
          assert Access.InCircle(ms[a], caller, c);
        }
      }
    }
  }

  /**
   * A member who left keeps their row, so joining again reports alreadyMember and they
   * stay left: requireMembership still refuses them.
   */
  lemma LeftMemberStaysLeft(ms: map<Id, Membership>, n: nat, caller: Id, c: Id, now: int)
    requires Below(ms, n)
    requires Access.MembershipOf(ms, n, caller, c).Some? && HasLeft(ms[Access.MembershipOf(ms, n, caller, c).value])
    ensures AfterJoin(ms, n, caller, c, now) == ms
    ensures Access.RequireMember(AfterJoin(ms, n, caller, c, now), n + 1, caller, c) == Err(Access.NotAMember)
  {
    assert AfterJoin(ms, n, caller, c, now) == ms;
    assert Access.RequireMember(ms, n + 1, caller, c) == Err(Access.NotAMember) by {
      MembershipOfWider(ms, n, caller, c);
    }
  }

  const BlockedFromCircle := "You have been blocked from this circle"

  /** The membership table and the alreadyMember flag of a successful join. */
  datatype JoinOutcome = JoinOutcome(memberships: map<Id, Membership>, alreadyMember: bool)

  /**
   * The join of circle c that the membership tests and the rejoin flow describe: a blocked
   * user is refused; an active member is told they already are one; a member who left gets
   * their row back with leftAt cleared and joinedAt set to now; anyone else gets a new row.
   */
  function IntendedJoin(ms: map<Id, Membership>, n: nat, userId: Id, c: Id, now: int): (r: Result<JoinOutcome>)
    requires Below(ms, n)
    ensures r.Err? <==> Access.MembershipOf(ms, n, userId, c).Some? && ms[Access.MembershipOf(ms, n, userId, c).value].blocked
    ensures r.Err? ==> r.msg == BlockedFromCircle
    ensures r.Ok? ==> (r.value.alreadyMember <==>
                         Access.MembershipOf(ms, n, userId, c).Some? && !HasLeft(ms[Access.MembershipOf(ms, n, userId, c).value]))
    ensures r.Ok? ==> Access.RequireMember(r.value.memberships, n + 1, userId, c).Ok?
    ensures r.Ok? ==> forall k :: k in ms && Some(k) != Access.MembershipOf(ms, n, userId, c) ==>
                        k in r.value.memberships && r.value.memberships[k] == ms[k]
  {
    var m := Access.MembershipOf(ms, n, userId, c);
    if m.None? then
      NewMemberIsNoAdmin(ms, n, userId, c, now);
      Ok(JoinOutcome(ms[n := NewMember(userId, c, now)], false))
    else if ms[m.value].blocked then Err(BlockedFromCircle)
    else if !HasLeft(ms[m.value]) then
      MembershipOfWider(ms, n, userId, c);
      Ok(JoinOutcome(ms, true))
    else
      Rejoin(ms, n, userId, c, m.value, now);
      Ok(JoinOutcome(ms[m.value := Rejoined(ms[m.value], now)], false))
  }

  /** The row of a member who rejoins: not left any more, joined now, otherwise as it was. */
  function Rejoined(x: Membership, now: int): (r: Membership)
    ensures !HasLeft(r) && r.joinedAt == now
    ensures r.userId == x.userId && r.circleId == x.circleId && r.role == x.role && r.blocked == x.blocked
  {
    x.(leftAt := None, joinedAt := now)
  }

  /** After a rejoin, the caller's earliest row in the circle is the rejoined one, and active. */
  lemma Rejoin(ms: map<Id, Membership>, n: nat, userId: Id, c: Id, k: Id, now: int)
    requires Below(ms, n) && Access.MembershipOf(ms, n, userId, c) == Some(k)
    ensures Access.RequireMember(ms[k := Rejoined(ms[k], now)], n + 1, userId, c) == Ok(k)
  {
    var ms' := ms[k := Rejoined(ms[k], now)];
    MembershipOfPatch(ms, n, userId, c, k, Rejoined(ms[k], now));
    assert Below(ms', n);
    MembershipOfWider(ms', n, userId, c);
  }

  /** Rewriting a row without changing its user or circle leaves every earliest row where it was. */
  lemma MembershipOfPatch(ms: map<Id, Membership>, n: nat, userId: Id, c: Id, k: Id, x: Membership)
    requires k in ms && x.userId == ms[k].userId && x.circleId == ms[k].circleId
    ensures Access.MembershipOf(ms[k := x], n, userId, c) == Access.MembershipOf(ms, n, userId, c)
  {
    var ms' := ms[k := x];
    var a := Access.MembershipOf(ms, n, userId, c);
    var b := Access.MembershipOf(ms', n, userId, c);
    assert forall j :: j in ms <==> j in ms';
    assert forall j :: j in ms ==> (Access.InCircle(ms[j], userId, c) <==> Access.InCircle(ms'[j], userId, c));
    if a.Some? {
      assert b.Some?;
      assert !(a.value < b.value) && !(b.value < a.value);
    }
  }

  /**
   * For a caller with no row in the circle, the intended join is the join as written;
   * for one who left and is not blocked, the join as written leaves them outside while
   * the intended join makes them an active member again, with alreadyMember false.
   */
  lemma {:induction false} IntendedJoinVersusAsWritten(ms: map<Id, Membership>, n: nat, userId: Id, c: Id, now: int)
    requires Below(ms, n)
    ensures Access.MembershipOf(ms, n, userId, c).None? ==>
              IntendedJoin(ms, n, userId, c, now) == Ok(JoinOutcome(AfterJoin(ms, n, userId, c, now), false))
    ensures Access.MembershipOf(ms, n, userId, c).Some? && HasLeft(ms[Access.MembershipOf(ms, n, userId, c).value]) &&
            !ms[Access.MembershipOf(ms, n, userId, c).value].blocked ==>
              Access.RequireMember(AfterJoin(ms, n, userId, c, now), n + 1, userId, c).Err? &&
              IntendedJoin(ms, n, userId, c, now).Ok? && !IntendedJoin(ms, n, userId, c, now).value.alreadyMember &&
              Access.RequireMember(IntendedJoin(ms, n, userId, c, now).value.memberships, n + 1, userId, c).Ok?
  {
    var m := Access.MembershipOf(ms, n, userId, c);
    if m.Some? && HasLeft(ms[m.value]) {
      LeftMemberStaysLeft(ms, n, userId, c, now);
    }
  }

  /** A new member joins with role member, so the circle's admin checks refuse them. */
  lemma NewMemberIsNoAdmin(ms: map<Id, Membership>, n: nat, caller: Id, c: Id, now: int)
    requires Below(ms, n) && Access.MembershipOf(ms, n, caller, c).None?
    ensures Access.RequireMember(AfterJoin(ms, n, caller, c, now), n + 1, caller, c) == Ok(n)
    ensures Access.RequireCircleAdmin(AfterJoin(ms, n, caller, c, now), n + 1, caller, c) == Err(Access.AdminRequired)
  {
    Access.MembershipOfInsert(ms, n, caller, c, NewMember(caller, c, now));
  }

  // ---------------------------------------------------------------------------------
  // getCircleMembers and getMembershipCount

  /** One entry of getCircleMembers. */
  datatype MemberEntry = MemberEntry(userId: Id, role: Role, joinedAt: int, name: string, imageUrl: Option<string>)

  /** The entry of a membership row: the user's name, else their email, else "Unknown". */
  function EntryOf(users: map<Id, User>, m: Membership): (r: MemberEntry)
    ensures r.userId == m.userId && r.role == m.role && r.joinedAt == m.joinedAt
    ensures r.name == Circles.DisplayName(users, m.userId)
    ensures r.imageUrl == if m.userId in users then users[m.userId].imageUrl else None
  {
    MemberEntry(m.userId, m.role, m.joinedAt, Circles.DisplayName(users, m.userId),
                if m.userId in users then users[m.userId].imageUrl else None)
  }

  /**
   * getCircleMembers: the caller needs a membership row in the circle, left or not; then
   * the circle's member list.
   */
  function GetCircleMembers(users: map<Id, User>, ms: map<Id, Membership>, n: nat, caller: Id, circleId: Id): (r: Result<seq<MemberEntry>>)
    requires Below(ms, n)
    ensures r.Err? <==> forall k :: k in ms ==> !Access.InCircle(ms[k], caller, circleId)
    ensures r.Err? ==> r.msg == Access.NotAMember
    ensures r.Ok? ==> r.value == CircleEntries(users, ms, n, circleId)
  {
    match Access.RequireAnyMembership(ms, n, caller, circleId)
    case Err(e) => Err(e)
    case Ok(_) => Ok(CircleEntries(users, ms, n, circleId))
  }

  /**
   * One entry per membership row of the circle, left members included, in creation order:
   * as many entries as rows, each the entry of one of them, and every row's entry present;
   * the i-th entry is that of the i-th row in ascending id order.
   */
  function CircleEntries(users: map<Id, User>, ms: map<Id, Membership>, n: nat, circleId: Id): (r: seq<MemberEntry>)
    requires Below(ms, n)
    ensures |r| == |Matching(ms, Circles.MemberOf(circleId))|
    ensures forall i :: 0 <= i < |r| ==> FromCircle(users, ms, circleId, r[i])
    ensures forall k :: k in ms && ms[k].circleId == circleId ==> EntryOf(users, ms[k]) in r
    ensures var rows := Rows(ms, n, Circles.MemberOf(circleId));
            |r| == |rows| && forall i :: 0 <= i < |r| ==> r[i] == EntryOf(users, ms[rows[i]])
  {
    var rows := Rows(ms, n, Circles.MemberOf(circleId));
    RowsCard(ms, n, Circles.MemberOf(circleId));
    assert forall i :: 0 <= i < |rows| ==> rows[i] in ms && ms[rows[i]].circleId == circleId;
    assert forall k :: k in ms && ms[k].circleId == circleId ==> k in rows by {
      assert forall k :: k in ms && ms[k].circleId == circleId ==> Circles.MemberOf(circleId)(ms[k]);
    }
    var r := Entries(users, ms, rows, circleId);
    EntriesOfRows(users, ms, rows, circleId, r);
    r
  }

  /** e is the entry of some membership row of the circle. */
  ghost predicate FromCircle(users: map<Id, User>, ms: map<Id, Membership>, circleId: Id, e: MemberEntry)
  {
    exists k :: k in ms && ms[k].circleId == circleId && e == EntryOf(users, ms[k])
  }

  /** The entries of a list of exactly the circle's rows: each from one of them, every row's present. */
  lemma EntriesOfRows(users: map<Id, User>, ms: map<Id, Membership>, rows: seq<Id>, circleId: Id, r: seq<MemberEntry>)
    requires forall i :: 0 <= i < |rows| ==> rows[i] in ms && ms[rows[i]].circleId == circleId
    requires forall k :: k in ms && ms[k].circleId == circleId ==> k in rows
    requires |r| == |rows| && forall i :: 0 <= i < |r| ==> r[i] == EntryOf(users, ms[rows[i]])
    ensures forall i :: 0 <= i < |r| ==> FromCircle(users, ms, circleId, r[i])
    ensures forall k :: k in ms && ms[k].circleId == circleId ==> EntryOf(users, ms[k]) in r
  {
    forall i | 0 <= i < |r|
      ensures FromCircle(users, ms, circleId, r[i])
    {
      var k := rows[i];
      assert k in ms && ms[k].circleId == circleId && r[i] == EntryOf(users, ms[k]);
    }
    forall k | k in ms && ms[k].circleId == circleId
      ensures EntryOf(users, ms[k]) in r
    {
      var i :| 0 <= i < |rows| && rows[i] == k;
      assert r[i] == EntryOf(users, ms[k]);
    }
  }

  /** The entries of the rows ks of circle circleId, in their order. */
  function Entries(users: map<Id, User>, ms: map<Id, Membership>, ks: seq<Id>, circleId: Id): (r: seq<MemberEntry>)
    requires forall i :: 0 <= i < |ks| ==> ks[i] in ms && ms[ks[i]].circleId == circleId
    ensures |r| == |ks|
    ensures forall i :: 0 <= i < |r| ==> r[i] == EntryOf(users, ms[ks[i]])
  {
    seq(|ks|, i requires 0 <= i < |ks| => EntryOf(users, ms[ks[i]]))
  }

  /** getMembershipCount: every membership row of the circle, left ones included; no membership needed. */
  function GetMembershipCount(ms: map<Id, Membership>, n: nat, circleId: Id): (r: nat)
    requires Below(ms, n)
    ensures r == |Matching(ms, Circles.MemberOf(circleId))|
  {
    RowsCard(ms, n, Circles.MemberOf(circleId));
    |Rows(ms, n, Circles.MemberOf(circleId))|
  }

  /**
   * The count is the length of the member list, and never less than the number of
   * members who have not left, which getCircle reports.
   */
  lemma MembershipCountAgrees(users: map<Id, User>, ms: map<Id, Membership>, n: nat, caller: Id, circleId: Id)
    requires Below(ms, n)
    ensures GetCircleMembers(users, ms, n, caller, circleId).Ok? ==>
              |GetCircleMembers(users, ms, n, caller, circleId).value| == GetMembershipCount(ms, n, circleId)
    ensures |Matching(ms, Circles.ActiveMemberOf(circleId))| <= GetMembershipCount(ms, n, circleId)
  {
    var a, b := Matching(ms, Circles.ActiveMemberOf(circleId)), Matching(ms, Circles.MemberOf(circleId));
    assert a <= b;
    assert b == a + (b - a) && a * (b - a) == {};
  }
}
