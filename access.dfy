/**
 * The membership checks the Convex functions run before doing anything for the caller.
 * Each looks up the caller's membership in the circle with the by_user_circle index and
 * `.first()`, i.e. the earliest membership row of that user in that circle.
 */
module Access {
  import opened Wrappers
  import opened Store

  const NotAMember := "Not a member of this circle"
  const NotAnAdmin := "Not an admin of this circle"
  const AdminRequired := "Admin access required"

  predicate InCircle(m: Membership, userId: Id, circleId: Id)
  {
    m.userId == userId && m.circleId == circleId
  }

  /** The earliest membership of the user in the circle, if there is any. */
  function MembershipOf(ms: map<Id, Membership>, n: nat, userId: Id, circleId: Id): (r: Option<Id>)
    ensures r.Some? ==> r.value in ms && r.value < n && InCircle(ms[r.value], userId, circleId)
    ensures r.Some? ==> forall k :: k in ms && k < r.value ==> !InCircle(ms[k], userId, circleId)
    ensures r.None? <==> forall k :: k in ms && k < n ==> !InCircle(ms[k], userId, circleId)
  {
    var rows := Rows(ms, n, (m: Membership) => InCircle(m, userId, circleId));
    if |rows| == 0 then None
    else
      assert rows[0] in rows;
      assert forall k :: k in ms && k < rows[0] && InCircle(ms[k], userId, circleId) ==> k in rows;
      Some(rows[0])
  }

  /**
   * requireMembership: the caller must have a membership row in the circle, and the
   * earliest one must not have been left.
   */
  function RequireMember(ms: map<Id, Membership>, n: nat, userId: Id, circleId: Id): (r: Result<Id>)
    ensures r.Ok? ==> r.value in ms && InCircle(ms[r.value], userId, circleId) && !HasLeft(ms[r.value])
    ensures r.Ok? ==> MembershipOf(ms, n, userId, circleId) == Some(r.value)
    ensures r.Err? ==> r.msg == NotAMember
    ensures r.Err? <==> MembershipOf(ms, n, userId, circleId).None? ||
                        HasLeft(ms[MembershipOf(ms, n, userId, circleId).value])
  {
    match MembershipOf(ms, n, userId, circleId)
    case None => Err(NotAMember)
    case Some(k) => if HasLeft(ms[k]) then Err(NotAMember) else Ok(k)
  }

  /** The simpler check of some queries: any membership row at all, left or not. */
  function RequireAnyMembership(ms: map<Id, Membership>, n: nat, userId: Id, circleId: Id): (r: Result<Id>)
    ensures r.Ok? ==> r.value in ms && InCircle(ms[r.value], userId, circleId)
    ensures r.Err? ==> r.msg == NotAMember
    ensures r.Err? <==> forall k :: k in ms && k < n ==> !InCircle(ms[k], userId, circleId)
  {
    match MembershipOf(ms, n, userId, circleId)
    case None => Err(NotAMember)
    case Some(k) => Ok(k)
  }

  /**
   * requireAdmin of the notification functions: not a member (no row, or left) comes
   * first, then a member who is not an admin.
   */
  function RequireAdminMember(ms: map<Id, Membership>, n: nat, userId: Id, circleId: Id): (r: Result<Id>)
    ensures r.Ok? ==> r.value in ms && InCircle(ms[r.value], userId, circleId) &&
                      !HasLeft(ms[r.value]) && ms[r.value].role == Admin
    ensures RequireMember(ms, n, userId, circleId).Err? ==> r == Err(NotAMember)
    ensures RequireMember(ms, n, userId, circleId).Ok? ==>
              (r.Ok? <==> ms[RequireMember(ms, n, userId, circleId).value].role == Admin)
    ensures r.Err? ==> r.msg == NotAMember || r.msg == NotAnAdmin
  {
    match RequireMember(ms, n, userId, circleId)
    case Err(e) => Err(e)
    case Ok(k) => if ms[k].role != Admin then Err(NotAnAdmin) else Ok(k)
  }

  /**
   * requireAdmin of the circle functions: requireMembership, then the role; a member who
   * is not an admin gets "Admin access required".
   */
  function RequireCircleAdmin(ms: map<Id, Membership>, n: nat, userId: Id, circleId: Id): (r: Result<Id>)
    ensures r.Ok? ==> r.value in ms && InCircle(ms[r.value], userId, circleId) &&
                      !HasLeft(ms[r.value]) && ms[r.value].role == Admin
    ensures RequireMember(ms, n, userId, circleId).Err? ==> r == Err(NotAMember)
    ensures RequireMember(ms, n, userId, circleId).Ok? ==>
              (r.Ok? <==> ms[RequireMember(ms, n, userId, circleId).value].role == Admin)
    ensures r.Err? ==> r.msg == NotAMember || r.msg == AdminRequired
  {
    match RequireMember(ms, n, userId, circleId)
    case Err(e) => Err(e)
    case Ok(k) => if ms[k].role != Admin then Err(AdminRequired) else Ok(k)
  }

  /**
   * requireAdmin of the prompt functions: the earliest membership row must have the admin
   * role; whether it has been left is not looked at.
   */
  function RequirePromptAdmin(ms: map<Id, Membership>, n: nat, userId: Id, circleId: Id): (r: Result<Id>)
    ensures r.Ok? ==> r.value in ms && InCircle(ms[r.value], userId, circleId) && ms[r.value].role == Admin
    ensures r.Err? ==> r.msg == AdminRequired
    ensures r.Err? <==> MembershipOf(ms, n, userId, circleId).None? ||
                        ms[MembershipOf(ms, n, userId, circleId).value].role != Admin
  {
    match MembershipOf(ms, n, userId, circleId)
    case None => Err(AdminRequired)
    case Some(k) => if ms[k].role != Admin then Err(AdminRequired) else Ok(k)
  }

  /** A user has at most one membership row per circle (joinCircle and createCircle keep it so). */
  ghost predicate OneMembershipPerCircle(ms: map<Id, Membership>)
  {
    forall a, b :: a in ms && b in ms && ms[a].userId == ms[b].userId && ms[a].circleId == ms[b].circleId ==> a == b
  }

  /**
   * When memberships are unique, requireMembership admits exactly the users with an active
   * membership row in the circle.
   */
  lemma RequireMemberIffActive(ms: map<Id, Membership>, n: nat, userId: Id, circleId: Id)
    requires OneMembershipPerCircle(ms) && Below(ms, n)
    ensures RequireMember(ms, n, userId, circleId).Ok? <==>
              exists k :: k in ms && InCircle(ms[k], userId, circleId) && !HasLeft(ms[k])
  {
    if k :| k in ms && InCircle(ms[k], userId, circleId) && !HasLeft(ms[k]) {
      var f := MembershipOf(ms, n, userId, circleId);
      assert f.Some?;
      assert f.value == k;
    }
  }

  /**
   * Patching a membership without moving it to another user or circle leaves every
   * user's earliest membership row in every circle where it was.
   */
  lemma MembershipOfPatch(ms: map<Id, Membership>, n: nat, userId: Id, circleId: Id, k: Id, x: Membership)
    requires k in ms && x.userId == ms[k].userId && x.circleId == ms[k].circleId
    ensures MembershipOf(ms[k := x], n, userId, circleId) == MembershipOf(ms, n, userId, circleId)
  {
    var ms' := ms[k := x];
    assert forall j :: j in ms' <==> j in ms;
    assert forall j :: j in ms ==> (InCircle(ms'[j], userId, circleId) <==> InCircle(ms[j], userId, circleId));
    var a := MembershipOf(ms, n, userId, circleId);
    var b := MembershipOf(ms', n, userId, circleId);
    if a.Some? {
      assert b.Some?;
      assert !(b.value < a.value);
      assert !(a.value < b.value);
    } else {
      assert b.None?;
    }
  }

  /**
   * Inserting a membership under the next id leaves every user's earliest membership row in
   * every circle where it was, except that the new row becomes the earliest of its user in
   * its circle when they had none.
   */
  lemma MembershipOfInsert(ms: map<Id, Membership>, n: nat, userId: Id, circleId: Id, x: Membership)
    requires Below(ms, n)
    ensures MembershipOf(ms[n := x], n + 1, userId, circleId) ==
              if InCircle(x, userId, circleId) && MembershipOf(ms, n, userId, circleId).None? then Some(n)
              else MembershipOf(ms, n, userId, circleId)
  {
    if MembershipOf(ms, n, userId, circleId).Some? {
      MembershipOfInsertKept(ms, n, userId, circleId, x);
    } else {
      MembershipOfInsertFirst(ms, n, userId, circleId, x);
    }
  }

  lemma MembershipOfInsertKept(ms: map<Id, Membership>, n: nat, userId: Id, circleId: Id, x: Membership)
    requires Below(ms, n) && MembershipOf(ms, n, userId, circleId).Some?
    ensures MembershipOf(ms[n := x], n + 1, userId, circleId) == MembershipOf(ms, n, userId, circleId)
  {
    var a := MembershipOf(ms, n, userId, circleId).value;
    var ms' := ms[n := x];
    var b := MembershipOf(ms', n + 1, userId, circleId);
    assert a in ms' && a < n + 1 && InCircle(ms'[a], userId, circleId);
    assert b.Some?;
    assert !(a < b.value);
    assert b.value in ms' && InCircle(ms'[b.value], userId, circleId);
    assert b.value < n ==> b.value in ms && ms'[b.value] == ms[b.value];
    assert !(b.value < a);
  }

  lemma MembershipOfInsertFirst(ms: map<Id, Membership>, n: nat, userId: Id, circleId: Id, x: Membership)
    requires forall k :: k in ms ==> k < n && !InCircle(ms[k], userId, circleId)
    ensures MembershipOf(ms[n := x], n + 1, userId, circleId) == if InCircle(x, userId, circleId) then Some(n) else None
  {
    var b := MembershipOf(ms[n := x], n + 1, userId, circleId);
    if InCircle(x, userId, circleId) {
      assert n in ms[n := x];
      assert b.Some?;
    }
  }
}
