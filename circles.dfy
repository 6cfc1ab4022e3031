/**
 * Circles (convex/circles.ts): creating a circle with its admin membership and default
 * prompts, editing it, regenerating its invite code, and the queries that show circles to
 * their members and to people holding an invite link.
 */
module Circles {
  import opened Wrappers
  import opened Store
  import Access
  import Prompts
  import NewsletterReads
  import Newsletters

  const NameLengthError := "Circle name must be 3-50 characters"

  /** The prompts every new circle starts with, in this order. */
  const DefaultPrompts: seq<string> := [
    "What did you do this month?",
    "One Good Thing",
    "On Your Mind",
    "What are you listening to?"
  ]

  /** A circle name is 3 to 50 characters long. */
  predicate ValidName(name: string)
  {
    3 <= |name| <= 50
  }

  /** `u?.name ?? u?.email ?? 'Unknown'`: a missing user is 'Unknown'; a user without a name shows the email. */
  function DisplayName(users: map<Id, User>, userId: Id): string
  {
    if userId !in users then "Unknown"
    else if users[userId].name.Some? then users[userId].name.value
    else users[userId].email
  }

  // ---------------------------------------------------------------------------------
  // createCircle

  /** The circle createCircle inserts: no archivedAt, the creator as admin. */
  function NewCircle(name: string, iconImageId: Option<Id>, coverImageId: Option<Id>, description: Option<string>,
                     caller: Id, inviteCode: string, timezone: string, now: int): Circle
  {
    Circle(name, iconImageId, coverImageId, description, caller, inviteCode, timezone, now, now, None)
  }

  /** The creator's membership: an admin who has not left, is not blocked and is subscribed. */
  function AdminMembership(caller: Id, circleId: Id, now: int): Membership
  {
    Membership(caller, circleId, Admin, now, None, false, false)
  }

  /** The first count default prompts of circle circleId, under the ids start, start + 1, ... */
  function DefaultPromptRows(start: Id, circleId: Id, now: int, count: nat): (r: map<Id, Prompt>)
    requires count <= |DefaultPrompts|
    ensures forall k :: k in r <==> start <= k < start + count
    ensures forall k :: k in r ==> r[k] == Prompt(circleId, DefaultPrompts[k - start], k - start, true, now)
  {
    if count == 0 then map[]
    else DefaultPromptRows(start, circleId, now, count - 1)[start + count - 1 :=
           Prompt(circleId, DefaultPrompts[count - 1], count - 1, true, now)]
  }

  /**
   * createCircle: a name of 3 to 50 characters, then the circle, the creator's admin
   * membership and the four default prompts with orders 0 to 3. The invite code, which the
   * source draws with crypto.randomUUID, is an input.
   */
  method CreateCircle(db: Database, caller: Id, name: string, iconImageId: Option<Id>, coverImageId: Option<Id>,
                      description: Option<string>, timezone: string, inviteCode: string, now: int) returns (r: Result<Id>)
    requires db.Valid()
    modifies db`circles, db`memberships, db`prompts, db`nextId
    ensures db.Valid()
    ensures !ValidName(name) ==>
              r == Err(NameLengthError) && db.circles == old(db.circles) && db.memberships == old(db.memberships) &&
              db.prompts == old(db.prompts) && db.nextId == old(db.nextId)
    ensures ValidName(name) ==>
              var c := old(db.nextId);
              r == Ok(c) &&
              db.circles == old(db.circles)[c := NewCircle(name, iconImageId, coverImageId, description, caller, inviteCode, timezone, now)] &&
              db.memberships == old(db.memberships)[c + 1 := AdminMembership(caller, c, now)] &&
              db.prompts == old(db.prompts) + DefaultPromptRows(c + 2, c, now, 4) &&
              db.nextId == c + 6
  {
    if !ValidName(name) {
      return Err(NameLengthError);
    }
    var circleId := db.InsertCircle(NewCircle(name, iconImageId, coverImageId, description, caller, inviteCode, timezone, now));
    var _ := db.InsertMembership(AdminMembership(caller, circleId, now));
    InsertDefaultPrompts(db, circleId, now);
    r := Ok(circleId);
  }

  /** The loop over DEFAULT_PROMPTS: one insert per prompt, with its index as order. */
  method InsertDefaultPrompts(db: Database, circleId: Id, now: int)
    requires db.Valid()
    modifies db`prompts, db`nextId
    ensures db.Valid()
    ensures db.prompts == old(db.prompts) + DefaultPromptRows(old(db.nextId), circleId, now, |DefaultPrompts|)
    ensures db.nextId == old(db.nextId) + |DefaultPrompts|
  {
    var start := db.nextId;
    for i := 0 to |DefaultPrompts|
      invariant db.Valid()
      invariant db.nextId == start + i
      invariant db.prompts == old(db.prompts) + DefaultPromptRows(start, circleId, now, i)
    {
      ghost var before := db.prompts;
      var id := db.InsertPrompt(Prompt(circleId, DefaultPrompts[i], i, true, now));
      assert db.prompts == before[start + i := Prompt(circleId, DefaultPrompts[i], i, true, now)];
      DefaultPromptRowsStep(old(db.prompts), start, circleId, now, i);
    }
  }

  lemma DefaultPromptRowsStep(prompts: map<Id, Prompt>, start: Id, circleId: Id, now: int, i: nat)
    requires i < |DefaultPrompts|
    ensures (prompts + DefaultPromptRows(start, circleId, now, i))[start + i := Prompt(circleId, DefaultPrompts[i], i, true, now)] ==
            prompts + DefaultPromptRows(start, circleId, now, i + 1)
  {
  }

  /**
   * After createCircle the creator passes the circle's admin check, and the circle's
   * prompts, as getCirclePrompts lists them, are the four defaults in their order.
   */
  lemma CreatedCircleFacts(ms: map<Id, Membership>, prompts: map<Id, Prompt>, caller: Id, c: Id, now: int)
    requires forall k :: k in ms ==> ms[k].circleId != c
    requires forall k :: k in prompts ==> prompts[k].circleId != c
    ensures var ms' := ms[c + 1 := AdminMembership(caller, c, now)];
            var prompts' := prompts + DefaultPromptRows(c + 2, c, now, 4);
            Access.RequireCircleAdmin(ms', c + 6, caller, c) == Ok(c + 1) &&
            Prompts.GetCirclePrompts(ms', prompts', c + 6, caller, c) == Ok([c + 2, c + 3, c + 4, c + 5])
  {
    CreatorIsAdmin(ms, caller, c, now);
    DefaultPromptsInOrder(prompts, c + 2, c, now);
  }

  lemma CreatorIsAdmin(ms: map<Id, Membership>, caller: Id, c: Id, now: int)
    requires forall k :: k in ms ==> ms[k].circleId != c
    ensures Access.RequireCircleAdmin(ms[c + 1 := AdminMembership(caller, c, now)], c + 6, caller, c) == Ok(c + 1)
  {
    var ms' := ms[c + 1 := AdminMembership(caller, c, now)];
    var f := Access.MembershipOf(ms', c + 6, caller, c);
    assert f.Some? by {
      assert Access.InCircle(ms'[c + 1], caller, c);
    }
    assert f.value == c + 1;
  }

  lemma DefaultPromptsInOrder(prompts: map<Id, Prompt>, b: Id, c: Id, now: int)
    requires forall k :: k in prompts ==> prompts[k].circleId != c
    ensures Prompts.ActiveInOrder(prompts + DefaultPromptRows(b, c, now, 4), b + 4, c) == [b, b + 1, b + 2, b + 3]
  {
    var after := prompts + DefaultPromptRows(b, c, now, 4);
    DefaultsAfterCreate(prompts, b, c, now);
    FourActiveInOrder(after, b, c);
  }

  /** A list of exactly the active prompts b to b + 3, sorted by an order equal to id - b, is [b, b + 1, b + 2, b + 3]. */
  lemma FourActiveInOrder(after: map<Id, Prompt>, b: Id, c: Id)
    requires forall k :: k in after && k < b + 4 && after[k].circleId == c && after[k].active <==> b <= k < b + 4
    requires forall k :: b <= k < b + 4 ==> k in after && after[k].order == k - b
    ensures Prompts.ActiveInOrder(after, b + 4, c) == [b, b + 1, b + 2, b + 3]
  {
    FourSortedIds(after, Prompts.ActiveInOrder(after, b + 4, c), b, c);
  }

  /** A list holding exactly the ids b to b + 3, sorted by an order equal to id - b, is [b, b + 1, b + 2, b + 3]. */
  lemma FourSortedIds(after: map<Id, Prompt>, r: seq<Id>, b: Id, c: Id)
    requires Prompts.ListsActiveInOrder(after, b + 4, c, r)
    requires forall k :: k in after && k < b + 4 && after[k].circleId == c && after[k].active <==> b <= k < b + 4
    requires forall k :: b <= k < b + 4 ==> k in after && after[k].order == k - b
    ensures r == [b, b + 1, b + 2, b + 3]
  {
    assert forall k :: k in r <==> b <= k < b + 4;
    forall i, j | 0 <= i < j < |r|
      ensures r[i] < r[j]
    {
      assert r[i] in r && r[j] in r;
    }
    AscendingRange(r, b, 4);
    FourInARow(r, b);
  }

  lemma FourInARow(r: seq<Id>, b: Id)
    requires |r| == 4 && forall i :: 0 <= i < 4 ==> r[i] == b + i
    ensures r == [b, b + 1, b + 2, b + 3]
  {
  }

  /** In the new circle's prompts, ids b to b + 3 are exactly its prompts, all active, each with order id - b. */
  lemma DefaultsAfterCreate(prompts: map<Id, Prompt>, b: Id, c: Id, now: int)
    requires forall k :: k in prompts ==> prompts[k].circleId != c
    ensures var after := prompts + DefaultPromptRows(b, c, now, 4);
            forall k :: k in after && k < b + 4 && after[k].circleId == c && after[k].active <==> b <= k < b + 4
    ensures var after := prompts + DefaultPromptRows(b, c, now, 4);
            forall k :: b <= k < b + 4 ==> k in after && after[k].order == k - b
  {
  }

  // ---------------------------------------------------------------------------------
  // updateCircle and regenerateInviteCode

  /** The patch of updateCircle: each supplied field replaces the stored one; updatedAt becomes now. */
  function Updated(c: Circle, name: Option<string>, iconImageId: Option<Id>, coverImageId: Option<Id>,
                   description: Option<string>, now: int): (r: Circle)
    ensures r.(name := c.name, iconImageId := c.iconImageId, coverImageId := c.coverImageId,
               description := c.description, updatedAt := c.updatedAt) == c
    ensures r.updatedAt == now
    ensures r.name == (if name.Some? then name.value else c.name)
    ensures r.iconImageId == (if iconImageId.Some? then iconImageId else c.iconImageId)
    ensures r.coverImageId == (if coverImageId.Some? then coverImageId else c.coverImageId)
    ensures r.description == (if description.Some? then description else c.description)
  {
    var c1 := if name.Some? then c.(name := name.value) else c;
    var c2 := if iconImageId.Some? then c1.(iconImageId := iconImageId) else c1;
    var c3 := if coverImageId.Some? then c2.(coverImageId := coverImageId) else c2;
    var c4 := if description.Some? then c3.(description := description) else c3;
    c4.(updatedAt := now)
  }

  /**
   * updateCircle: the caller must be an active admin; a supplied name must be 3 to 50
   * characters; then only the supplied fields and updatedAt change.
   */
  method UpdateCircle(db: Database, caller: Id, circleId: Id, name: Option<string>, iconImageId: Option<Id>,
                      coverImageId: Option<Id>, description: Option<string>, now: int) returns (r: Result<Id>)
    requires db.Valid()
    modifies db`circles
    ensures db.Valid()
    ensures Access.RequireCircleAdmin(db.memberships, db.nextId, caller, circleId).Err? ==>
              r == Err(Access.RequireCircleAdmin(db.memberships, db.nextId, caller, circleId).msg)
    ensures (Access.RequireCircleAdmin(db.memberships, db.nextId, caller, circleId).Ok? &&
             name.Some? && !ValidName(name.value)) ==> r == Err(NameLengthError)
    ensures (Access.RequireCircleAdmin(db.memberships, db.nextId, caller, circleId).Ok? &&
             (name.Some? ==> ValidName(name.value)) && circleId !in old(db.circles)) ==> r == Err(NonexistentDocument)
    ensures r.Err? ==> db.circles == old(db.circles)
    ensures r.Ok? ==>
              r.value == circleId && circleId in old(db.circles) &&
              Access.RequireCircleAdmin(db.memberships, db.nextId, caller, circleId).Ok? &&
              (name.Some? ==> ValidName(name.value)) &&
              db.circles == old(db.circles)[circleId := Updated(old(db.circles)[circleId], name, iconImageId, coverImageId, description, now)]
  {
    var admin := Access.RequireCircleAdmin(db.memberships, db.nextId, caller, circleId);
    if admin.Err? {
      return Err(admin.msg);
    }
    if name.Some? && !ValidName(name.value) {
      return Err(NameLengthError);
    }
    if circleId !in db.circles {
      return Err(NonexistentDocument);
    }
    db.SetCircle(circleId, Updated(db.circles[circleId], name, iconImageId, coverImageId, description, now));
    r := Ok(circleId);
  }

  /**
   * regenerateInviteCode: the caller must be an active admin; the circle gets the new code
   * (an input here) and updatedAt, and the old code no longer finds it.
   */
  method RegenerateInviteCode(db: Database, caller: Id, circleId: Id, code: string, now: int) returns (r: Result<string>)
    requires db.Valid()
    modifies db`circles
    ensures db.Valid()
    ensures Access.RequireCircleAdmin(db.memberships, db.nextId, caller, circleId).Err? ==>
              r == Err(Access.RequireCircleAdmin(db.memberships, db.nextId, caller, circleId).msg)
    ensures Access.RequireCircleAdmin(db.memberships, db.nextId, caller, circleId).Ok? && circleId !in old(db.circles) ==>
              r == Err(NonexistentDocument)
    ensures r.Err? ==> db.circles == old(db.circles)
    ensures r.Ok? ==>
              r.value == code && circleId in old(db.circles) &&
              Access.RequireCircleAdmin(db.memberships, db.nextId, caller, circleId).Ok? &&
              db.circles == old(db.circles)[circleId := old(db.circles)[circleId].(inviteCode := code, updatedAt := now)]
  {
    var admin := Access.RequireCircleAdmin(db.memberships, db.nextId, caller, circleId);
    if admin.Err? {
      return Err(admin.msg);
    }
    if circleId !in db.circles {
      return Err(NonexistentDocument);
    }
    db.SetCircle(circleId, db.circles[circleId].(inviteCode := code, updatedAt := now));
    r := Ok(code);
  }

  // ---------------------------------------------------------------------------------
  // Counting members

  function MemberOf(circleId: Id): Membership -> bool
  {
    (m: Membership) => m.circleId == circleId
  }

  function ActiveMemberOf(circleId: Id): Membership -> bool
  {
    (m: Membership) => m.circleId == circleId && !HasLeft(m)
  }

  function NotLeft(): Membership -> bool
  {
    (m: Membership) => !HasLeft(m)
  }

  /** The circle's members who have not left, in joining order. */
  function ActiveMembers(ms: map<Id, Membership>, n: nat, circleId: Id): (r: seq<Id>)
    ensures forall k :: k in r <==> k in ms && k < n && ms[k].circleId == circleId && !HasLeft(ms[k])
    ensures forall i, j :: 0 <= i < j < |r| ==> r[i] < r[j]
  {
    Rows(ms, n, ActiveMemberOf(circleId))
  }

  /**
   * The `.take(200)` batch of getCirclesByUser, without the members who left: the active
   * members among the circle's first 200 membership rows.
   */
  function BatchMembers(ms: map<Id, Membership>, n: nat, circleId: Id): (r: seq<Id>)
    ensures |r| <= 200
    ensures forall k :: k in r ==> k in ms && k < n && ms[k].circleId == circleId && !HasLeft(ms[k])
    ensures forall i, j :: 0 <= i < j < |r| ==> r[i] < r[j]
  {
    var rows := Rows(ms, n, MemberOf(circleId));
    var batch := Take(rows, 200);
    var r := Where(ms, batch, NotLeft());
    WhereAscending(ms, batch, NotLeft());
    assert forall k :: k in r ==> k in rows && !HasLeft(ms[k]);
    r
  }

  /** With at most 200 membership rows the batch holds every active member of the circle. */
  lemma BatchIsAllWhenSmall(ms: map<Id, Membership>, n: nat, circleId: Id)
    requires |Rows(ms, n, MemberOf(circleId))| <= 200
    ensures BatchMembers(ms, n, circleId) == ActiveMembers(ms, n, circleId)
  {
    var rows := Rows(ms, n, MemberOf(circleId));
    var b := BatchMembers(ms, n, circleId);
    assert b == Where(ms, rows, NotLeft());
    AscendingUnique(b, ActiveMembers(ms, n, circleId));
  }

  // ---------------------------------------------------------------------------------
  // getCirclesByUser

  /** One entry of getCirclesByUser (the icon URL is left out). */
  datatype CircleSummary = CircleSummary(circleId: Id, circle: Circle, role: Role, memberCount: nat,
                                         memberNames: seq<string>, hasUnread: bool)

  function OfUser(userId: Id): Membership -> bool
  {
    (m: Membership) => m.userId == userId && !HasLeft(m)
  }

  /** The names shown on a circle's card: the first five members of the batch. */
  function MemberNames(users: map<Id, User>, ms: map<Id, Membership>, batch: seq<Id>): (r: seq<string>)
    requires forall i :: 0 <= i < |batch| ==> batch[i] in ms
    ensures |r| == if |batch| <= 5 then |batch| else 5
    ensures forall i :: 0 <= i < |r| ==> r[i] == DisplayName(users, ms[batch[i]].userId)
  {
    var first := Take(batch, 5);
    seq(|first|, i requires 0 <= i < |first| => DisplayName(users, ms[first[i]].userId))
  }

  /** hasUnread: the circle's latest newsletter, published or not, has no read record of the user. */
  predicate HasUnread(ns: map<Id, Newsletter>, marks: map<Id, NewsletterRead>, n: nat, userId: Id, circleId: Id)
  {
    var latest := Newsletters.LatestOf(ns, n, circleId);
    latest.Some? && !NewsletterReads.IsRead(marks, n, userId, latest.value)
  }

  /** The card of one membership, or none when its circle is gone or archived. */
  function SummaryOf(users: map<Id, User>, circles: map<Id, Circle>, ms: map<Id, Membership>, ns: map<Id, Newsletter>,
                     marks: map<Id, NewsletterRead>, n: nat, userId: Id, k: Id): (r: seq<CircleSummary>)
    ensures |r| <= 1
  {
    if k !in ms then []
    else
      var m := ms[k];
      if m.circleId !in circles || Truthy(circles[m.circleId].archivedAt) then []
      else
        var batch := BatchMembers(ms, n, m.circleId);
        [CircleSummary(m.circleId, circles[m.circleId], m.role, |batch|, MemberNames(users, ms, batch),
                       HasUnread(ns, marks, n, userId, m.circleId))]
  }

  function CardsOf(users: map<Id, User>, circles: map<Id, Circle>, ms: map<Id, Membership>, ns: map<Id, Newsletter>,
                   marks: map<Id, NewsletterRead>, n: nat, userId: Id): Id -> seq<CircleSummary>
  {
    (k: Id) => SummaryOf(users, circles, ms, ns, marks, n, userId, k)
  }

  /**
   * getCirclesByUser: nothing for an unauthenticated or not yet stored caller (None);
   * otherwise one card per membership of the caller that has not been left and whose circle
   * exists and is not archived, in the order of the memberships.
   */
  function GetCirclesByUser(users: map<Id, User>, circles: map<Id, Circle>, ms: map<Id, Membership>,
                            ns: map<Id, Newsletter>, marks: map<Id, NewsletterRead>, n: nat,
                            caller: Option<Id>): (r: seq<CircleSummary>)
    ensures caller.None? ==> r == []
  {
    if caller.None? then []
    else FlatMap(Rows(ms, n, OfUser(caller.value)), CardsOf(users, circles, ms, ns, marks, n, caller.value))
  }

  /** What one card says about the membership it comes from. */
  lemma SummaryOfFacts(users: map<Id, User>, circles: map<Id, Circle>, ms: map<Id, Membership>, ns: map<Id, Newsletter>,
                       marks: map<Id, NewsletterRead>, n: nat, userId: Id, k: Id, x: CircleSummary)
    requires x in SummaryOf(users, circles, ms, ns, marks, n, userId, k)
    ensures k in ms && ms[k].circleId == x.circleId && ms[k].role == x.role
    ensures x.circleId in circles && x.circle == circles[x.circleId] && !Truthy(x.circle.archivedAt)
    ensures |x.memberNames| <= 5 && |x.memberNames| <= x.memberCount <= 200
    ensures x.hasUnread <==> Newsletters.LatestOf(ns, n, x.circleId).Some? &&
                             !NewsletterReads.IsRead(marks, n, userId, Newsletters.LatestOf(ns, n, x.circleId).value)
  {
  }

  /**
   * What a card of getCirclesByUser says: it comes from an active membership of the caller
   * in a live circle, names at most five members, counts at most 200, and is unread exactly
   * when the circle's latest newsletter has no read record of the caller.
   */
  lemma CirclesByUserSound(users: map<Id, User>, circles: map<Id, Circle>, ms: map<Id, Membership>,
                           ns: map<Id, Newsletter>, marks: map<Id, NewsletterRead>, n: nat, caller: Id, x: CircleSummary)
    requires x in GetCirclesByUser(users, circles, ms, ns, marks, n, Some(caller))
    ensures exists k :: k in ms && k < n && ms[k].userId == caller && !HasLeft(ms[k]) && ms[k].circleId == x.circleId &&
                        ms[k].role == x.role
    ensures x.circleId in circles && x.circle == circles[x.circleId] && !Truthy(x.circle.archivedAt)
    ensures |x.memberNames| <= 5 && |x.memberNames| <= x.memberCount <= 200
    ensures x.hasUnread <==> Newsletters.LatestOf(ns, n, x.circleId).Some? &&
                             !NewsletterReads.IsRead(marks, n, caller, Newsletters.LatestOf(ns, n, x.circleId).value)
  {
    var ks := Rows(ms, n, OfUser(caller));
    var f := CardsOf(users, circles, ms, ns, marks, n, caller);
    var i := FlatMapSource(ks, f, x);
    SummaryOfFacts(users, circles, ms, ns, marks, n, caller, ks[i], x);
  }

  /** Every active membership of the caller in a live circle has its card, with the membership's role. */
  lemma CirclesByUserComplete(users: map<Id, User>, circles: map<Id, Circle>, ms: map<Id, Membership>,
                              ns: map<Id, Newsletter>, marks: map<Id, NewsletterRead>, n: nat, caller: Id, k: Id)
    requires k in ms && k < n && ms[k].userId == caller && !HasLeft(ms[k])
    requires ms[k].circleId in circles && !Truthy(circles[ms[k].circleId].archivedAt)
    ensures exists x :: x in GetCirclesByUser(users, circles, ms, ns, marks, n, Some(caller)) &&
                        x.circleId == ms[k].circleId && x.role == ms[k].role
  {
    var ks := Rows(ms, n, OfUser(caller));
    var f := CardsOf(users, circles, ms, ns, marks, n, caller);
    assert k in ks by {
      assert OfUser(caller)(ms[k]);
    }
    var i :| 0 <= i < |ks| && ks[i] == k;
    var cards := SummaryOf(users, circles, ms, ns, marks, n, caller, k);
    SummaryOfLive(users, circles, ms, ns, marks, n, caller, k);
    assert cards[0] in f(ks[i]);
    FlatMapHas(ks, f, i, cards[0]);
  }

  /** A membership in a live circle yields exactly one card, for its circle and with its role. */
  lemma SummaryOfLive(users: map<Id, User>, circles: map<Id, Circle>, ms: map<Id, Membership>, ns: map<Id, Newsletter>,
                      marks: map<Id, NewsletterRead>, n: nat, userId: Id, k: Id)
    requires k in ms && ms[k].circleId in circles && !Truthy(circles[ms[k].circleId].archivedAt)
    ensures var cards := SummaryOf(users, circles, ms, ns, marks, n, userId, k);
            |cards| == 1 && cards[0].circleId == ms[k].circleId && cards[0].role == ms[k].role
  {
  }

  // ---------------------------------------------------------------------------------
  // getCircle and getCircleByInviteCode

  /** What getCircle shows (URLs left out). */
  datatype CircleDetail = CircleDetail(circleId: Id, circle: Circle, memberCount: nat, role: Role, newsletterCount: nat)

  /**
   * getCircle: null unless the caller's earliest membership row in the circle is not left
   * and the circle exists; memberCount counts the members who have not left and
   * newsletterCount the published newsletters, as many as the archive lists.
   */
  function GetCircle(circles: map<Id, Circle>, ms: map<Id, Membership>, ns: map<Id, Newsletter>, n: nat,
                     caller: Id, circleId: Id): (r: Option<CircleDetail>)
    requires Below(ms, n) && Below(ns, n)
    ensures r.Some? <==> Access.RequireMember(ms, n, caller, circleId).Ok? && circleId in circles
    ensures r.Some? ==>
              r.value.circleId == circleId && r.value.circle == circles[circleId] &&
              r.value.role == ms[Access.RequireMember(ms, n, caller, circleId).value].role &&
              r.value.memberCount == |Matching(ms, ActiveMemberOf(circleId))| &&
              r.value.newsletterCount == |Matching(ns, Newsletters.PublishedIn(circleId))| &&
              r.value.newsletterCount == |Newsletters.Archive(ns, n, circleId)|
  {
    match Access.MembershipOf(ms, n, caller, circleId)
    case None => None
    case Some(k) =>
      if HasLeft(ms[k]) || circleId !in circles then None
      else
        RowsCard(ms, n, ActiveMemberOf(circleId));
        RowsCard(ns, n, Newsletters.PublishedIn(circleId));
        Some(CircleDetail(circleId, circles[circleId], |ActiveMembers(ms, n, circleId)|, ms[k].role,
                          |Rows(ns, n, Newsletters.PublishedIn(circleId))|))
  }

  /** What an invite link shows before joining (the icon URL left out). */
  datatype InvitePreview = InvitePreview(circleId: Id, name: string, description: Option<string>, memberCount: nat,
                                         adminName: string)

  function WithCode(code: string): Circle -> bool
  {
    (c: Circle) => c.inviteCode == code
  }

  /** The earliest circle with the invite code, archived or not. */
  function CircleWithCode(circles: map<Id, Circle>, n: nat, code: string): (r: Option<Id>)
    ensures r.Some? ==> r.value in circles && r.value < n && circles[r.value].inviteCode == code
    ensures r.Some? ==> forall k :: k in circles && k < r.value ==> circles[k].inviteCode != code
    ensures r.None? <==> forall k :: k in circles && k < n ==> circles[k].inviteCode != code
  {
    var rows := Rows(circles, n, WithCode(code));
    if |rows| == 0 then None
    else
      assert rows[0] in rows;
      assert forall k :: k in circles && k < rows[0] && circles[k].inviteCode == code ==> k in rows;
      Some(rows[0])
  }

  /**
   * getCircleByInviteCode: null when no circle has the code; otherwise the earliest such
   * circle's name and description, its number of active members and its admin's name.
   * No membership is needed.
   */
  function GetCircleByInviteCode(circles: map<Id, Circle>, users: map<Id, User>, ms: map<Id, Membership>, n: nat,
                                 code: string): (r: Option<InvitePreview>)
    requires Below(ms, n)
    ensures r.None? <==> forall k :: k in circles && k < n ==> circles[k].inviteCode != code
    ensures r.Some? ==>
              Some(r.value.circleId) == CircleWithCode(circles, n, code) &&
              r.value.name == circles[r.value.circleId].name &&
              r.value.description == circles[r.value.circleId].description &&
              r.value.memberCount == |Matching(ms, ActiveMemberOf(r.value.circleId))| &&
              r.value.adminName == DisplayName(users, circles[r.value.circleId].adminId)
  {
    match CircleWithCode(circles, n, code)
    case None => None
    case Some(c) =>
      RowsCard(ms, n, ActiveMemberOf(c));
      Some(InvitePreview(c, circles[c].name, circles[c].description, |ActiveMembers(ms, n, c)|,
                         DisplayName(users, circles[c].adminId)))
  }

  /**
   * The member count on a card agrees with getCircle's and with the invite preview's when
   * the circle has at most 200 membership rows; beyond that the card counts only the batch
   * and never more.
   */
  lemma MemberCountsAgree(ms: map<Id, Membership>, n: nat, circleId: Id)
    requires Below(ms, n)
    ensures |BatchMembers(ms, n, circleId)| <= |Matching(ms, ActiveMemberOf(circleId))|
    ensures |Rows(ms, n, MemberOf(circleId))| <= 200 ==>
              |BatchMembers(ms, n, circleId)| == |Matching(ms, ActiveMemberOf(circleId))|
  {
    RowsCard(ms, n, ActiveMemberOf(circleId));
    var b := BatchMembers(ms, n, circleId);
    var a := ActiveMembers(ms, n, circleId);
    AscendingSubsetLength(b, a);
    if |Rows(ms, n, MemberOf(circleId))| <= 200 {
      BatchIsAllWhenSmall(ms, n, circleId);
    }
  }
}
