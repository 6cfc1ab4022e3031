/**
 * The newsletter queries and the email subscription switch (convex/newsletters.ts). Each
 * query first requires the caller's active membership in the circle.
 */
module Newsletters {
  import opened Wrappers
  import opened Store
  import opened Sorting
  import Access
  import opened NewsletterReads
  import NewsletterHelpers

  /** The circle fields getNewsletterById shows (storage ids stand for the URLs they resolve to). */
  datatype CircleInfo = CircleInfo(name: string, iconImageId: Option<Id>, coverImageId: Option<Id>, timezone: string)

  datatype NewsletterView = NewsletterView(id: Id, newsletter: Newsletter, circle: Option<CircleInfo>, isRead: bool)

  /**
   * getNewsletterById: null for a missing id; otherwise the caller must be an active member
   * of the newsletter's circle, and gets the newsletter with its circle and read status.
   */
  function GetNewsletterById(ms: map<Id, Membership>, circles: map<Id, Circle>, ns: map<Id, Newsletter>,
                             marks: map<Id, NewsletterRead>, n: nat, caller: Id, newsletterId: Id): (r: Result<Option<NewsletterView>>)
    ensures newsletterId !in ns ==> r == Ok(None)
    ensures newsletterId in ns && Access.RequireMember(ms, n, caller, ns[newsletterId].circleId).Err? ==>
              r == Err(Access.NotAMember)
    ensures newsletterId in ns && Access.RequireMember(ms, n, caller, ns[newsletterId].circleId).Ok? ==>
              r.Ok? && r.value.Some? && r.value.value.id == newsletterId &&
              r.value.value.newsletter == ns[newsletterId] &&
              (r.value.value.circle.Some? <==> ns[newsletterId].circleId in circles) &&
              (r.value.value.isRead <==> IsRead(marks, n, caller, newsletterId))
  {
    if newsletterId !in ns then Ok(None)
    else
      var nl := ns[newsletterId];
      match Access.RequireMember(ms, n, caller, nl.circleId)
      case Err(e) => Err(e)
      case Ok(_) =>
        var info := if nl.circleId in circles then
                      var c := circles[nl.circleId];
                      Some(CircleInfo(c.name, c.iconImageId, c.coverImageId, c.timezone))
                    else None;
        Ok(Some(NewsletterView(newsletterId, nl, info, IsRead(marks, n, caller, newsletterId))))
  }

  // ---------------------------------------------------------------------------------
  // The archive

  /** `publishedAt ?? createdAt`: the publication time, or the creation time when there is none. */
  function Stamp(nl: Newsletter): int
  {
    if nl.publishedAt.Some? then nl.publishedAt.value else nl.createdAt
  }

  /**
   * The sort key of the comparator `(a, b) => stamp(b) - stamp(a)`: sorting ascending by the
   * negated stamp puts the newest first.
   */
  function NewestFirst(ns: map<Id, Newsletter>): Id -> int
  {
    (k: Id) => if k in ns then 0 - Stamp(ns[k]) else 0
  }

  function PublishedIn(circleId: Id): Newsletter -> bool
  {
    (nl: Newsletter) => nl.circleId == circleId && IsPublished(nl)
  }

  /** The circle's published newsletters, newest first. */
  function Archive(ns: map<Id, Newsletter>, n: nat, circleId: Id): (r: seq<Id>)
    ensures forall k :: k in r <==> k in ns && k < n && ns[k].circleId == circleId && IsPublished(ns[k])
  {
    var published := Rows(ns, n, PublishedIn(circleId));
    SortByKeyMembers(published, NewestFirst(ns));
    SortByKey(published, NewestFirst(ns))
  }

  /**
   * getNewslettersByCircle: the caller must be an active member; then exactly the circle's
   * published newsletters, each once, newest first by publishedAt falling back to createdAt,
   * each with the caller's read status.
   */
  function GetNewslettersByCircle(ms: map<Id, Membership>, ns: map<Id, Newsletter>, marks: map<Id, NewsletterRead>,
                                  n: nat, caller: Id, circleId: Id): (r: Result<seq<NewsletterItem>>)
    requires Below(ns, n)
    ensures Access.RequireMember(ms, n, caller, circleId).Err? ==> r == Err(Access.NotAMember)
    ensures Access.RequireMember(ms, n, caller, circleId).Ok? ==> r.Ok?
    ensures r.Ok? ==> forall k :: k in ListedIds(r.value) <==> k in ns && ns[k].circleId == circleId && IsPublished(ns[k])
    ensures r.Ok? ==> forall i, j :: 0 <= i < j < |r.value| ==> r.value[i].id != r.value[j].id
    ensures r.Ok? ==> forall i, j :: 0 <= i < j < |r.value| ==>
              Stamp(r.value[i].newsletter) >= Stamp(r.value[j].newsletter)
    ensures r.Ok? ==> forall i :: 0 <= i < |r.value| ==>
              r.value[i].id in ns && r.value[i].newsletter == ns[r.value[i].id] &&
              r.value[i].isRead == IsRead(marks, n, caller, r.value[i].id)
  {
    match Access.RequireMember(ms, n, caller, circleId)
    case Err(e) => Err(e)
    case Ok(_) =>
      var ids := Archive(ns, n, circleId);
      ArchiveFacts(ns, n, circleId);
      Ok(Items(ns, marks, n, caller, ids))
  }

  /** The archive lists no newsletter twice and is ordered newest first. */
  lemma ArchiveFacts(ns: map<Id, Newsletter>, n: nat, circleId: Id)
    ensures var r := Archive(ns, n, circleId);
            (forall i :: 0 <= i < |r| ==> r[i] in ns) &&
            (forall i, j :: 0 <= i < j < |r| ==> r[i] != r[j]) &&
            (forall i, j :: 0 <= i < j < |r| ==> Stamp(ns[r[i]]) >= Stamp(ns[r[j]]))
  {
    var published := Rows(ns, n, PublishedIn(circleId));
    var key := NewestFirst(ns);
    var r := SortByKey(published, key);
    SortedDistinct(published, r);
    assert forall i :: 0 <= i < |r| ==> r[i] in ns by {
      SortByKeyMembers(published, key);
      assert forall i :: 0 <= i < |r| ==> r[i] in r;
    }
    assert forall i, j :: 0 <= i < j < |r| ==> key(r[i]) <= key(r[j]);
  }

  // ---------------------------------------------------------------------------------
  // The latest newsletter

  function InCircle(circleId: Id): Newsletter -> bool
  {
    (nl: Newsletter) => nl.circleId == circleId
  }

  /** `.order('desc').first()` on by_circle: the circle's most recently created newsletter. */
  function LatestOf(ns: map<Id, Newsletter>, n: nat, circleId: Id): (r: Option<Id>)
    ensures r.Some? ==> r.value in ns && r.value < n && ns[r.value].circleId == circleId
    ensures r.Some? ==> forall k :: k in ns && k < n && ns[k].circleId == circleId ==> k <= r.value
    ensures r.None? <==> forall k :: k in ns && k < n ==> ns[k].circleId != circleId
  {
    var rows := Rows(ns, n, InCircle(circleId));
    if |rows| == 0 then None
    else
      var last := rows[|rows| - 1];
      assert last in rows;
      assert forall k :: k in rows ==> k <= last by {
        forall k | k in rows ensures k <= last {
          var i :| 0 <= i < |rows| && rows[i] == k;
          assert i == |rows| - 1 || rows[i] < rows[|rows| - 1];
        }
      }
      Some(last)
  }

  /**
   * getLatestNewsletter: the caller must be an active member; null when the circle has no
   * newsletter or its most recent one is not published, even when an older one is.
   */
  function GetLatestNewsletter(ms: map<Id, Membership>, ns: map<Id, Newsletter>, marks: map<Id, NewsletterRead>,
                               n: nat, caller: Id, circleId: Id): (r: Result<Option<NewsletterItem>>)
    ensures Access.RequireMember(ms, n, caller, circleId).Err? ==> r == Err(Access.NotAMember)
    ensures Access.RequireMember(ms, n, caller, circleId).Ok? ==>
              r.Ok? &&
              (r.value.None? <==> LatestOf(ns, n, circleId).None? || !IsPublished(ns[LatestOf(ns, n, circleId).value]))
    ensures r.Ok? && r.value.Some? ==>
              var x := r.value.value;
              Some(x.id) == LatestOf(ns, n, circleId) && x.newsletter == ns[x.id] && IsPublished(x.newsletter) &&
              (x.isRead <==> IsRead(marks, n, caller, x.id))
  {
    match Access.RequireMember(ms, n, caller, circleId)
    case Err(e) => Err(e)
    case Ok(_) =>
      match LatestOf(ns, n, circleId)
      case None => Ok(None)
      case Some(k) =>
        if !IsPublished(ns[k]) then Ok(None)
        else Ok(Some(NewsletterItem(k, ns[k], IsRead(marks, n, caller, k))))
  }

  /** A newer unpublished newsletter hides an older published one. */
  lemma LatestUnpublishedHidesOlder(ms: map<Id, Membership>, ns: map<Id, Newsletter>, marks: map<Id, NewsletterRead>,
                                    n: nat, caller: Id, circleId: Id, older: Id, newer: Id)
    requires Below(ns, n)
    requires Access.RequireMember(ms, n, caller, circleId).Ok?
    requires older in ns && newer in ns && older < newer
    requires ns[older].circleId == circleId && ns[newer].circleId == circleId
    requires IsPublished(ns[older])
    requires forall k :: k in ns && ns[k].circleId == circleId ==> k <= newer
    requires !IsPublished(ns[newer])
    ensures GetLatestNewsletter(ms, ns, marks, n, caller, circleId) == Ok(None)
  {
    var l := LatestOf(ns, n, circleId);
    assert l.Some?;
    assert l.value == newer;
  }

  // ---------------------------------------------------------------------------------
  // Unsubscribe and resubscribe

  /**
   * unsubscribeFromEmail (on = true) and resubscribeToEmail (on = false): the caller must be
   * an active member; the membership's emailUnsubscribed flag is set or cleared and nothing
   * else changes.
   */
  method SetEmailUnsubscribed(db: Database, caller: Id, circleId: Id, on: bool) returns (r: Outcome)
    requires db.Valid()
    modifies db`memberships
    ensures db.Valid()
    ensures Access.RequireMember(old(db.memberships), db.nextId, caller, circleId).Err? ==>
              r == Fail(Access.NotAMember) && db.memberships == old(db.memberships)
    ensures Access.RequireMember(old(db.memberships), db.nextId, caller, circleId).Ok? ==>
              var k := Access.RequireMember(old(db.memberships), db.nextId, caller, circleId).value;
              r == Pass && db.memberships == WithUnsubscribed(old(db.memberships), k, on)
  {
    var membership := Access.RequireMember(db.memberships, db.nextId, caller, circleId);
    if membership.Err? {
      return Fail(membership.msg);
    }
    var k := membership.value;
    db.SetMembership(k, db.memberships[k].(emailUnsubscribed := on));
    assert db.memberships == WithUnsubscribed(old(db.memberships), k, on);
    r := Pass;
  }

  /** The patched membership: only its emailUnsubscribed flag differs. */
  function WithUnsubscribed(ms: map<Id, Membership>, k: Id, on: bool): map<Id, Membership>
    requires k in ms
  {
    ms[k := ms[k].(emailUnsubscribed := on)]
  }

  /**
   * The switch can be flipped again: after the patch the same membership is still the
   * caller's active one, and setting the flag twice is setting it once.
   */
  lemma SwitchKeepsMembership(ms: map<Id, Membership>, n: nat, caller: Id, circleId: Id, on: bool)
    requires Access.RequireMember(ms, n, caller, circleId).Ok?
    ensures var k := Access.RequireMember(ms, n, caller, circleId).value;
            var ms' := WithUnsubscribed(ms, k, on);
            Access.RequireMember(ms', n, caller, circleId) == Ok(k) && WithUnsubscribed(ms', k, on) == ms'
  {
    var k := Access.RequireMember(ms, n, caller, circleId).value;
    Access.MembershipOfPatch(ms, n, caller, circleId, k, ms[k].(emailUnsubscribed := on));
  }

  /** An unsubscribed member is not among the recipients of the circle's newsletter email. */
  lemma UnsubscribedGetsNoEmail(ms: map<Id, Membership>, n: nat, k: Id, circleId: Id)
    requires Below(ms, n) && k in ms
    ensures k !in NewsletterHelpers.SubscribedMembers(WithUnsubscribed(ms, k, true), n, circleId)
  {
  }
}
