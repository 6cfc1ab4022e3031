/**
 * The internal queries the newsletter senders read their data through: who receives a
 * circle's email, which circles are active, and the patch that records how many emails went
 * out.
 */
module NewsletterHelpers {
  import opened Wrappers
  import opened Store

  const NewsletterNotFound := "Newsletter not found"
  const CircleNotFound := "Circle not found"

  // ---------------------------------------------------------------------------------
  // Recipients

  /** A membership that receives email: not left, not blocked and not unsubscribed. */
  predicate Subscribed(m: Membership)
  {
    !HasLeft(m) && !m.blocked && !m.emailUnsubscribed
  }

  function SubscribedIn(circleId: Id): Membership -> bool
  {
    (m: Membership) => m.circleId == circleId && Subscribed(m)
  }

  /** The circle's subscribed memberships, in the order of the by_circle index. */
  function SubscribedMembers(ms: map<Id, Membership>, n: nat, circleId: Id): (r: seq<Id>)
    requires Below(ms, n)
    ensures forall k :: k in r <==> k in ms && ms[k].circleId == circleId && Subscribed(ms[k])
    ensures forall i, j :: 0 <= i < j < |r| ==> r[i] < r[j]
  {
    Rows(ms, n, SubscribedIn(circleId))
  }

  datatype Recipient = Recipient(email: string, name: Option<string>)

  /** x is the recipient entry of membership m: its user exists and has a non-empty email. */
  predicate RecipientOf(users: map<Id, User>, m: Membership, x: Recipient)
  {
    m.userId in users && users[m.userId].email != "" &&
    x == Recipient(users[m.userId].email, users[m.userId].name)
  }

  /** The entry one membership contributes: one recipient, or none when the user has no email. */
  function Resolve(users: map<Id, User>, m: Membership): seq<Recipient>
  {
    if m.userId in users && users[m.userId].email != "" then
      [Recipient(users[m.userId].email, users[m.userId].name)]
    else []
  }

  /** The recipients of the memberships ids, in their order. */
  function RecipientList(users: map<Id, User>, ms: map<Id, Membership>, ids: seq<Id>): seq<Recipient>
    requires forall i :: 0 <= i < |ids| ==> ids[i] in ms
  {
    if ids == [] then []
    else RecipientList(users, ms, ids[..|ids| - 1]) + Resolve(users, ms[ids[|ids| - 1]])
  }

  /**
   * Each membership contributes at most one recipient, and a recipient is on the list
   * exactly when it is the entry of one of the memberships.
   */
  lemma {:induction false} RecipientListMembers(users: map<Id, User>, ms: map<Id, Membership>, ids: seq<Id>)
    requires forall i :: 0 <= i < |ids| ==> ids[i] in ms
    ensures |RecipientList(users, ms, ids)| <= |ids|
    ensures forall x :: x in RecipientList(users, ms, ids) <==>
              exists i :: 0 <= i < |ids| && RecipientOf(users, ms[ids[i]], x)
    decreases |ids|
  {
    if ids != [] {
      var init := ids[..|ids| - 1];
      var last := ids[|ids| - 1];
      RecipientListMembers(users, ms, init);
      forall x
        ensures x in RecipientList(users, ms, ids) <==>
                exists i :: 0 <= i < |ids| && RecipientOf(users, ms[ids[i]], x)
      {
        if x in RecipientList(users, ms, init) {
          var i :| 0 <= i < |init| && RecipientOf(users, ms[init[i]], x);
          assert ids[i] == init[i];
        }
        if i :| 0 <= i < |ids| && RecipientOf(users, ms[ids[i]], x) {
          if i < |init| {
            assert init[i] == ids[i];
          } else {
            assert x in Resolve(users, ms[last]);
          }
        }
      }
    }
  }

  /** The loop that resolves membership ids to recipients, pushing one entry per user with an email. */
  method ResolveRecipients(db: Database, ids: seq<Id>) returns (recipients: seq<Recipient>)
    requires forall i :: 0 <= i < |ids| ==> ids[i] in db.memberships
    ensures recipients == RecipientList(db.users, db.memberships, ids)
  {
    recipients := [];
    for i := 0 to |ids|
      invariant recipients == RecipientList(db.users, db.memberships, ids[..i])
    {
      assert ids[..i + 1][..i] == ids[..i];
      var m := db.memberships[ids[i]];
      if m.userId in db.users && db.users[m.userId].email != "" {
        var user := db.users[m.userId];
        recipients := recipients + [Recipient(user.email, user.name)];
      }
    }
    assert ids[..|ids|] == ids;
  }

  /** What the senders need: the circle's name, its icon and the recipients. */
  datatype SendData = SendData(circleName: string, iconImageId: Option<Id>, recipients: seq<Recipient>)

  /** The send data of a circle that exists. */
  function CircleData(circles: map<Id, Circle>, users: map<Id, User>, ms: map<Id, Membership>, n: nat, circleId: Id): SendData
    requires circleId in circles && Below(ms, n)
  {
    SendData(circles[circleId].name, circles[circleId].iconImageId,
             RecipientList(users, ms, SubscribedMembers(ms, n, circleId)))
  }

  /** getCircleSendData: the circle must exist; its recipients follow the subscription rule. */
  method GetCircleSendData(db: Database, circleId: Id) returns (r: Result<SendData>)
    requires db.Valid()
    ensures circleId !in db.circles ==> r == Err(CircleNotFound)
    ensures circleId in db.circles ==> r == Ok(CircleData(db.circles, db.users, db.memberships, db.nextId, circleId))
  {
    if circleId !in db.circles {
      return Err(CircleNotFound);
    }
    var circle := db.circles[circleId];
    var active := SubscribedMembers(db.memberships, db.nextId, circleId);
    var recipients := ResolveRecipients(db, active);
    r := Ok(SendData(circle.name, circle.iconImageId, recipients));
  }

  /**
   * getNewsletterSendData: the newsletter must exist, then its circle; the recipients are
   * those of the newsletter's circle.
   */
  method GetNewsletterSendData(db: Database, newsletterId: Id) returns (r: Result<(Newsletter, SendData)>)
    requires db.Valid()
    ensures newsletterId !in db.newsletters ==> r == Err(NewsletterNotFound)
    ensures newsletterId in db.newsletters && db.newsletters[newsletterId].circleId !in db.circles ==>
              r == Err(CircleNotFound)
    ensures newsletterId in db.newsletters && db.newsletters[newsletterId].circleId in db.circles ==>
              r == Ok((db.newsletters[newsletterId],
                       CircleData(db.circles, db.users, db.memberships, db.nextId, db.newsletters[newsletterId].circleId)))
  {
    if newsletterId !in db.newsletters {
      return Err(NewsletterNotFound);
    }
    var newsletter := db.newsletters[newsletterId];
    var data := GetCircleSendData(db, newsletter.circleId);
    match data
    case Err(e) => r := Err(e);
    case Ok(d) => r := Ok((newsletter, d));
  }

  /** Every recipient of a circle's email belongs to a subscribed member of that circle. */
  lemma RecipientsAreSubscribed(circles: map<Id, Circle>, users: map<Id, User>, ms: map<Id, Membership>, n: nat,
                                circleId: Id, x: Recipient)
    requires circleId in circles && Below(ms, n)
    ensures x in CircleData(circles, users, ms, n, circleId).recipients <==>
              exists k :: k in ms && ms[k].circleId == circleId && Subscribed(ms[k]) && RecipientOf(users, ms[k], x)
  {
    var ids := SubscribedMembers(ms, n, circleId);
    RecipientListMembers(users, ms, ids);
    if k :| k in ms && ms[k].circleId == circleId && Subscribed(ms[k]) && RecipientOf(users, ms[k], x) {
      var i :| 0 <= i < |ids| && ids[i] == k;
    }
  }

  // ---------------------------------------------------------------------------------
  // Circles and the recipient count

  function NotArchived(): Circle -> bool
  {
    (c: Circle) => !Truthy(c.archivedAt)
  }

  /** getAllActiveCircles: the circles without archivedAt, in scan order. */
  function ActiveCircles(circles: map<Id, Circle>, n: nat): (r: seq<Id>)
    requires Below(circles, n)
    ensures forall k :: k in r <==> k in circles && !Truthy(circles[k].archivedAt)
    ensures forall i, j :: 0 <= i < j < |r| ==> r[i] < r[j]
  {
    Rows(circles, n, NotArchived())
  }

  /** updateRecipientCount: patches recipientCount and nothing else. */
  method UpdateRecipientCount(db: Database, newsletterId: Id, count: int) returns (r: Outcome)
    requires db.Valid()
    modifies db`newsletters
    ensures db.Valid()
    ensures newsletterId !in old(db.newsletters) ==> r == Fail(NonexistentDocument) && db.newsletters == old(db.newsletters)
    ensures newsletterId in old(db.newsletters) ==>
              r == Pass &&
              db.newsletters == old(db.newsletters)[newsletterId := old(db.newsletters)[newsletterId].(recipientCount := Some(count))]
  {
    if newsletterId !in db.newsletters {
      return Fail(NonexistentDocument);
    }
    var n := db.newsletters[newsletterId];
    db.SetNewsletter(newsletterId, n.(recipientCount := Some(count)));
    r := Pass;
  }
}
