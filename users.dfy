/**
 * convex/users.ts: the user documents, keyed by the Clerk id of the account, and the deletion
 * of an account with everything it made. The Clerk identity of the caller (its `subject`) is
 * an input: None when the caller is not signed in.
 */
module Users {
  import opened Wrappers
  import opened Store
  import Cascade

  const NotAuthenticated := "Not authenticated"
  const UserNotFound := "User not found"
  const MustTransferCircles := "You must transfer or archive your circles before deleting your account"

  function WithClerkId(clerkId: string): User -> bool
  {
    (u: User) => u.clerkId == clerkId
  }

  /** The `by_clerk_id` lookup with `.first()`: the earliest user with that Clerk id. */
  function UserByClerkId(users: map<Id, User>, n: nat, clerkId: string): (r: Option<Id>)
    ensures r.Some? ==> r.value in users && r.value < n && users[r.value].clerkId == clerkId
    ensures r.Some? ==> forall k :: k in users && k < r.value ==> users[k].clerkId != clerkId
    ensures r.None? <==> forall k :: k in users && k < n ==> users[k].clerkId != clerkId
  {
    FirstWhere(users, n, WithClerkId(clerkId))
  }

  /** getCurrentUser: null for a caller who is not signed in, otherwise the user of their Clerk id. */
  function GetCurrentUser(users: map<Id, User>, n: nat, identity: Option<string>): (r: Option<Id>)
    ensures identity.None? ==> r.None?
    ensures identity.Some? ==> r == UserByClerkId(users, n, identity.value)
  {
    if identity.None? then None else UserByClerkId(users, n, identity.value)
  }

  /** No two users share a Clerk id. */
  ghost predicate OneUserPerClerkId(users: map<Id, User>)
  {
    forall a, b :: a in users && b in users && users[a].clerkId == users[b].clerkId ==> a == b
  }

  // ---------------------------------------------------------------------------------
  // upsertUser

  /**
   * The patch of an existing user: email, name and image as given (a field given as
   * undefined is removed), updatedAt now; Clerk id, avatar, timezone and createdAt kept.
   */
  function Patched(u: User, email: string, name: Option<string>, imageUrl: Option<string>, now: int): (r: User)
    ensures r.clerkId == u.clerkId && r.createdAt == u.createdAt && r.updatedAt == now
    ensures r.email == email && r.name == name && r.imageUrl == imageUrl
    ensures r.avatarStorageId == u.avatarStorageId && r.timezone == u.timezone
    ensures r.oneSignalPlayerId == u.oneSignalPlayerId
  {
    u.(email := email, name := name, imageUrl := imageUrl, updatedAt := now)
  }

  /** The user upsertUser inserts: createdAt = updatedAt = now, no avatar, timezone or player id. */
  function NewUser(clerkId: string, email: string, name: Option<string>, imageUrl: Option<string>, now: int): (r: User)
    ensures r.clerkId == clerkId && r.email == email && r.name == name && r.imageUrl == imageUrl
    ensures r.createdAt == now && r.updatedAt == now
    ensures r.avatarStorageId.None? && r.timezone.None? && r.oneSignalPlayerId.None?
  {
    User(clerkId, email, name, imageUrl, None, None, None, now, now)
  }

  /** The users table after upsertUser, with n the next id. */
  function AfterUpsert(users: map<Id, User>, n: nat, clerkId: string, email: string, name: Option<string>,
                       imageUrl: Option<string>, now: int): map<Id, User>
  {
    match UserByClerkId(users, n, clerkId)
    case Some(k) => users[k := Patched(users[k], email, name, imageUrl, now)]
    case None => users[n := NewUser(clerkId, email, name, imageUrl, now)]
  }

  /**
   * upsertUser: the user with the Clerk id is patched and its id returned; when there is
   * none, one user is inserted and its new id returned.
   */
  method UpsertUser(db: Database, clerkId: string, email: string, name: Option<string>,
                    imageUrl: Option<string>, now: int) returns (id: Id)
    requires db.Valid()
    modifies db`users, db`nextId
    ensures db.Valid()
    ensures db.users == AfterUpsert(old(db.users), old(db.nextId), clerkId, email, name, imageUrl, now)
    ensures UserByClerkId(old(db.users), old(db.nextId), clerkId).Some? ==>
              id == UserByClerkId(old(db.users), old(db.nextId), clerkId).value && db.nextId == old(db.nextId)
    ensures UserByClerkId(old(db.users), old(db.nextId), clerkId).None? ==>
              id == old(db.nextId) && db.nextId == old(db.nextId) + 1
  {
    var existing := UserByClerkId(db.users, db.nextId, clerkId);
    if existing.Some? {
      id := existing.value;
      db.SetUser(id, Patched(db.users[id], email, name, imageUrl, now));
    } else {
      id := db.InsertUser(NewUser(clerkId, email, name, imageUrl, now));
    }
  }

  /**
   * upsertUser never creates a second user with a Clerk id, and keeps the createdAt of the
   * user it patches.
   */
  lemma UpsertKeepsOneUser(users: map<Id, User>, n: nat, clerkId: string, email: string, name: Option<string>,
                           imageUrl: Option<string>, now: int)
    requires Below(users, n)
    requires OneUserPerClerkId(users)
    ensures var found := UserByClerkId(users, n, clerkId);
            var after := AfterUpsert(users, n, clerkId, email, name, imageUrl, now);
            OneUserPerClerkId(after) &&
            (found.Some? ==> after[found.value].createdAt == users[found.value].createdAt)
  {
    var found := UserByClerkId(users, n, clerkId);
    if found.Some? {
      var k := found.value;
      PatchKeepsOneUser(users, k, Patched(users[k], email, name, imageUrl, now));
    } else {
      InsertKeepsOneUser(users, n, NewUser(clerkId, email, name, imageUrl, now));
    }
  }

  lemma PatchKeepsOneUser(users: map<Id, User>, k: Id, u: User)
    requires k in users && u.clerkId == users[k].clerkId
    requires OneUserPerClerkId(users)
    ensures OneUserPerClerkId(users[k := u])
  {
    var after := users[k := u];
    assert forall a :: a in after ==> a in users && after[a].clerkId == users[a].clerkId;
  }

  lemma InsertKeepsOneUser(users: map<Id, User>, n: nat, u: User)
    requires Below(users, n)
    requires forall k :: k in users && k < n ==> users[k].clerkId != u.clerkId
    requires OneUserPerClerkId(users)
    ensures OneUserPerClerkId(users[n := u])
  {
  }

  /** A second upsert with the same Clerk id finds the user the first returned. */
  lemma UpsertTwiceSameId(users: map<Id, User>, n: nat, clerkId: string, email: string, name: Option<string>,
                          imageUrl: Option<string>, now: int)
    requires Below(users, n)
    ensures var found := UserByClerkId(users, n, clerkId);
            var n' := if found.Some? then n else n + 1;
            UserByClerkId(AfterUpsert(users, n, clerkId, email, name, imageUrl, now), n', clerkId) ==
              Some(if found.Some? then found.value else n)
  {
    var found := UserByClerkId(users, n, clerkId);
    if found.Some? {
      var k := found.value;
      var after: map<Id, User> := users[k := Patched(users[k], email, name, imageUrl, now)];
      FirstWithClerkId(after, n, clerkId, k);
    } else {
      var after: map<Id, User> := users[n := NewUser(clerkId, email, name, imageUrl, now)];
      FirstWithClerkId(after, n + 1, clerkId, n);
    }
  }

  /** The lookup finds the user id when it has the Clerk id and no earlier user has. */
  lemma FirstWithClerkId(users: map<Id, User>, n: nat, clerkId: string, id: Id)
    requires id in users && id < n && users[id].clerkId == clerkId
    requires forall k :: k in users && k < id ==> users[k].clerkId != clerkId
    ensures UserByClerkId(users, n, clerkId) == Some(id)
  {
    FirstWhereIs(users, n, WithClerkId(clerkId), id);
  }

  // ---------------------------------------------------------------------------------
  // deleteUser

  /** deleteUser: the user with the Clerk id is deleted; with none, nothing happens. */
  method DeleteUser(db: Database, clerkId: string)
    requires db.Valid()
    modifies db`users
    ensures db.Valid()
    ensures UserByClerkId(old(db.users), db.nextId, clerkId).None? ==> db.users == old(db.users)
    ensures UserByClerkId(old(db.users), db.nextId, clerkId).Some? ==>
              db.users == old(db.users) - {UserByClerkId(old(db.users), db.nextId, clerkId).value}
  {
    var user := UserByClerkId(db.users, db.nextId, clerkId);
    if user.Some? {
      db.DeleteUser(user.value);
    }
  }

  /** With one user per Clerk id, after deleteUser no user has that Clerk id. */
  lemma DeleteUserRemovesClerkId(users: map<Id, User>, n: nat, clerkId: string)
    requires Below(users, n) && OneUserPerClerkId(users)
    ensures var found := UserByClerkId(users, n, clerkId);
            var after := if found.Some? then users - {found.value} else users;
            UserByClerkId(after, n, clerkId).None? && OneUserPerClerkId(after)
  {
    var found := UserByClerkId(users, n, clerkId);
    var after := if found.Some? then users - {found.value} else users;
    forall k | k in after && k < n
      ensures after[k].clerkId != clerkId
    {
      assert k in users && after[k] == users[k];
    }
  }

  // ---------------------------------------------------------------------------------
  // updateProfile and setTimezone

  /**
   * The patch of updateProfile: updatedAt now; the name when one is given; the image URL and
   * avatar id only when an avatar id is given and its URL resolved.
   */
  function ProfilePatched(u: User, name: Option<string>, avatarStorageId: Option<Id>, url: Option<string>, now: int): (r: User)
    ensures r.updatedAt == now && r.clerkId == u.clerkId && r.email == u.email && r.createdAt == u.createdAt
    ensures r.timezone == u.timezone && r.oneSignalPlayerId == u.oneSignalPlayerId
    ensures r.name == if name.Some? then name else u.name
    ensures avatarStorageId.Some? && url.Some? ==>
              r.imageUrl == url && r.avatarStorageId == avatarStorageId
    ensures !(avatarStorageId.Some? && url.Some?) ==>
              r.imageUrl == u.imageUrl && r.avatarStorageId == u.avatarStorageId
  {
    var named := if name.Some? then u.(name := name) else u;
    var pictured := if avatarStorageId.Some? && url.Some? then named.(imageUrl := url, avatarStorageId := avatarStorageId) else named;
    pictured.(updatedAt := now)
  }

  /** Storage after updateProfile: a new avatar id deletes the one the user had. */
  function StorageAfterProfile(storage: set<Id>, u: User, avatarStorageId: Option<Id>): (r: set<Id>)
    ensures avatarStorageId.Some? && u.avatarStorageId.Some? ==> r == storage - {u.avatarStorageId.value}
    ensures !(avatarStorageId.Some? && u.avatarStorageId.Some?) ==> r == storage
  {
    if avatarStorageId.Some? && u.avatarStorageId.Some? then storage - {u.avatarStorageId.value} else storage
  }

  /** `storage.getUrl`: a URL for a stored file and null for any other; urlOf gives the URL. */
  function GetUrl(storage: set<Id>, urlOf: Id -> string, id: Id): (r: Option<string>)
    ensures r.Some? <==> id in storage
    ensures r.Some? ==> r.value == urlOf(id)
  {
    if id in storage then Some(urlOf(id)) else None
  }

  /** The URL updateProfile reads for the avatar id it was given, if it was given one. */
  function AvatarUrl(storage: set<Id>, urlOf: Id -> string, avatarStorageId: Option<Id>): (r: Option<string>)
    ensures r.Some? <==> avatarStorageId.Some? && avatarStorageId.value in storage
    ensures r.Some? ==> r.value == urlOf(avatarStorageId.value)
  {
    if avatarStorageId.Some? then GetUrl(storage, urlOf, avatarStorageId.value) else None
  }

  /**
   * updateProfile: for a signed-in caller with a user document, the old avatar's file is
   * deleted when a new avatar id is given, and the user is patched by ProfilePatched with the
   * new avatar's URL as read after that deletion; the result is the user's id. Otherwise an
   * error and no change.
   */
  method UpdateProfile(db: Database, identity: Option<string>, name: Option<string>, avatarStorageId: Option<Id>,
                       urlOf: Id -> string, now: int) returns (r: Result<Id>)
    requires db.Valid()
    modifies db`users, db`storage
    ensures db.Valid()
    ensures identity.None? ==> r == Err(NotAuthenticated) && db.users == old(db.users) && db.storage == old(db.storage)
    ensures identity.Some? && UserByClerkId(old(db.users), db.nextId, identity.value).None? ==>
              r == Err(UserNotFound) && db.users == old(db.users) && db.storage == old(db.storage)
    ensures identity.Some? && UserByClerkId(old(db.users), db.nextId, identity.value).Some? ==>
              var id := UserByClerkId(old(db.users), db.nextId, identity.value).value;
              r == Ok(id) &&
              db.storage == StorageAfterProfile(old(db.storage), old(db.users)[id], avatarStorageId) &&
              db.users == old(db.users)[id := ProfilePatched(old(db.users)[id], name, avatarStorageId,
                                                            AvatarUrl(db.storage, urlOf, avatarStorageId), now)]
  {
    if identity.None? {
      return Err(NotAuthenticated);
    }
    var found := UserByClerkId(db.users, db.nextId, identity.value);
    if found.None? {
      return Err(UserNotFound);
    }
    PatchProfile(db, found.value, name, avatarStorageId, urlOf, now);
    r := Ok(found.value);
  }

  /** The writes of updateProfile for the user id. */
  method PatchProfile(db: Database, id: Id, name: Option<string>, avatarStorageId: Option<Id>,
                      urlOf: Id -> string, now: int)
    requires db.Valid() && id in db.users
    modifies db`users, db`storage
    ensures db.Valid()
    ensures db.storage == StorageAfterProfile(old(db.storage), old(db.users)[id], avatarStorageId)
    ensures db.users == old(db.users)[id := ProfilePatched(old(db.users)[id], name, avatarStorageId,
                                                          AvatarUrl(db.storage, urlOf, avatarStorageId), now)]
  {
    var u := db.users[id];
    var url: Option<string> := None;
    if avatarStorageId.Some? {
      if u.avatarStorageId.Some? {
        db.storage := db.storage - {u.avatarStorageId.value};
      }
      url := GetUrl(db.storage, urlOf, avatarStorageId.value);
    }
    db.SetUser(id, ProfilePatched(u, name, avatarStorageId, url, now));
  }

  /**
   * Giving updateProfile the avatar id the user already has deletes that file first, so its
   * URL no longer resolves: the user keeps pointing at the deleted file.
   */
  lemma SameAvatarIsLost(storage: set<Id>, u: User, name: Option<string>, urlOf: Id -> string, now: int)
    requires u.avatarStorageId.Some?
    ensures var s := StorageAfterProfile(storage, u, u.avatarStorageId);
            var url := GetUrl(s, urlOf, u.avatarStorageId.value);
            var after := ProfilePatched(u, name, u.avatarStorageId, url, now);
            url.None? && after.avatarStorageId.value !in s && after.imageUrl == u.imageUrl
  {
  }

  /** setTimezone: the user's timezone and updatedAt, after the same two checks. */
  method SetTimezone(db: Database, identity: Option<string>, timezone: string, now: int) returns (r: Outcome)
    requires db.Valid()
    modifies db`users
    ensures db.Valid()
    ensures identity.None? ==> r == Fail(NotAuthenticated) && db.users == old(db.users)
    ensures identity.Some? && UserByClerkId(old(db.users), db.nextId, identity.value).None? ==>
              r == Fail(UserNotFound) && db.users == old(db.users)
    ensures identity.Some? && UserByClerkId(old(db.users), db.nextId, identity.value).Some? ==>
              var id := UserByClerkId(old(db.users), db.nextId, identity.value).value;
              r == Pass && db.users == old(db.users)[id := old(db.users)[id].(timezone := Some(timezone), updatedAt := now)]
  {
    if identity.None? {
      return Fail(NotAuthenticated);
    }
    var found := UserByClerkId(db.users, db.nextId, identity.value);
    if found.None? {
      return Fail(UserNotFound);
    }
    var id := found.value;
    db.SetUser(id, db.users[id].(timezone := Some(timezone), updatedAt := now));
    r := Pass;
  }

  // ---------------------------------------------------------------------------------
  // deleteAccount

  /** A circle the user administers that is not archived (`!c.archivedAt`). */
  predicate ActiveAdminOf(c: Circle, userId: Id)
  {
    c.adminId == userId && !Truthy(c.archivedAt)
  }

  /** A membership after its user leaves: leftAt now unless it was already set. */
  function Left(m: Membership, now: int): (r: Membership)
    ensures !HasLeft(m) ==> r == m.(leftAt := Some(now))
    ensures HasLeft(m) ==> r == m
  {
    if HasLeft(m) then m else m.(leftAt := Some(now))
  }

  /** The memberships after the user leaves everything: leftAt now where it was not set. */
  function LeaveAll(ms: map<Id, Membership>, userId: Id, now: int): (r: map<Id, Membership>)
    ensures r.Keys == ms.Keys
    ensures forall k :: k in ms && ms[k].userId == userId && !HasLeft(ms[k]) ==> r[k] == ms[k].(leftAt := Some(now))
    ensures forall k :: k in ms && (ms[k].userId != userId || HasLeft(ms[k])) ==> r[k] == ms[k]
  {
    map k | k in ms :: if ms[k].userId == userId then Left(ms[k], now) else ms[k]
  }

  /**
   * After LeaveAll at a non-zero time the user has no membership that is not left; every
   * leftAt the user had is kept, and other users' memberships are untouched.
   */
  lemma LeaveAllLeavesEverything(ms: map<Id, Membership>, userId: Id, now: int)
    requires now != 0
    ensures var r := LeaveAll(ms, userId, now);
            (forall k :: k in r && r[k].userId == userId ==> HasLeft(r[k])) &&
            (forall k :: k in ms && HasLeft(ms[k]) ==> r[k].leftAt == ms[k].leftAt) &&
            (forall k :: k in ms && ms[k].userId != userId ==> r[k] == ms[k])
  {
  }

  function OfUserM(userId: Id): Membership -> bool
  {
    (m: Membership) => m.userId == userId
  }

  function SubmissionUser(): Submission -> Id
  {
    (s: Submission) => s.userId
  }

  function ReadUser(): NewsletterRead -> Id
  {
    (r: NewsletterRead) => r.userId
  }

  function UploadedBy(clerkId: string): Video -> bool
  {
    (v: Video) => v.userId == clerkId
  }

  /** The membership loop of deleteAccount. */
  method LeaveMemberships(db: Database, userId: Id, now: int)
    requires db.Valid()
    modifies db`memberships
    ensures db.Valid()
    ensures db.memberships == LeaveAll(old(db.memberships), userId, now)
  {
    ghost var before := db.memberships;
    var ks := Rows(db.memberships, db.nextId, OfUserM(userId));
    for i := 0 to |ks|
      invariant db.Valid() && db.memberships.Keys == before.Keys
      invariant forall k :: k in before ==> db.memberships[k] == if k in ks[..i] then Left(before[k], now) else before[k]
    {
      var k := ks[i];
      LeaveStep(before, db.memberships, ks, i, now);
      var m := db.memberships[k];
      if !HasLeft(m) {
        db.SetMembership(k, m.(leftAt := Some(now)));
      }
    }
    PrefixFull(ks);
    LeftAreLeaveAll(before, db.memberships, ks, userId, now);
  }

  /** One step of the membership loop: the state after patching ks[i], or keeping it. */
  lemma LeaveStep(before: map<Id, Membership>, cur: map<Id, Membership>, ks: seq<Id>, i: nat, now: int)
    requires i < |ks| && ks[i] in before && cur.Keys == before.Keys
    requires forall a, b :: 0 <= a < b < |ks| ==> ks[a] < ks[b]
    requires forall k :: k in before ==> cur[k] == if k in ks[..i] then Left(before[k], now) else before[k]
    ensures var k := ks[i];
            var next := if HasLeft(cur[k]) then cur else cur[k := cur[k].(leftAt := Some(now))];
            next.Keys == before.Keys &&
            forall j :: j in before ==> next[j] == if j in ks[..i + 1] then Left(before[j], now) else before[j]
  {
    PrefixSnoc(ks, i);
    NotInPrefix(ks, i);
  }

  lemma LeftAreLeaveAll(before: map<Id, Membership>, after: map<Id, Membership>, ks: seq<Id>, userId: Id, now: int)
    requires after.Keys == before.Keys
    requires forall k :: k in before ==> after[k] == if k in ks then Left(before[k], now) else before[k]
    requires forall k :: k in ks <==> k in before && OfUserM(userId)(before[k])
    ensures after == LeaveAll(before, userId, now)
  {
  }

  function AdminOf(userId: Id): Circle -> bool
  {
    (c: Circle) => ActiveAdminOf(c, userId)
  }

  /** The `by_admin` circles of the user that are not archived. */
  function ActiveAdminCircles(circles: map<Id, Circle>, n: nat, userId: Id): (r: seq<Id>)
    ensures forall k :: k in r <==> k in circles && k < n && ActiveAdminOf(circles[k], userId)
  {
    Rows(circles, n, AdminOf(userId))
  }

  /** What deleteAccount can refuse: the caller, then the user, then the circles they administer. */
  function DeleteAccountCheck(users: map<Id, User>, circles: map<Id, Circle>, n: nat, identity: Option<string>): (r: Result<Id>)
    ensures identity.None? ==> r == Err(NotAuthenticated)
    ensures identity.Some? && UserByClerkId(users, n, identity.value).None? ==> r == Err(UserNotFound)
    ensures identity.Some? && UserByClerkId(users, n, identity.value).Some? ==>
              var id := UserByClerkId(users, n, identity.value).value;
              r == if exists k :: k in circles && k < n && ActiveAdminOf(circles[k], id) then Err(MustTransferCircles)
                   else Ok(id)
  {
    if identity.None? then Err(NotAuthenticated)
    else
      var found := UserByClerkId(users, n, identity.value);
      if found.None? then Err(UserNotFound)
      else
        var admin := ActiveAdminCircles(circles, n, found.value);
        if |admin| > 0 then
          assert admin[0] in admin;
          Err(MustTransferCircles)
        else Ok(found.value)
  }

  /**
   * The tables after the account of user id (Clerk id clerkId, avatar file avatar) is
   * erased: the user's memberships are left; their submissions are deleted with the responses
   * of those submissions, those responses' media and the media's files; their videos, found
   * by Clerk id, their avatar file and their read marks are deleted; and the user document.
   */
  ghost predicate AccountErased(id: Id, clerkId: string, avatar: Option<Id>, now: int,
                                users: map<Id, User>, memberships: map<Id, Membership>,
                                submissions: map<Id, Submission>, responses: map<Id, Response>,
                                media: map<Id, Media>, storage: set<Id>, videos: map<Id, Video>,
                                marks: map<Id, NewsletterRead>,
                                users': map<Id, User>, memberships': map<Id, Membership>,
                                submissions': map<Id, Submission>, responses': map<Id, Response>,
                                media': map<Id, Media>, storage': set<Id>, videos': map<Id, Video>,
                                marks': map<Id, NewsletterRead>)
  {
    var subs := Cascade.Children(submissions, SubmissionUser(), {id});
    var rs := Cascade.Children(responses, Cascade.ResponseSubmission(), subs);
    var ms := Cascade.Children(media, Cascade.MediaResponse(), rs);
    users' == users - {id} &&
    memberships' == LeaveAll(memberships, id, now) &&
    submissions' == submissions - subs &&
    responses' == responses - rs &&
    media' == media - ms &&
    storage' == (storage - Cascade.Files(media, ms)) - (if avatar.Some? then {avatar.value} else {}) &&
    videos' == videos - Matching(videos, UploadedBy(clerkId)) &&
    marks' == marks - Cascade.Children(marks, ReadUser(), {id})
  }

  /**
   * deleteAccount: a refused call changes nothing; otherwise the caller's account is erased
   * (AccountErased). The confirmation email it schedules is not part of the model.
   */
  method DeleteAccount(db: Database, identity: Option<string>, now: int) returns (r: Outcome)
    requires db.Valid()
    modifies db`users, db`memberships, db`submissions, db`responses, db`media, db`storage,
             db`videos, db`newsletterReads
    ensures db.Valid()
    ensures DeleteAccountCheck(old(db.users), old(db.circles), db.nextId, identity).Err? ==>
              r == Fail(DeleteAccountCheck(old(db.users), old(db.circles), db.nextId, identity).msg) &&
              db.users == old(db.users) && db.memberships == old(db.memberships) &&
              db.submissions == old(db.submissions) && db.responses == old(db.responses) &&
              db.media == old(db.media) && db.storage == old(db.storage) &&
              db.videos == old(db.videos) && db.newsletterReads == old(db.newsletterReads)
    ensures DeleteAccountCheck(old(db.users), old(db.circles), db.nextId, identity).Ok? ==>
              var id := DeleteAccountCheck(old(db.users), old(db.circles), db.nextId, identity).value;
              r == Pass &&
              AccountErased(id, old(db.users)[id].clerkId, old(db.users)[id].avatarStorageId, now,
                            old(db.users), old(db.memberships), old(db.submissions), old(db.responses),
                            old(db.media), old(db.storage), old(db.videos), old(db.newsletterReads),
                            db.users, db.memberships, db.submissions, db.responses,
                            db.media, db.storage, db.videos, db.newsletterReads)
  {
    var check := DeleteAccountCheck(db.users, db.circles, db.nextId, identity);
    if check.Err? {
      return Fail(check.msg);
    }
    EraseAccount(db, check.value, now);
    r := Pass;
  }

  /** The writes of deleteAccount once its checks have passed, in the order of the source. */
  method EraseAccount(db: Database, id: Id, now: int)
    requires db.Valid() && id in db.users
    modifies db`users, db`memberships, db`submissions, db`responses, db`media, db`storage,
             db`videos, db`newsletterReads
    ensures db.Valid()
    ensures AccountErased(id, old(db.users)[id].clerkId, old(db.users)[id].avatarStorageId, now,
                          old(db.users), old(db.memberships), old(db.submissions), old(db.responses),
                          old(db.media), old(db.storage), old(db.videos), old(db.newsletterReads),
                          db.users, db.memberships, db.submissions, db.responses,
                          db.media, db.storage, db.videos, db.newsletterReads)
  {
    var u := db.users[id];
    LeaveMemberships(db, id, now);
    DeleteSubmissionsOf(db, id);
    DeleteVideosOf(db, u.clerkId);
    if u.avatarStorageId.Some? {
      db.storage := db.storage - {u.avatarStorageId.value};
    }
    DeleteReadsOf(db, id);
    db.DeleteUser(id);
  }

  /** The submissions loop of deleteAccount, with the responses and media under them. */
  method DeleteSubmissionsOf(db: Database, id: Id)
    requires db.Valid()
    modifies db`submissions, db`responses, db`media, db`storage
    ensures db.Valid()
    ensures var subs := Cascade.Children(old(db.submissions), SubmissionUser(), {id});
            var rs := Cascade.Children(old(db.responses), Cascade.ResponseSubmission(), subs);
            var ms := Cascade.Children(old(db.media), Cascade.MediaResponse(), rs);
            db.submissions == old(db.submissions) - subs && db.responses == old(db.responses) - rs &&
            db.media == old(db.media) - ms && db.storage == old(db.storage) - Cascade.Files(old(db.media), ms)
  {
    var ss := Rows(db.submissions, db.nextId, Cascade.ChildOf(SubmissionUser(), id));
    Cascade.RowsChildren(db.submissions, db.nextId, SubmissionUser(), id);
    var deletedResponses, deletedMedia := Cascade.DeleteSubmissions(db, ss);
  }

  /** The videos loop of deleteAccount: every video whose uploader is the Clerk id. */
  method DeleteVideosOf(db: Database, clerkId: string)
    requires db.Valid()
    modifies db`videos
    ensures db.Valid()
    ensures db.videos == old(db.videos) - Matching(old(db.videos), UploadedBy(clerkId))
  {
    var vs := Rows(db.videos, db.nextId, UploadedBy(clerkId));
    Cascade.RowsMatching(db.videos, db.nextId, UploadedBy(clerkId));
    Cascade.DeleteVideos(db, vs);
  }

  /** The read-mark loop of deleteAccount. */
  method DeleteReadsOf(db: Database, id: Id)
    requires db.Valid()
    modifies db`newsletterReads
    ensures db.Valid()
    ensures db.newsletterReads == old(db.newsletterReads) - Cascade.Children(old(db.newsletterReads), ReadUser(), {id})
  {
    var marks := Rows(db.newsletterReads, db.nextId, Cascade.ChildOf(ReadUser(), id));
    Cascade.RowsChildren(db.newsletterReads, db.nextId, ReadUser(), id);
    Cascade.DeleteNewsletterReads(db, marks);
  }

  /**
   * After deleteAccount no submission of the user remains, no response of a deleted
   * submission, and no media of a deleted response, when every media document names an
   * existing response and every response an existing submission.
   */
  lemma DeleteAccountLeavesNoOrphans(submissions: map<Id, Submission>, responses: map<Id, Response>,
                                     media: map<Id, Media>, id: Id)
    requires forall k :: k in media ==> media[k].responseId in responses
    requires forall k :: k in responses ==> responses[k].submissionId in submissions
    ensures var subs := Cascade.Children(submissions, SubmissionUser(), {id});
            var rs := Cascade.Children(responses, Cascade.ResponseSubmission(), subs);
            var ms := Cascade.Children(media, Cascade.MediaResponse(), rs);
            var s' := submissions - subs;
            var r' := responses - rs;
            var m' := media - ms;
            (forall k :: k in s' ==> s'[k].userId != id) &&
            (forall k :: k in r' ==> r'[k].submissionId in s') &&
            (forall k :: k in m' ==> m'[k].responseId in r')
  {
    var subs := Cascade.Children(submissions, SubmissionUser(), {id});
    var rs := Cascade.Children(responses, Cascade.ResponseSubmission(), subs);
    var ms := Cascade.Children(media, Cascade.MediaResponse(), rs);
    forall k | k in responses - rs
      ensures responses[k].submissionId in submissions - subs
    {
      assert k !in rs;
    }
    forall k | k in media - ms
      ensures media[k].responseId in responses - rs
    {
      assert k !in ms;
    }
  }
}
