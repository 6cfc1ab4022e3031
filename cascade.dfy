/**
 * The cascade deletes deleteAccount (convex/users.ts) and cleanupE2EData
 * (convex/e2eCleanup.ts) share: a response goes with its media and their stored files, a
 * submission or a prompt goes with its responses. Each loop reads the children of a
 * document from the table as it is at that moment, deletes them, then deletes the document.
 *
 * A table after the loops is the old table minus a set of ids; the sets are the documents
 * whose parent is among the deleted ones (Children), and the files are those of the deleted
 * media (Files).
 */
module Cascade {
  import opened Wrappers
  import opened Store

  /** The ids in a list. */
  ghost function Elems(s: seq<Id>): set<Id>
  {
    set k | k in s
  }

  /** The documents of m whose parent, as key reads it, is in parents. */
  ghost function Children<R>(m: map<Id, R>, key: R -> Id, parents: set<Id>): set<Id>
  {
    set k | k in m && key(m[k]) in parents
  }

  /** The stored files of the media ks. */
  ghost function Files(media: map<Id, Media>, ks: set<Id>): set<Id>
  {
    set k | k in ks && k in media && media[k].storageId.Some? :: media[k].storageId.value
  }

  function MediaResponse(): Media -> Id
  {
    (x: Media) => x.responseId
  }

  function ResponseSubmission(): Response -> Id
  {
    (x: Response) => x.submissionId
  }

  function ResponsePrompt(): Response -> Id
  {
    (x: Response) => x.promptId
  }

  function ChildOf<R>(key: R -> Id, parent: Id): R -> bool
  {
    (x: R) => key(x) == parent
  }

  // ---------------------------------------------------------------------------------
  // Set algebra of the invariants

  lemma ElemsSnoc(s: seq<Id>, i: nat)
    requires i < |s|
    ensures Elems(s[..i + 1]) == Elems(s[..i]) + {s[i]}
  {
    PrefixSnoc(s, i);
  }

  lemma MinusMinus<R>(m: map<Id, R>, a: set<Id>, b: set<Id>)
    ensures (m - a) - b == m - (a + b)
  {
  }

  /** Removing documents removes their ids from every selection by parent. */
  lemma ChildrenMinus<R>(m: map<Id, R>, key: R -> Id, parents: set<Id>, gone: set<Id>)
    ensures Children(m - gone, key, parents) == Children(m, key, parents) - gone
  {
  }

  lemma ChildrenUnion<R>(m: map<Id, R>, key: R -> Id, a: set<Id>, b: set<Id>)
    ensures Children(m, key, a + b) == Children(m, key, a) + Children(m, key, b)
  {
  }

  /** Children of disjoint parent sets are disjoint. */
  lemma ChildrenDisjoint<R>(m: map<Id, R>, key: R -> Id, a: set<Id>, b: set<Id>)
    requires a * b == {}
    ensures Children(m, key, a) * Children(m, key, b) == {}
  {
    forall k | k in Children(m, key, a)
      ensures k !in Children(m, key, b)
    {
      assert key(m[k]) !in a * b;
    }
  }

  lemma FilesUnion(media: map<Id, Media>, a: set<Id>, b: set<Id>)
    ensures Files(media, a + b) == Files(media, a) + Files(media, b)
  {
  }

  lemma FilesMinus(media: map<Id, Media>, ks: set<Id>, gone: set<Id>)
    requires ks * gone == {}
    ensures Files(media - gone, ks) == Files(media, ks)
  {
    forall x | x in Files(media, ks)
      ensures x in Files(media - gone, ks)
    {
      var k :| k in ks && k in media && media[k].storageId.Some? && media[k].storageId.value == x;
      assert k !in ks * gone;
      assert k in media - gone && (media - gone)[k] == media[k];
    }
  }

  lemma FilesAdd(media: map<Id, Media>, ks: set<Id>, k: Id)
    requires k in media
    ensures Files(media, ks + {k}) ==
              Files(media, ks) + (if media[k].storageId.Some? then {media[k].storageId.value} else {})
  {
  }

  lemma CardUnion(a: set<Id>, b: set<Id>)
    requires a * b == {}
    ensures |a + b| == |a| + |b|
  {
  }

  /** The rows of a table whose parent is p are that parent's children. */
  lemma RowsChildren<R>(m: map<Id, R>, n: nat, key: R -> Id, p: Id)
    requires Below(m, n)
    ensures var ks := Rows(m, n, ChildOf(key, p)); Elems(ks) == Children(m, key, {p}) && |ks| == |Elems(ks)|
  {
    var ks := Rows(m, n, ChildOf(key, p));
    assert forall k :: k in ks <==> k in m && ChildOf(key, p)(m[k]);
    AscendingCard(ks, Elems(ks));
  }

  // ---------------------------------------------------------------------------------
  // The loops

  /**
   * The media of one response: each stored file is deleted, then the media document. The
   * result counts the media deleted.
   */
  method DeleteResponseMedia(db: Database, responseId: Id) returns (count: nat)
    requires db.Valid()
    modifies db`media, db`storage
    ensures db.Valid()
    ensures db.media == old(db.media) - Children(old(db.media), MediaResponse(), {responseId})
    ensures db.storage == old(db.storage) - Files(old(db.media), Children(old(db.media), MediaResponse(), {responseId}))
    ensures count == |Children(old(db.media), MediaResponse(), {responseId})|
  {
    var ks := Rows(db.media, db.nextId, ChildOf(MediaResponse(), responseId));
    RowsChildren(db.media, db.nextId, MediaResponse(), responseId);
    count := DeleteMediaList(db, ks);
  }

  /** Media documents by id, each with its stored file; the result counts them. */
  method DeleteMediaList(db: Database, ks: seq<Id>) returns (count: nat)
    requires db.Valid()
    requires forall i, j :: 0 <= i < j < |ks| ==> ks[i] < ks[j]
    requires forall i :: 0 <= i < |ks| ==> ks[i] in db.media
    modifies db`media, db`storage
    ensures db.Valid()
    ensures db.media == old(db.media) - Elems(ks)
    ensures db.storage == old(db.storage) - Files(old(db.media), Elems(ks))
    ensures count == |ks|
  {
    ghost var before, files := db.media, db.storage;
    count := 0;
    for i := 0 to |ks|
      invariant db.Valid()
      invariant db.media == before - Elems(ks[..i])
      invariant db.storage == files - Files(before, Elems(ks[..i]))
      invariant count == i
    {
      var k := ks[i];
      NotInPrefix(ks, i);
      ElemsSnoc(ks, i);
      MediaDocStep(before, files, Elems(ks[..i]), k);
      var item := db.media[k];
      if item.storageId.Some? {
        db.storage := db.storage - {item.storageId.value};
      }
      db.DeleteMedia(k);
      count := count + 1;
    }
    PrefixFull(ks);
  }

  /** What deleting one more media document k, and its file, does to the loop's invariant. */
  lemma MediaDocStep(before: map<Id, Media>, files: set<Id>, done: set<Id>, k: Id)
    requires k in before && k !in done
    ensures k in before - done && (before - done)[k] == before[k]
    ensures (before - done) - {k} == before - (done + {k})
    ensures (files - Files(before, done)) - (if before[k].storageId.Some? then {before[k].storageId.value} else {}) ==
              files - Files(before, done + {k})
  {
    MinusMinus(before, done, {k});
    FilesAdd(before, done, k);
  }

  /**
   * A list of responses, each with its media: the media first, then the response. The
   * results count the responses and the media deleted.
   */
  method DeleteResponses(db: Database, rs: seq<Id>) returns (responses: nat, media: nat)
    requires db.Valid()
    requires forall i, j :: 0 <= i < j < |rs| ==> rs[i] < rs[j]
    requires forall i :: 0 <= i < |rs| ==> rs[i] in db.responses
    modifies db`responses, db`media, db`storage
    ensures db.Valid()
    ensures db.responses == old(db.responses) - Elems(rs)
    ensures db.media == old(db.media) - Children(old(db.media), MediaResponse(), Elems(rs))
    ensures db.storage == old(db.storage) - Files(old(db.media), Children(old(db.media), MediaResponse(), Elems(rs)))
    ensures responses == |rs| && media == |Children(old(db.media), MediaResponse(), Elems(rs))|
  {
    ghost var beforeR, beforeM, files := db.responses, db.media, db.storage;
    responses, media := 0, 0;
    for i := 0 to |rs|
      invariant db.Valid()
      invariant db.responses == beforeR - Elems(rs[..i])
      invariant db.media == beforeM - Children(beforeM, MediaResponse(), Elems(rs[..i]))
      invariant db.storage == files - Files(beforeM, Children(beforeM, MediaResponse(), Elems(rs[..i])))
      invariant responses == i && media == |Children(beforeM, MediaResponse(), Elems(rs[..i]))|
    {
      var r := rs[i];
      NotInPrefix(rs, i);
      ElemsSnoc(rs, i);
      ghost var m0, s0 := db.media, db.storage;
      var m := DeleteResponseMedia(db, r);
      ResponseStep(beforeM, files, Elems(rs[..i]), r, m0, s0, db.media, db.storage, media, m);
      db.DeleteResponse(r);
      MinusMinus(beforeR, Elems(rs[..i]), {r});
      responses, media := responses + 1, media + m;
    }
    PrefixFull(rs);
  }

  /** The invariant of DeleteResponses, carried from the responses done to one more. */
  lemma ResponseStep(beforeM: map<Id, Media>, files: set<Id>, done: set<Id>, r: Id,
                     m0: map<Id, Media>, s0: set<Id>, m1: map<Id, Media>, s1: set<Id>, c0: nat, c: nat)
    requires r !in done
    requires m0 == beforeM - Children(beforeM, MediaResponse(), done)
    requires s0 == files - Files(beforeM, Children(beforeM, MediaResponse(), done))
    requires c0 == |Children(beforeM, MediaResponse(), done)|
    requires m1 == m0 - Children(m0, MediaResponse(), {r})
    requires s1 == s0 - Files(m0, Children(m0, MediaResponse(), {r}))
    requires c == |Children(m0, MediaResponse(), {r})|
    ensures m1 == beforeM - Children(beforeM, MediaResponse(), done + {r})
    ensures s1 == files - Files(beforeM, Children(beforeM, MediaResponse(), done + {r}))
    ensures c0 + c == |Children(beforeM, MediaResponse(), done + {r})|
  {
    assert done * {r} == {};
    MediaStep(beforeM, done, {r});
  }

  /**
   * What deleting the media of the responses more does, when the media of the responses
   * done (none of them in more) are already gone.
   */
  lemma MediaStep(beforeM: map<Id, Media>, done: set<Id>, more: set<Id>)
    requires done * more == {}
    ensures var cur := beforeM - Children(beforeM, MediaResponse(), done);
            var mine := Children(cur, MediaResponse(), more);
            mine == Children(beforeM, MediaResponse(), more) &&
            cur - mine == beforeM - Children(beforeM, MediaResponse(), done + more) &&
            Files(cur, mine) == Files(beforeM, mine) &&
            Files(beforeM, Children(beforeM, MediaResponse(), done + more)) ==
              Files(beforeM, Children(beforeM, MediaResponse(), done)) + Files(beforeM, mine) &&
            |Children(beforeM, MediaResponse(), done + more)| == |Children(beforeM, MediaResponse(), done)| + |mine|
  {
    var old_ := Children(beforeM, MediaResponse(), done);
    var mine := Children(beforeM, MediaResponse(), more);
    var cur := beforeM - old_;
    var both := Children(beforeM, MediaResponse(), done + more);
    ChildrenMinus(beforeM, MediaResponse(), more, old_);
    ChildrenDisjoint(beforeM, MediaResponse(), done, more);
    forall x | x in mine
      ensures x !in old_
    {
      assert x !in old_ * mine;
    }
    assert mine - old_ == mine;
    assert Children(cur, MediaResponse(), more) == mine;
    ChildrenUnion(beforeM, MediaResponse(), done, more);
    assert both == old_ + mine;
    MinusMinus(beforeM, old_, mine);
    assert cur - mine == beforeM - both;
    FilesMinus(beforeM, mine, old_);
    assert Files(cur, mine) == Files(beforeM, mine);
    FilesUnion(beforeM, old_, mine);
    assert Files(beforeM, both) == Files(beforeM, old_) + Files(beforeM, mine);
    CardUnion(old_, mine);
    assert |both| == |old_| + |mine|;
  }

  /**
   * The responses whose parent, as key reads it, is p, each with its media. The results
   * count the responses and the media deleted.
   */
  method DeleteResponsesOf(db: Database, key: Response -> Id, p: Id) returns (responses: nat, media: nat)
    requires db.Valid()
    modifies db`responses, db`media, db`storage
    ensures db.Valid()
    ensures db.responses == old(db.responses) - Children(old(db.responses), key, {p})
    ensures db.media == old(db.media) - Children(old(db.media), MediaResponse(), Children(old(db.responses), key, {p}))
    ensures db.storage == old(db.storage) -
              Files(old(db.media), Children(old(db.media), MediaResponse(), Children(old(db.responses), key, {p})))
    ensures responses == |Children(old(db.responses), key, {p})|
    ensures media == |Children(old(db.media), MediaResponse(), Children(old(db.responses), key, {p}))|
  {
    var rs := Rows(db.responses, db.nextId, ChildOf(key, p));
    RowsChildren(db.responses, db.nextId, key, p);
    responses, media := DeleteResponses(db, rs);
  }

  /**
   * The state a parent loop keeps: the parents done are gone from their table, and so are
   * their responses (as key reads the parent), those responses' media and the media's files.
   */
  ghost predicate ParentsGone(key: Response -> Id, done: set<Id>,
                              beforeR: map<Id, Response>, beforeM: map<Id, Media>, files: set<Id>,
                              r: map<Id, Response>, m: map<Id, Media>, s: set<Id>, cr: nat, cm: nat)
  {
    var rs := Children(beforeR, key, done);
    var ms := Children(beforeM, MediaResponse(), rs);
    r == beforeR - rs && m == beforeM - ms && s == files - Files(beforeM, ms) && cr == |rs| && cm == |ms|
  }

  /** ParentsGone, carried through the deletion of the responses of one more parent p. */
  lemma ParentStep(key: Response -> Id, done: set<Id>, p: Id,
                   beforeR: map<Id, Response>, beforeM: map<Id, Media>, files: set<Id>,
                   r0: map<Id, Response>, m0: map<Id, Media>, s0: set<Id>, cr0: nat, cm0: nat,
                   r1: map<Id, Response>, m1: map<Id, Media>, s1: set<Id>, cr: nat, cm: nat)
    requires p !in done
    requires ParentsGone(key, done, beforeR, beforeM, files, r0, m0, s0, cr0, cm0)
    requires r1 == r0 - Children(r0, key, {p})
    requires m1 == m0 - Children(m0, MediaResponse(), Children(r0, key, {p}))
    requires s1 == s0 - Files(m0, Children(m0, MediaResponse(), Children(r0, key, {p})))
    requires cr == |Children(r0, key, {p})|
    requires cm == |Children(m0, MediaResponse(), Children(r0, key, {p}))|
    ensures ParentsGone(key, done + {p}, beforeR, beforeM, files, r1, m1, s1, cr0 + cr, cm0 + cm)
  {
    var d := Children(beforeR, key, done);
    var c := Children(beforeR, key, {p});
    ResponsesOfStep(key, done, p, beforeR);
    MediaStep(beforeM, d, c);
  }

  /** What deleting the responses of one more parent p does to the responses' table. */
  lemma ResponsesOfStep(key: Response -> Id, done: set<Id>, p: Id, beforeR: map<Id, Response>)
    requires p !in done
    ensures var d := Children(beforeR, key, done);
            var c := Children(beforeR, key, {p});
            var r0 := beforeR - d;
            Children(r0, key, {p}) == c && d * c == {} &&
            Children(beforeR, key, done + {p}) == d + c &&
            r0 - c == beforeR - (d + c) && |d + c| == |d| + |c|
  {
    assert done * {p} == {};
    ChildrenStep(key, done, {p}, beforeR);
  }

  /**
   * Deleting the children of more parents from a table whose children of the parents done
   * (none of them in more) are already gone: the children found are all the children of
   * more, and the table is the old one without the children of both.
   */
  lemma ChildrenStep<R>(key: R -> Id, done: set<Id>, more: set<Id>, before: map<Id, R>)
    requires done * more == {}
    ensures var d := Children(before, key, done);
            var c := Children(before, key, more);
            var cur := before - d;
            Children(cur, key, more) == c && d * c == {} &&
            Children(before, key, done + more) == d + c &&
            cur - c == before - (d + c) && |d + c| == |d| + |c|
  {
    var d := Children(before, key, done);
    var c := Children(before, key, more);
    ChildrenMinus(before, key, more, d);
    ChildrenDisjoint(before, key, done, more);
    forall x | x in c
      ensures x !in d
    {
      assert x !in d * c;
    }
    assert c - d == c;
    ChildrenUnion(before, key, done, more);
    MinusMinus(before, d, c);
    CardUnion(d, c);
  }

  /**
   * The submissions ss, each after its responses and their media (the submissions loop of
   * deleteAccount and of cleanupE2EData).
   */
  method DeleteSubmissions(db: Database, ss: seq<Id>) returns (responses: nat, media: nat)
    requires db.Valid()
    requires forall i, j :: 0 <= i < j < |ss| ==> ss[i] < ss[j]
    requires forall i :: 0 <= i < |ss| ==> ss[i] in db.submissions
    modifies db`submissions, db`responses, db`media, db`storage
    ensures db.Valid()
    ensures db.submissions == old(db.submissions) - Elems(ss)
    ensures ParentsGone(ResponseSubmission(), Elems(ss), old(db.responses), old(db.media), old(db.storage),
                        db.responses, db.media, db.storage, responses, media)
  {
    ghost var beforeS, beforeR, beforeM, files := db.submissions, db.responses, db.media, db.storage;
    responses, media := 0, 0;
    for i := 0 to |ss|
      invariant db.Valid()
      invariant db.submissions == beforeS - Elems(ss[..i])
      invariant ParentsGone(ResponseSubmission(), Elems(ss[..i]), beforeR, beforeM, files,
                            db.responses, db.media, db.storage, responses, media)
    {
      var sub := ss[i];
      NotInPrefix(ss, i);
      ElemsSnoc(ss, i);
      ghost var r0, m0, s0 := db.responses, db.media, db.storage;
      var cr, cm := DeleteResponsesOf(db, ResponseSubmission(), sub);
      ParentStep(ResponseSubmission(), Elems(ss[..i]), sub, beforeR, beforeM, files,
                 r0, m0, s0, responses, media, db.responses, db.media, db.storage, cr, cm);
      db.DeleteSubmission(sub);
      MinusMinus(beforeS, Elems(ss[..i]), {sub});
      responses, media := responses + cr, media + cm;
    }
    PrefixFull(ss);
  }

  /**
   * The prompts ps, each after the responses to it and their media (the prompts loop of
   * cleanupE2EData).
   */
  method DeletePrompts(db: Database, ps: seq<Id>) returns (responses: nat, media: nat)
    requires db.Valid()
    requires forall i, j :: 0 <= i < j < |ps| ==> ps[i] < ps[j]
    requires forall i :: 0 <= i < |ps| ==> ps[i] in db.prompts
    modifies db`prompts, db`responses, db`media, db`storage
    ensures db.Valid()
    ensures db.prompts == old(db.prompts) - Elems(ps)
    ensures ParentsGone(ResponsePrompt(), Elems(ps), old(db.responses), old(db.media), old(db.storage),
                        db.responses, db.media, db.storage, responses, media)
  {
    ghost var beforeP, beforeR, beforeM, files := db.prompts, db.responses, db.media, db.storage;
    responses, media := 0, 0;
    for i := 0 to |ps|
      invariant db.Valid()
      invariant db.prompts == beforeP - Elems(ps[..i])
      invariant ParentsGone(ResponsePrompt(), Elems(ps[..i]), beforeR, beforeM, files,
                            db.responses, db.media, db.storage, responses, media)
    {
      NotInPrefix(ps, i);
      ElemsSnoc(ps, i);
      var cr, cm := DeletePromptAndResponses(db, ps[i], Elems(ps[..i]), beforeP, beforeR, beforeM, files, responses, media);
      responses, media := responses + cr, media + cm;
    }
    PrefixFull(ps);
  }

  /** One round of DeletePrompts: the responses of prompt pr, their media and files, then pr itself. */
  method DeletePromptAndResponses(db: Database, pr: Id, ghost done: set<Id>, ghost beforeP: map<Id, Prompt>,
                                  ghost beforeR: map<Id, Response>, ghost beforeM: map<Id, Media>, ghost files: set<Id>,
                                  responses: nat, media: nat) returns (cr: nat, cm: nat)
    requires db.Valid() && pr !in done
    requires db.prompts == beforeP - done
    requires ParentsGone(ResponsePrompt(), done, beforeR, beforeM, files, db.responses, db.media, db.storage, responses, media)
    modifies db`prompts, db`responses, db`media, db`storage
    ensures db.Valid()
    ensures db.prompts == beforeP - (done + {pr})
    ensures ParentsGone(ResponsePrompt(), done + {pr}, beforeR, beforeM, files,
                        db.responses, db.media, db.storage, responses + cr, media + cm)
  {
    ghost var r0, m0, s0 := db.responses, db.media, db.storage;
    cr, cm := DeleteResponsesOf(db, ResponsePrompt(), pr);
    ParentStep(ResponsePrompt(), done, pr, beforeR, beforeM, files,
               r0, m0, s0, responses, media, db.responses, db.media, db.storage, cr, cm);
    db.DeletePrompt(pr);
    MinusMinus(beforeP, done, {pr});
  }

  /** A selection of a table lists exactly the documents that pass, each once. */
  lemma RowsMatching<R>(m: map<Id, R>, n: nat, p: R -> bool)
    requires Below(m, n)
    ensures Elems(Rows(m, n, p)) == Matching(m, p) && |Rows(m, n, p)| == |Matching(m, p)|
  {
    RowsCard(m, n, p);
  }

  /** After a parent loop no remaining response or media document belongs to a deleted parent. */
  lemma ParentsGoneNoOrphans(key: Response -> Id, done: set<Id>,
                             beforeR: map<Id, Response>, beforeM: map<Id, Media>, files: set<Id>,
                             r: map<Id, Response>, m: map<Id, Media>, s: set<Id>, cr: nat, cm: nat)
    requires ParentsGone(key, done, beforeR, beforeM, files, r, m, s, cr, cm)
    requires forall k :: k in beforeM ==> beforeM[k].responseId in beforeR
    ensures forall k :: k in r ==> key(r[k]) !in done && r[k] == beforeR[k]
    ensures forall k :: k in m ==> m[k].responseId in r && m[k] == beforeM[k]
  {
    forall k | k in m
      ensures m[k].responseId in r
    {
      assert k !in Children(beforeM, MediaResponse(), Children(beforeR, key, done));
    }
  }

  // ---------------------------------------------------------------------------------
  // Deleting a list of documents of one table

  method DeleteVideos(db: Database, ks: seq<Id>)
    requires db.Valid()
    modifies db`videos
    ensures db.Valid() && db.videos == old(db.videos) - Elems(ks)
  {
    ghost var before := db.videos;
    for i := 0 to |ks|
      invariant db.Valid() && db.videos == before - Elems(ks[..i])
    {
      ElemsSnoc(ks, i);
      MinusMinus(before, Elems(ks[..i]), {ks[i]});
      db.DeleteVideo(ks[i]);
    }
    PrefixFull(ks);
  }

  method DeleteNewsletterReads(db: Database, ks: seq<Id>)
    requires db.Valid()
    modifies db`newsletterReads
    ensures db.Valid() && db.newsletterReads == old(db.newsletterReads) - Elems(ks)
  {
    ghost var before := db.newsletterReads;
    for i := 0 to |ks|
      invariant db.Valid() && db.newsletterReads == before - Elems(ks[..i])
    {
      ElemsSnoc(ks, i);
      MinusMinus(before, Elems(ks[..i]), {ks[i]});
      db.DeleteNewsletterRead(ks[i]);
    }
    PrefixFull(ks);
  }

  method DeleteMemberships(db: Database, ks: seq<Id>)
    requires db.Valid()
    modifies db`memberships
    ensures db.Valid() && db.memberships == old(db.memberships) - Elems(ks)
  {
    ghost var before := db.memberships;
    for i := 0 to |ks|
      invariant db.Valid() && db.memberships == before - Elems(ks[..i])
    {
      ElemsSnoc(ks, i);
      MinusMinus(before, Elems(ks[..i]), {ks[i]});
      db.DeleteMembership(ks[i]);
    }
    PrefixFull(ks);
  }
}
