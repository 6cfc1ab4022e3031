/**
 * convex/e2eCleanup.ts: removing the data end-to-end tests leave behind. Every circle whose
 * name is one of the known test names, or starts with "E2E ", is deleted together with
 * everything hanging off it: its prompts (each after its responses and their media), its
 * submissions (likewise), its newsletters (each after its reads), its memberships, its
 * videos and the stored files of its icon and cover. Nothing else is touched.
 *
 * Within one mutation a query sees the deletions already made, so a response reached both
 * through a prompt and through a submission of a test circle is deleted, and counted, once.
 */
module E2ECleanup {
  import opened Wrappers
  import opened Store
  import opened Cascade
  import Text

  // ---------------------------------------------------------------------------------
  // Which circles are test circles

  const ExactNames: set<string> := {
    "Test Circle", "E2E Test Circle", "Settings Test Circle", "InvLink Section Test",
    "Regen Link Test", "Warning Test Circle", "Dialog Test Circle", "Prompts Default Test",
    "Prompts Library Test", "Prompts Content Test", "Prompts Count Test", "Prompts Add Test",
    "Prompts Custom Test", "Prompts Save Test", "Prompts Drag Test",
    "E2E Test Circle - Invite Flow", "E2E Join Test Circle", "E2E Redirect Test Circle",
    "E2E Admin Leave Test", "E2E Rejoin Test", "E2E Member List Test",
    "E2E Remove Button Test", "E2E Rejoin Test Circle", "E2E Remove Member Test",
    "E2E Remove Modal Test", "E2E Self Remove Test", "E2E Submission Dashboard Test"
  }

  /** isE2ECircle: a known test name, or any name starting with "E2E ". */
  predicate IsE2ECircle(name: string)
  {
    name in ExactNames || Text.StartsWith(name, "E2E ")
  }

  /** The filter: exact test names and the "E2E " prefix match; other names, even close ones, do not. */
  lemma TestNames()
    ensures IsE2ECircle("Test Circle") && IsE2ECircle("Prompts Drag Test")
    ensures IsE2ECircle("E2E anything at all")
    ensures !IsE2ECircle("E2E") && !IsE2ECircle("e2e Test") && !IsE2ECircle("Test circle")
    ensures !IsE2ECircle("My Test Circle") && !IsE2ECircle("")
  {
    assert "E2E anything at all"[..4] == "E2E ";
    assert "e2e Test"[0] != "E2E "[0];
    assert "My Test Circle"[0] != "E2E "[0];
    assert "Test circle"[0] != "E2E "[0];
  }

  function TestCircle(): Circle -> bool
  {
    (c: Circle) => IsE2ECircle(c.name)
  }

  function PromptCircle(): Prompt -> Id
  {
    (p: Prompt) => p.circleId
  }

  function SubmissionCircle(): Submission -> Id
  {
    (s: Submission) => s.circleId
  }

  function NewsletterCircle(): Newsletter -> Id
  {
    (n: Newsletter) => n.circleId
  }

  function MembershipCircle(): Membership -> Id
  {
    (m: Membership) => m.circleId
  }

  function ReadNewsletter(): NewsletterRead -> Id
  {
    (r: NewsletterRead) => r.newsletterId
  }

  function InCircle(c: Id): Video -> bool
  {
    (v: Video) => v.circleId == Some(c)
  }

  // ---------------------------------------------------------------------------------
  // What a cleanup of the circles D deletes, read off the tables before it

  /** The tables the cleanup reads and writes. */
  datatype Tables = Tables(
    circles: map<Id, Circle>, prompts: map<Id, Prompt>, memberships: map<Id, Membership>,
    newsletters: map<Id, Newsletter>, newsletterReads: map<Id, NewsletterRead>,
    submissions: map<Id, Submission>, responses: map<Id, Response>, media: map<Id, Media>,
    storage: set<Id>, videos: map<Id, Video>)

  ghost function TablesOf(db: Database): Tables
    reads db
  {
    Tables(db.circles, db.prompts, db.memberships, db.newsletters, db.newsletterReads,
           db.submissions, db.responses, db.media, db.storage, db.videos)
  }

  /** The counters the mutation returns under `deleted`. */
  datatype Stats = Stats(
    circles: nat, prompts: nat, memberships: nat, submissions: nat, responses: nat,
    media: nat, videos: nat, newsletterReads: nat, newsletters: nat)

  function Add(a: Stats, b: Stats): Stats
  {
    Stats(a.circles + b.circles, a.prompts + b.prompts, a.memberships + b.memberships,
          a.submissions + b.submissions, a.responses + b.responses, a.media + b.media,
          a.videos + b.videos, a.newsletterReads + b.newsletterReads, a.newsletters + b.newsletters)
  }

  const NoStats := Stats(0, 0, 0, 0, 0, 0, 0, 0, 0)

  ghost function PromptsOf(t: Tables, D: set<Id>): set<Id>
  {
    Children(t.prompts, PromptCircle(), D)
  }

  ghost function SubmissionsOf(t: Tables, D: set<Id>): set<Id>
  {
    Children(t.submissions, SubmissionCircle(), D)
  }

  ghost function NewslettersOf(t: Tables, D: set<Id>): set<Id>
  {
    Children(t.newsletters, NewsletterCircle(), D)
  }

  ghost function MembershipsOf(t: Tables, D: set<Id>): set<Id>
  {
    Children(t.memberships, MembershipCircle(), D)
  }

  /** The responses to a prompt of D or in a submission of D. */
  ghost function ResponsesOf(t: Tables, D: set<Id>): set<Id>
  {
    Children(t.responses, ResponsePrompt(), PromptsOf(t, D)) +
    Children(t.responses, ResponseSubmission(), SubmissionsOf(t, D))
  }

  ghost function MediaOf(t: Tables, D: set<Id>): set<Id>
  {
    Children(t.media, MediaResponse(), ResponsesOf(t, D))
  }

  ghost function ReadsOf(t: Tables, D: set<Id>): set<Id>
  {
    Children(t.newsletterReads, ReadNewsletter(), NewslettersOf(t, D))
  }

  ghost function VideosOf(videos: map<Id, Video>, D: set<Id>): set<Id>
  {
    set k | k in videos && videos[k].circleId.Some? && videos[k].circleId.value in D
  }

  /** The stored icon and cover files of the circles of D. */
  ghost function Images(circles: map<Id, Circle>, D: set<Id>): set<Id>
  {
    (set k | k in D && k in circles && circles[k].iconImageId.Some? :: circles[k].iconImageId.value) +
    (set k | k in D && k in circles && circles[k].coverImageId.Some? :: circles[k].coverImageId.value)
  }

  /** The counts a cleanup of D reports: one per document it deletes. */
  ghost function Counts(t: Tables, D: set<Id>): Stats
  {
    Stats(|D|, |PromptsOf(t, D)|, |MembershipsOf(t, D)|, |SubmissionsOf(t, D)|,
          |ResponsesOf(t, D)|, |MediaOf(t, D)|, |VideosOf(t.videos, D)|, |ReadsOf(t, D)|,
          |NewslettersOf(t, D)|)
  }

  /** The responses X are gone from R0, their media from M0 and those media's files from F0. */
  ghost predicate Gone(R0: map<Id, Response>, M0: map<Id, Media>, F0: set<Id>, X: set<Id>,
                       r: map<Id, Response>, m: map<Id, Media>, s: set<Id>)
  {
    var ms := Children(M0, MediaResponse(), X);
    r == R0 - X && m == M0 - ms && s == F0 - Files(M0, ms)
  }

  /** The circle-owned tables after a cleanup of D. */
  ghost predicate OwnedErased(t0: Tables, D: set<Id>, t: Tables)
  {
    t.circles == t0.circles - D && t.prompts == t0.prompts - PromptsOf(t0, D) &&
    t.submissions == t0.submissions - SubmissionsOf(t0, D) &&
    t.newsletters == t0.newsletters - NewslettersOf(t0, D) &&
    t.memberships == t0.memberships - MembershipsOf(t0, D)
  }

  /**
   * The tables after a cleanup of the circles D, started from t0: the circles of D and
   * everything hanging off them are gone, and nothing else.
   */
  ghost predicate Erased(t0: Tables, D: set<Id>, t: Tables)
  {
    OwnedErased(t0, D, t) &&
    t.newsletterReads == t0.newsletterReads - ReadsOf(t0, D) &&
    t.videos == t0.videos - VideosOf(t0.videos, D) &&
    Gone(t0.responses, t0.media, t0.storage - Images(t0.circles, D), ResponsesOf(t0, D),
         t.responses, t.media, t.storage)
  }

  // ---------------------------------------------------------------------------------
  // Composing the cleanups of single circles

  /** Two deletions of responses in a row are one deletion of both sets. */
  lemma GoneCompose(R0: map<Id, Response>, M0: map<Id, Media>, F0: set<Id>, X: set<Id>,
                    r: map<Id, Response>, m: map<Id, Media>, s: set<Id>, I: set<Id>, Y: set<Id>,
                    r': map<Id, Response>, m': map<Id, Media>, s': set<Id>)
    requires Gone(R0, M0, F0, X, r, m, s)
    requires Gone(r, m, s - I, Y, r', m', s')
    requires X * Y == {}
    ensures Gone(R0, M0, F0 - I, X + Y, r', m', s')
    ensures |Children(M0, MediaResponse(), X + Y)| ==
            |Children(M0, MediaResponse(), X)| + |Children(m, MediaResponse(), Y)|
  {
    MediaStep(M0, X, Y);
    MinusMinus(R0, X, Y);
  }

  /**
   * The responses to the prompts pc or in the submissions sc, looked up after those of the
   * prompts pd and the submissions sd are gone, are the rest of them.
   */
  lemma ResponsesUnion(R0: map<Id, Response>, pd: set<Id>, sd: set<Id>, pc: set<Id>, sc: set<Id>)
    ensures var X := Children(R0, ResponsePrompt(), pd) + Children(R0, ResponseSubmission(), sd);
            var r := R0 - X;
            var Y := Children(r, ResponsePrompt(), pc) + Children(r, ResponseSubmission(), sc);
            Y == Children(R0, ResponsePrompt(), pc) + Children(R0, ResponseSubmission(), sc) - X &&
            Children(R0, ResponsePrompt(), pd + pc) + Children(R0, ResponseSubmission(), sd + sc) == X + Y &&
            X * Y == {} && |X + Y| == |X| + |Y|
  {
    var X := Children(R0, ResponsePrompt(), pd) + Children(R0, ResponseSubmission(), sd);
    var r := R0 - X;
    var Y := Children(r, ResponsePrompt(), pc) + Children(r, ResponseSubmission(), sc);
    ChildrenMinus(R0, ResponsePrompt(), pc, X);
    ChildrenMinus(R0, ResponseSubmission(), sc, X);
    ChildrenUnion(R0, ResponsePrompt(), pd, pc);
    ChildrenUnion(R0, ResponseSubmission(), sd, sc);
    UnionAlgebra(Children(R0, ResponsePrompt(), pd), Children(R0, ResponseSubmission(), sd),
                 Children(R0, ResponsePrompt(), pc), Children(R0, ResponseSubmission(), sc), X, Y);
  }

  /** The set algebra of ResponsesUnion, on plain sets. */
  lemma UnionAlgebra(xa: set<Id>, xb: set<Id>, a: set<Id>, b: set<Id>, X: set<Id>, Y: set<Id>)
    requires X == xa + xb && Y == (a - X) + (b - X)
    ensures Y == a + b - X && (xa + a) + (xb + b) == X + Y && X * Y == {} && |X + Y| == |X| + |Y|
  {
    CardUnion(X, Y);
  }

  /** The responses a cleanup of one circle c deletes, found on tables where the circles D are cleaned. */
  lemma ResponsesCompose(t0: Tables, D: set<Id>, c: Id, t: Tables)
    requires PromptsOf(t, {c}) == PromptsOf(t0, {c}) && SubmissionsOf(t, {c}) == SubmissionsOf(t0, {c})
    requires PromptsOf(t0, D + {c}) == PromptsOf(t0, D) + PromptsOf(t0, {c})
    requires SubmissionsOf(t0, D + {c}) == SubmissionsOf(t0, D) + SubmissionsOf(t0, {c})
    requires t.responses == t0.responses - ResponsesOf(t0, D)
    ensures ResponsesOf(t0, D) * ResponsesOf(t, {c}) == {}
    ensures ResponsesOf(t0, D + {c}) == ResponsesOf(t0, D) + ResponsesOf(t, {c})
    ensures |ResponsesOf(t0, D + {c})| == |ResponsesOf(t0, D)| + |ResponsesOf(t, {c})|
  {
    ResponsesUnion(t0.responses, PromptsOf(t0, D), SubmissionsOf(t0, D), PromptsOf(t0, {c}), SubmissionsOf(t0, {c}));
  }

  /** A table of documents owned by circles: cleaning c after D is cleaning D + {c}. */
  lemma OwnedCompose<R>(key: R -> Id, m0: map<Id, R>, D: set<Id>, c: Id, m: map<Id, R>, m': map<Id, R>)
    requires c !in D
    requires m == m0 - Children(m0, key, D)
    requires m' == m - Children(m, key, {c})
    ensures Children(m, key, {c}) == Children(m0, key, {c})
    ensures m' == m0 - Children(m0, key, D + {c})
    ensures Children(m0, key, D + {c}) == Children(m0, key, D) + Children(m0, key, {c})
    ensures |Children(m0, key, D + {c})| == |Children(m0, key, D)| + |Children(m, key, {c})|
  {
    assert D * {c} == {};
    ChildrenStep(key, D, {c}, m0);
  }

  /** The reads: those of the newsletters of c, after the newsletters of D lost theirs. */
  lemma ReadsCompose(t0: Tables, D: set<Id>, c: Id, t: Tables, t': Tables)
    requires c !in D && OwnedErased(t0, D, t)
    requires t.newsletterReads == t0.newsletterReads - ReadsOf(t0, D)
    requires t'.newsletterReads == t.newsletterReads - ReadsOf(t, {c})
    ensures t'.newsletterReads == t0.newsletterReads - ReadsOf(t0, D + {c})
    ensures |ReadsOf(t0, D + {c})| == |ReadsOf(t0, D)| + |ReadsOf(t, {c})|
    ensures |NewslettersOf(t0, D + {c})| == |NewslettersOf(t0, D)| + |NewslettersOf(t, {c})|
  {
    assert D * {c} == {};
    ChildrenStep(NewsletterCircle(), D, {c}, t0.newsletters);
    ChildrenDisjoint(t0.newsletters, NewsletterCircle(), D, {c});
    ChildrenStep(ReadNewsletter(), NewslettersOf(t0, D), NewslettersOf(t0, {c}), t0.newsletterReads);
  }

  lemma VideosCompose(v0: map<Id, Video>, D: set<Id>, c: Id, v: map<Id, Video>, v': map<Id, Video>)
    requires c !in D
    requires v == v0 - VideosOf(v0, D)
    requires v' == v - VideosOf(v, {c})
    ensures v' == v0 - VideosOf(v0, D + {c})
    ensures |VideosOf(v0, D + {c})| == |VideosOf(v0, D)| + |VideosOf(v, {c})|
  {
    assert VideosOf(v, {c}) == VideosOf(v0, {c});
    assert VideosOf(v0, D + {c}) == VideosOf(v0, D) + VideosOf(v0, {c});
    CardUnion(VideosOf(v0, D), VideosOf(v0, {c}));
  }

  lemma ImagesCompose(c0: map<Id, Circle>, D: set<Id>, c: Id)
    ensures Images(c0 - D, {c}) == Images(c0, {c}) || c in D
    ensures Images(c0, D + {c}) == Images(c0, D) + Images(c0, {c})
  {
  }

  /** The circle-owned tables: cleaning c after D is cleaning D + {c}. */
  lemma OwnedErasedCompose(t0: Tables, D: set<Id>, c: Id, t: Tables, t': Tables)
    requires c !in D
    requires OwnedErased(t0, D, t) && OwnedErased(t, {c}, t')
    ensures OwnedErased(t0, D + {c}, t')
    ensures PromptsOf(t, {c}) == PromptsOf(t0, {c}) && SubmissionsOf(t, {c}) == SubmissionsOf(t0, {c})
    ensures PromptsOf(t0, D + {c}) == PromptsOf(t0, D) + PromptsOf(t0, {c})
    ensures SubmissionsOf(t0, D + {c}) == SubmissionsOf(t0, D) + SubmissionsOf(t0, {c})
    ensures |PromptsOf(t0, D + {c})| == |PromptsOf(t0, D)| + |PromptsOf(t, {c})|
    ensures |SubmissionsOf(t0, D + {c})| == |SubmissionsOf(t0, D)| + |SubmissionsOf(t, {c})|
    ensures |NewslettersOf(t0, D + {c})| == |NewslettersOf(t0, D)| + |NewslettersOf(t, {c})|
    ensures |MembershipsOf(t0, D + {c})| == |MembershipsOf(t0, D)| + |MembershipsOf(t, {c})|
    ensures |D + {c}| == |D| + 1
  {
    OwnedCompose(PromptCircle(), t0.prompts, D, c, t.prompts, t'.prompts);
    OwnedCompose(SubmissionCircle(), t0.submissions, D, c, t.submissions, t'.submissions);
    OwnedCompose(NewsletterCircle(), t0.newsletters, D, c, t.newsletters, t'.newsletters);
    OwnedCompose(MembershipCircle(), t0.memberships, D, c, t.memberships, t'.memberships);
  }

  /** The responses, their media and the stored files: cleaning c after D is cleaning D + {c}. */
  lemma GoneErasedCompose(t0: Tables, D: set<Id>, c: Id, t: Tables, t': Tables)
    requires c !in D
    requires PromptsOf(t, {c}) == PromptsOf(t0, {c}) && SubmissionsOf(t, {c}) == SubmissionsOf(t0, {c})
    requires PromptsOf(t0, D + {c}) == PromptsOf(t0, D) + PromptsOf(t0, {c})
    requires SubmissionsOf(t0, D + {c}) == SubmissionsOf(t0, D) + SubmissionsOf(t0, {c})
    requires t.circles == t0.circles - D
    requires Gone(t0.responses, t0.media, t0.storage - Images(t0.circles, D), ResponsesOf(t0, D),
                  t.responses, t.media, t.storage)
    requires Gone(t.responses, t.media, t.storage - Images(t.circles, {c}), ResponsesOf(t, {c}),
                  t'.responses, t'.media, t'.storage)
    ensures Gone(t0.responses, t0.media, t0.storage - Images(t0.circles, D + {c}), ResponsesOf(t0, D + {c}),
                 t'.responses, t'.media, t'.storage)
    ensures |ResponsesOf(t0, D + {c})| == |ResponsesOf(t0, D)| + |ResponsesOf(t, {c})|
    ensures |MediaOf(t0, D + {c})| == |MediaOf(t0, D)| + |MediaOf(t, {c})|
  {
    ResponsesCompose(t0, D, c, t);
    ImagesCompose(t0.circles, D, c);
    GoneCompose(t0.responses, t0.media, t0.storage - Images(t0.circles, D), ResponsesOf(t0, D),
                t.responses, t.media, t.storage, Images(t.circles, {c}), ResponsesOf(t, {c}),
                t'.responses, t'.media, t'.storage);
  }

  /** Cleaning one more circle c after the circles D is cleaning D + {c}, and the counts add up. */
  lemma Compose(t0: Tables, D: set<Id>, c: Id, t: Tables, t': Tables)
    requires c !in D
    requires Erased(t0, D, t) && Erased(t, {c}, t')
    ensures Erased(t0, D + {c}, t')
    ensures Counts(t0, D + {c}) == Add(Counts(t0, D), Counts(t, {c}))
  {
    OwnedErasedCompose(t0, D, c, t, t');
    ReadsCompose(t0, D, c, t, t');
    VideosCompose(t0.videos, D, c, t.videos, t'.videos);
    GoneErasedCompose(t0, D, c, t, t');
  }

  lemma ChildrenOfNone<R>(m: map<Id, R>, key: R -> Id)
    ensures Children(m, key, {}) == {}
  {
  }

  /** A cleanup of no circle deletes nothing. */
  lemma NothingOfNone(t0: Tables)
    ensures PromptsOf(t0, {}) == {} && SubmissionsOf(t0, {}) == {} && NewslettersOf(t0, {}) == {}
    ensures MembershipsOf(t0, {}) == {} && VideosOf(t0.videos, {}) == {} && Images(t0.circles, {}) == {}
    ensures ResponsesOf(t0, {}) == {} && MediaOf(t0, {}) == {} && ReadsOf(t0, {}) == {}
  {
    ChildrenOfNone(t0.prompts, PromptCircle());
    ChildrenOfNone(t0.submissions, SubmissionCircle());
    ChildrenOfNone(t0.newsletters, NewsletterCircle());
    ChildrenOfNone(t0.memberships, MembershipCircle());
    ChildrenOfNone(t0.responses, ResponsePrompt());
    ChildrenOfNone(t0.responses, ResponseSubmission());
    ChildrenOfNone(t0.media, MediaResponse());
    ChildrenOfNone(t0.newsletterReads, ReadNewsletter());
  }

  /** Nothing cleaned yet. */
  lemma ErasedNothing(t0: Tables)
    ensures Erased(t0, {}, t0) && Counts(t0, {}) == NoStats
  {
    NothingOfNone(t0);
    assert Files(t0.media, {}) == {};
  }

  // ---------------------------------------------------------------------------------
  // The mutation

  /** The newsletters ns, each after its reads (found by a scan of the whole reads table). */
  method DeleteNewsletters(db: Database, ns: seq<Id>) returns (count: nat)
    requires db.Valid()
    requires forall i, j :: 0 <= i < j < |ns| ==> ns[i] < ns[j]
    modifies db`newsletters, db`newsletterReads
    ensures db.Valid()
    ensures db.newsletters == old(db.newsletters) - Elems(ns)
    ensures db.newsletterReads == old(db.newsletterReads) - Children(old(db.newsletterReads), ReadNewsletter(), Elems(ns))
    ensures count == |Children(old(db.newsletterReads), ReadNewsletter(), Elems(ns))|
  {
    ghost var beforeN, beforeR := db.newsletters, db.newsletterReads;
    count := 0;
    for i := 0 to |ns|
      invariant db.Valid()
      invariant db.newsletters == beforeN - Elems(ns[..i])
      invariant db.newsletterReads == beforeR - Children(beforeR, ReadNewsletter(), Elems(ns[..i]))
      invariant count == |Children(beforeR, ReadNewsletter(), Elems(ns[..i]))|
    {
      var nl := ns[i];
      NotInPrefix(ns, i);
      ElemsSnoc(ns, i);
      assert Elems(ns[..i]) * {nl} == {};
      ChildrenStep(ReadNewsletter(), Elems(ns[..i]), {nl}, beforeR);
      var rs := Rows(db.newsletterReads, db.nextId, ChildOf(ReadNewsletter(), nl));
      RowsChildren(db.newsletterReads, db.nextId, ReadNewsletter(), nl);
      DeleteNewsletterReads(db, rs);
      db.DeleteNewsletter(nl);
      MinusMinus(beforeN, Elems(ns[..i]), {nl});
      count := count + |rs|;
    }
    PrefixFull(ns);
  }

  /** The stored files of one circle: its icon and its cover, when it has them. */
  lemma ImagesOne(circles: map<Id, Circle>, c: Id)
    requires c in circles
    ensures Images(circles, {c}) ==
              (if circles[c].iconImageId.Some? then {circles[c].iconImageId.value} else {}) +
              (if circles[c].coverImageId.Some? then {circles[c].coverImageId.value} else {})
  {
  }

  /** A video query by circle lists the videos of that circle. */
  lemma InCircleVideos(videos: map<Id, Video>, c: Id)
    ensures Matching(videos, InCircle(c)) == VideosOf(videos, {c})
  {
  }

  /** The prompts loop, then the submissions loop, then the image files: what one circle loses. */
  lemma CircleResponses(tR: map<Id, Response>, tM: map<Id, Media>, tS: set<Id>, pc: set<Id>, sc: set<Id>,
                        r1: map<Id, Response>, m1: map<Id, Media>, s1: set<Id>, cr1: nat, cm1: nat,
                        r2: map<Id, Response>, m2: map<Id, Media>, s2: set<Id>, cr2: nat, cm2: nat,
                        I: set<Id>, s3: set<Id>)
    requires ParentsGone(ResponsePrompt(), pc, tR, tM, tS, r1, m1, s1, cr1, cm1)
    requires ParentsGone(ResponseSubmission(), sc, r1, m1, s1, r2, m2, s2, cr2, cm2)
    requires s3 == s2 - I
    ensures var X := Children(tR, ResponsePrompt(), pc) + Children(tR, ResponseSubmission(), sc);
            Gone(tR, tM, tS - I, X, r2, m2, s3) && cr1 + cr2 == |X| &&
            cm1 + cm2 == |Children(tM, MediaResponse(), X)|
  {
    var A := Children(tR, ResponsePrompt(), pc);
    var B := Children(r1, ResponseSubmission(), sc);
    var X := A + Children(tR, ResponseSubmission(), sc);
    ChildrenMinus(tR, ResponseSubmission(), sc, A);
    SplitUnion(A, Children(tR, ResponseSubmission(), sc), B);
    GoneCompose(tR, tM, tS, A, r1, m1, s1, {}, B, r2, m2, s2);
    GoneWiden(tR, tM, tS - {}, X, r2, m2, s2, I, s3);
    CardUnion(A, B);
  }

  /** A set union written as a disjoint one. */
  lemma SplitUnion(a: set<Id>, c: set<Id>, b: set<Id>)
    requires b == c - a
    ensures a + b == a + c && a * b == {}
  {
  }

  /** More files deleted afterwards. */
  lemma GoneWiden(R0: map<Id, Response>, M0: map<Id, Media>, F0: set<Id>, X: set<Id>,
                  r: map<Id, Response>, m: map<Id, Media>, s: set<Id>, I: set<Id>, s': set<Id>)
    requires Gone(R0, M0, F0, X, r, m, s) && s' == s - I
    ensures Gone(R0, M0, F0 - I, X, r, m, s')
  {
  }

  /** After the prompts and submissions loops of circle c: those and their responses and media are gone. */
  ghost predicate ResponsesErased(t: Tables, c: Id, t': Tables, prompts: nat, submissions: nat, responses: nat, media: nat)
  {
    t'.prompts == t.prompts - PromptsOf(t, {c}) && t'.submissions == t.submissions - SubmissionsOf(t, {c}) &&
    Gone(t.responses, t.media, t.storage, ResponsesOf(t, {c}), t'.responses, t'.media, t'.storage) &&
    prompts == |PromptsOf(t, {c})| && submissions == |SubmissionsOf(t, {c})| &&
    responses == |ResponsesOf(t, {c})| && media == |MediaOf(t, {c})|
  }

  lemma ResponsesErasedIntro(t: Tables, c: Id, t': Tables, ps: seq<Id>, ss: seq<Id>,
                             r1: map<Id, Response>, m1: map<Id, Media>, s1: set<Id>,
                             cr1: nat, cm1: nat, cr2: nat, cm2: nat)
    requires Elems(ps) == PromptsOf(t, {c}) && |ps| == |Elems(ps)|
    requires Elems(ss) == SubmissionsOf(t, {c}) && |ss| == |Elems(ss)|
    requires t'.prompts == t.prompts - Elems(ps) && t'.submissions == t.submissions - Elems(ss)
    requires ParentsGone(ResponsePrompt(), Elems(ps), t.responses, t.media, t.storage, r1, m1, s1, cr1, cm1)
    requires ParentsGone(ResponseSubmission(), Elems(ss), r1, m1, s1, t'.responses, t'.media, t'.storage, cr2, cm2)
    ensures ResponsesErased(t, c, t', |ps|, |ss|, cr1 + cr2, cm1 + cm2)
  {
    CircleResponses(t.responses, t.media, t.storage, Elems(ps), Elems(ss), r1, m1, s1, cr1, cm1,
                    t'.responses, t'.media, t'.storage, cr2, cm2, {}, t'.storage);
    assert t.storage - {} == t.storage;
  }

  /** The prompts loop and then the submissions loop for one circle c. */
  method CleanupResponses(db: Database, c: Id) returns (prompts: nat, submissions: nat, responses: nat, media: nat)
    requires db.Valid()
    modifies db`prompts, db`submissions, db`responses, db`media, db`storage
    ensures db.Valid()
    ensures ResponsesErased(old(TablesOf(db)), c, TablesOf(db), prompts, submissions, responses, media)
    ensures unchanged(db`circles, db`newsletters, db`newsletterReads, db`memberships, db`videos)
  {
    ghost var t := TablesOf(db);
    var ps := Rows(db.prompts, db.nextId, ChildOf(PromptCircle(), c));
    RowsChildren(db.prompts, db.nextId, PromptCircle(), c);
    var cr1, cm1 := DeletePrompts(db, ps);
    ghost var r1, m1, s1 := db.responses, db.media, db.storage;
    var ss := Rows(db.submissions, db.nextId, ChildOf(SubmissionCircle(), c));
    RowsChildren(db.submissions, db.nextId, SubmissionCircle(), c);
    var cr2, cm2 := DeleteSubmissions(db, ss);
    ResponsesErasedIntro(t, c, TablesOf(db), ps, ss, r1, m1, s1, cr1, cm1, cr2, cm2);
    prompts, submissions, responses, media := |ps|, |ss|, cr1 + cr2, cm1 + cm2;
  }

  /** After the newsletters, memberships and videos loops of circle c. */
  ghost predicate OwnedPartErased(t: Tables, c: Id, t': Tables, newsletters: nat, readCount: nat, memberships: nat, videos: nat)
  {
    t'.newsletters == t.newsletters - NewslettersOf(t, {c}) &&
    t'.newsletterReads == t.newsletterReads - ReadsOf(t, {c}) &&
    t'.memberships == t.memberships - MembershipsOf(t, {c}) &&
    t'.videos == t.videos - VideosOf(t.videos, {c}) &&
    newsletters == |NewslettersOf(t, {c})| && readCount == |ReadsOf(t, {c})| &&
    memberships == |MembershipsOf(t, {c})| && videos == |VideosOf(t.videos, {c})|
  }

  /** The newsletters (with their reads), memberships and videos loops for one circle c. */
  method CleanupOwned(db: Database, c: Id) returns (newsletters: nat, readCount: nat, memberships: nat, videos: nat)
    requires db.Valid()
    modifies db`newsletters, db`newsletterReads, db`memberships, db`videos
    ensures db.Valid()
    ensures OwnedPartErased(old(TablesOf(db)), c, TablesOf(db), newsletters, readCount, memberships, videos)
    ensures unchanged(db`prompts, db`submissions, db`responses, db`media, db`storage, db`circles)
  {
    ghost var t := TablesOf(db);
    var ns := Rows(db.newsletters, db.nextId, ChildOf(NewsletterCircle(), c));
    RowsChildren(db.newsletters, db.nextId, NewsletterCircle(), c);
    readCount := DeleteNewsletters(db, ns);
    var ms := Rows(db.memberships, db.nextId, ChildOf(MembershipCircle(), c));
    RowsChildren(db.memberships, db.nextId, MembershipCircle(), c);
    DeleteMemberships(db, ms);
    var vs := Rows(db.videos, db.nextId, InCircle(c));
    RowsMatching(db.videos, db.nextId, InCircle(c));
    InCircleVideos(db.videos, c);
    DeleteVideos(db, vs);
    OwnedPartErasedIntro(t, c, TablesOf(db), ns, ms, vs, readCount);
    newsletters, memberships, videos := |ns|, |ms|, |vs|;
  }

  lemma OwnedPartErasedIntro(t: Tables, c: Id, t': Tables, ns: seq<Id>, ms: seq<Id>, vs: seq<Id>, readCount: nat)
    requires Elems(ns) == NewslettersOf(t, {c}) && |ns| == |Elems(ns)|
    requires Elems(ms) == MembershipsOf(t, {c}) && |ms| == |Elems(ms)|
    requires Elems(vs) == VideosOf(t.videos, {c}) && |vs| == |Elems(vs)|
    requires t'.newsletters == t.newsletters - Elems(ns)
    requires t'.newsletterReads == t.newsletterReads - Children(t.newsletterReads, ReadNewsletter(), Elems(ns))
    requires readCount == |Children(t.newsletterReads, ReadNewsletter(), Elems(ns))|
    requires t'.memberships == t.memberships - Elems(ms) && t'.videos == t.videos - Elems(vs)
    ensures OwnedPartErased(t, c, t', |ns|, readCount, |ms|, |vs|)
  {
  }

  /** The two halves of the loop body, the image files and the circle: one circle cleaned. */
  lemma CircleErasedIntro(t: Tables, c: Id, t1: Tables, t2: Tables, t': Tables, d: Stats)
    requires c in t.circles
    requires ResponsesErased(t, c, t1, d.prompts, d.submissions, d.responses, d.media)
    requires t1.circles == t.circles && t1.newsletters == t.newsletters && t1.newsletterReads == t.newsletterReads
    requires t1.memberships == t.memberships && t1.videos == t.videos
    requires OwnedPartErased(t1, c, t2, d.newsletters, d.newsletterReads, d.memberships, d.videos)
    requires t2.prompts == t1.prompts && t2.submissions == t1.submissions && t2.responses == t1.responses
    requires t2.media == t1.media && t2.storage == t1.storage && t2.circles == t1.circles
    requires t'.circles == t2.circles - {c} && t'.storage == t2.storage - Images(t.circles, {c})
    requires t'.prompts == t2.prompts && t'.submissions == t2.submissions && t'.responses == t2.responses
    requires t'.media == t2.media && t'.newsletters == t2.newsletters && t'.newsletterReads == t2.newsletterReads
    requires t'.memberships == t2.memberships && t'.videos == t2.videos
    requires d.circles == 1
    ensures Erased(t, {c}, t') && d == Counts(t, {c})
  {
    GoneWiden(t.responses, t.media, t.storage, ResponsesOf(t, {c}), t1.responses, t1.media, t1.storage,
              Images(t.circles, {c}), t'.storage);
  }

  /** The stored icon and cover files of circle c, then c itself. */
  method DeleteCircleImages(db: Database, c: Id)
    requires db.Valid() && c in db.circles
    modifies db`circles, db`storage
    ensures db.Valid()
    ensures db.circles == old(db.circles) - {c}
    ensures db.storage == old(db.storage) - Images(old(db.circles), {c})
    ensures unchanged(db`prompts, db`submissions, db`responses, db`media, db`newsletters, db`newsletterReads)
    ensures unchanged(db`memberships, db`videos)
  {
    var circle := db.circles[c];
    ImagesOne(db.circles, c);
    if circle.iconImageId.Some? {
      db.storage := db.storage - {circle.iconImageId.value};
    }
    if circle.coverImageId.Some? {
      db.storage := db.storage - {circle.coverImageId.value};
    }
    db.DeleteCircle(c);
  }

  /** The loop body for one circle c: everything hanging off c, its image files, then c itself. */
  method CleanupCircle(db: Database, c: Id) returns (d: Stats)
    requires db.Valid() && c in db.circles
    modifies db`circles, db`prompts, db`memberships, db`newsletters, db`newsletterReads
    modifies db`submissions, db`responses, db`media, db`storage, db`videos
    ensures db.Valid()
    ensures Erased(old(TablesOf(db)), {c}, TablesOf(db))
    ensures d == Counts(old(TablesOf(db)), {c})
  {
    ghost var t := TablesOf(db);
    var cp, cs, cr, cm := CleanupResponses(db, c);
    ghost var t1 := TablesOf(db);
    var cn, crd, cmb, cv := CleanupOwned(db, c);
    ghost var t2 := TablesOf(db);
    DeleteCircleImages(db, c);
    d := Stats(1, cp, cmb, cs, cr, cm, cv, crd, cn);
    CircleErasedIntro(t, c, t1, t2, TablesOf(db), d);
  }

  /** The loop over the matched circles cs, in the order the circles query returned them. */
  method CleanupCircles(db: Database, cs: seq<Id>) returns (stats: Stats)
    requires db.Valid()
    requires forall i, j :: 0 <= i < j < |cs| ==> cs[i] < cs[j]
    requires forall i :: 0 <= i < |cs| ==> cs[i] in db.circles
    modifies db`circles, db`prompts, db`memberships, db`newsletters, db`newsletterReads
    modifies db`submissions, db`responses, db`media, db`storage, db`videos
    ensures db.Valid()
    ensures Erased(old(TablesOf(db)), Elems(cs), TablesOf(db))
    ensures stats == Counts(old(TablesOf(db)), Elems(cs))
  {
    ghost var t0 := TablesOf(db);
    ErasedNothing(t0);
    stats := NoStats;
    for i := 0 to |cs|
      invariant db.Valid()
      invariant Erased(t0, Elems(cs[..i]), TablesOf(db))
      invariant stats == Counts(t0, Elems(cs[..i]))
    {
      NotInPrefix(cs, i);
      ElemsSnoc(cs, i);
      ghost var t := TablesOf(db);
      var d := CleanupCircle(db, cs[i]);
      Compose(t0, Elems(cs[..i]), cs[i], t, TablesOf(db));
      stats := Add(stats, d);
    }
    PrefixFull(cs);
  }

  // ---------------------------------------------------------------------------------
  // What the dry run reports

  /**
   * The counters one iteration of the loop reports when nothing is deleted (dryRun): every
   * query then sees the tables as they were, so the prompts loop counts the responses to
   * the prompts of c and their media, and the submissions loop counts the responses in the
   * submissions of c and their media again, whether or not the prompts loop reached them.
   */
  ghost function DryCircleAsWritten(t: Tables, c: Id): Stats
  {
    var rp := Children(t.responses, ResponsePrompt(), PromptsOf(t, {c}));
    var rs := Children(t.responses, ResponseSubmission(), SubmissionsOf(t, {c}));
    Stats(1, |PromptsOf(t, {c})|, |MembershipsOf(t, {c})|, |SubmissionsOf(t, {c})|,
          |rp| + |rs|, |Children(t.media, MediaResponse(), rp)| + |Children(t.media, MediaResponse(), rs)|,
          |VideosOf(t.videos, {c})|, |ReadsOf(t, {c})|, |NewslettersOf(t, {c})|)
  }

  /** The counters of a dry run over the matched circles cs, as the mutation is written. */
  ghost function DryRunAsWritten(t: Tables, cs: seq<Id>): Stats
  {
    if cs == [] then NoStats else Add(DryRunAsWritten(t, cs[..|cs| - 1]), DryCircleAsWritten(t, cs[|cs| - 1]))
  }

  lemma UnionCard(a: set<Id>, b: set<Id>)
    ensures |a + b| + |a * b| == |a| + |b|
  {
    assert a + b == a + (b - a) && a * (b - a) == {};
    assert b == (b - a) + (a * b) && (b - a) * (a * b) == {};
  }

  /**
   * As written, a dry run over a test circle that has a response both to one of its
   * prompts and in one of its submissions (every response written through updateResponse
   * is one) reports more responses than a real run over the same tables deletes.
   */
  lemma DryRunOvercounts(t: Tables, c: Id, k: Id)
    requires k in t.responses
    requires t.responses[k].promptId in t.prompts && t.prompts[t.responses[k].promptId].circleId == c
    requires t.responses[k].submissionId in t.submissions && t.submissions[t.responses[k].submissionId].circleId == c
    ensures DryRunAsWritten(t, [c]).responses > Counts(t, {c}).responses
  {
    var rp := Children(t.responses, ResponsePrompt(), PromptsOf(t, {c}));
    var rs := Children(t.responses, ResponseSubmission(), SubmissionsOf(t, {c}));
    assert t.responses[k].promptId in PromptsOf(t, {c});
    assert t.responses[k].submissionId in SubmissionsOf(t, {c});
    assert k in rp * rs;
    UnionCard(rp, rs);
    assert [c][..0] == [];
  }

  // ---------------------------------------------------------------------------------
  // The mutation

  /** The result of cleanupE2EData. */
  datatype Cleanup = Cleanup(dryRun: bool, matchedCircles: seq<string>, deleted: Stats)

  /** The names of the circles ks, in the order of ks. */
  function Names(circles: map<Id, Circle>, ks: seq<Id>): (r: seq<string>)
    requires forall i :: 0 <= i < |ks| ==> ks[i] in circles
    ensures |r| == |ks| && forall i :: 0 <= i < |ks| ==> r[i] == circles[ks[i]].name
  {
    if ks == [] then [] else [circles[ks[0]].name] + Names(circles, ks[1..])
  }

  /** A dry run: the loops of the cleanup on a copy of the tables, which is then dropped. */
  method DryRun(db: Database, cs: seq<Id>) returns (stats: Stats)
    requires db.Valid()
    requires forall i, j :: 0 <= i < j < |cs| ==> cs[i] < cs[j]
    requires forall i :: 0 <= i < |cs| ==> cs[i] in db.circles
    ensures stats == Counts(TablesOf(db), Elems(cs))
  {
    var scratch := new Database.Copy(db);
    assert TablesOf(scratch) == TablesOf(db);
    stats := CleanupCircles(scratch, cs);
  }

  /**
   * cleanupE2EData: the circles with test names, found by a scan of the circles table, are
   * cleaned one after the other. A dry run deletes nothing and reports the counters a real
   * run would report; see DryRunOvercounts for the counters of the dry run as written.
   */
  method CleanupE2EData(db: Database, dryRunArg: Option<bool>) returns (r: Cleanup)
    requires db.Valid()
    modifies db`circles, db`prompts, db`memberships, db`newsletters, db`newsletterReads
    modifies db`submissions, db`responses, db`media, db`storage, db`videos
    ensures db.Valid()
    ensures r.dryRun == dryRunArg.GetOr(false)
    ensures var cs := Rows(old(db.circles), old(db.nextId), TestCircle());
            r.matchedCircles == Names(old(db.circles), cs) &&
            r.deleted == Counts(old(TablesOf(db)), Elems(cs))
    ensures r.dryRun ==> TablesOf(db) == old(TablesOf(db))
    ensures !r.dryRun ==> Erased(old(TablesOf(db)), Elems(Rows(old(db.circles), old(db.nextId), TestCircle())), TablesOf(db))
  {
    var dryRun := dryRunArg.GetOr(false);
    var cs := Rows(db.circles, db.nextId, TestCircle());
    var names := Names(db.circles, cs);
    var stats;
    if dryRun {
      stats := DryRun(db, cs);
    } else {
      stats := CleanupCircles(db, cs);
    }
    r := Cleanup(dryRun, names, stats);
  }
}
