/**
 * The prompts of a circle: the questions members answer each month. A circle keeps every
 * prompt it ever had; the active ones, in ascending `order`, are the current questions.
 * Saving the prompt editor replaces the active set: every prompt of the circle is first
 * deactivated, then each submitted prompt is re-activated (when it names an existing
 * prompt) or inserted.
 */
module Prompts {
  import opened Wrappers
  import opened Store
  import opened Sorting
  import Access

  const MinPrompts := 1
  const MaxPrompts := 8
  const MaxPromptLength := 200

  const CountError := "Must have 1-8 prompts"
  const LengthError := "Prompt text must be 200 characters or less"

  // ---------------------------------------------------------------------------------
  // The prompt library

  datatype Category = Category(name: string, prompts: seq<string>)

  /** PROMPT_LIBRARY: four categories of two suggested prompts each. */
  const Library: seq<Category> := [
    Category("reflection", ["What did you do this month?", "What's something you learned recently?"]),
    Category("fun", ["What are you listening to?", "Best meal you had this month?"]),
    Category("gratitude", ["One Good Thing", "Who made your month better?"]),
    Category("deep", ["On Your Mind", "What are you looking forward to?"])
  ]

  /** Every library prompt, category by category. */
  function LibraryPrompts(cs: seq<Category>): (r: seq<string>)
    ensures |r| == Total(cs)
    ensures forall i, j :: 0 <= i < |cs| && 0 <= j < |cs[i].prompts| ==> cs[i].prompts[j] in r
    ensures forall t :: t in r ==> exists i :: 0 <= i < |cs| && t in cs[i].prompts
  {
    if cs == [] then []
    else
      var rest := LibraryPrompts(cs[1..]);
      assert forall i :: 1 <= i < |cs| ==> cs[i] == cs[1..][i - 1];
      cs[0].prompts + rest
  }

  function Total(cs: seq<Category>): nat
  {
    if cs == [] then 0 else |cs[0].prompts| + Total(cs[1..])
  }

  /**
   * The library has eight prompts, and each of them is a prompt updatePrompts accepts:
   * all of them together fill a circle's eight slots.
   */
  lemma LibraryFitsACircle()
    ensures |Library| == 4 && forall c :: c in Library ==> |c.prompts| == 2
    ensures |LibraryPrompts(Library)| == MaxPrompts
    ensures forall t :: t in LibraryPrompts(Library) ==> 0 < |t| <= MaxPromptLength
  {
    var all := LibraryPrompts(Library);
    LibraryConcat();
    CategoryFits(0);
    CategoryFits(1);
    CategoryFits(2);
    CategoryFits(3);
    forall t | t in all
      ensures 0 < |t| <= MaxPromptLength
    {
      assert t in Library[0].prompts || t in Library[1].prompts || t in Library[2].prompts || t in Library[3].prompts;
    }
  }

  /** Each category holds two prompts that updatePrompts accepts. */
  lemma CategoryFits(i: nat)
    requires i < 4
    ensures |Library| == 4 && |Library[i].prompts| == 2
    ensures forall t :: t in Library[i].prompts ==> 0 < |t| <= MaxPromptLength
  {
    var ps := Library[i].prompts;
    assert ps == [ps[0], ps[1]];
  }

  /** The library's prompts are its four categories' prompts one after the other. */
  lemma LibraryConcat()
    ensures LibraryPrompts(Library) == Library[0].prompts + Library[1].prompts + Library[2].prompts + Library[3].prompts
  {
    assert LibraryPrompts(Library[3..]) == Library[3].prompts by {
      assert Library[3..][1..] == [];
    }
    assert LibraryPrompts(Library[2..]) == Library[2].prompts + Library[3].prompts by {
      assert Library[2..][1..] == Library[3..];
    }
    assert LibraryPrompts(Library[1..]) == Library[1].prompts + Library[2].prompts + Library[3].prompts by {
      assert Library[1..][1..] == Library[2..];
    }
  }

  // ---------------------------------------------------------------------------------
  // Reading the prompts of a circle

  /** The sort key of `(a, b) => a.order - b.order`. */
  function ByOrder(prompts: map<Id, Prompt>): Id -> int
  {
    (k: Id) => if k in prompts then prompts[k].order else 0
  }

  /**
   * r lists each active prompt of the circle among the first n ids exactly once, and
   * nothing else, in ascending order.
   */
  ghost predicate ListsActiveInOrder(prompts: map<Id, Prompt>, n: nat, circleId: Id, r: seq<Id>)
  {
    (forall k :: k in r <==> k in prompts && k < n && prompts[k].circleId == circleId && prompts[k].active) &&
    (forall i, j :: 0 <= i < j < |r| ==> r[i] in prompts && r[j] in prompts && prompts[r[i]].order <= prompts[r[j]].order) &&
    (forall i, j :: 0 <= i < j < |r| ==> r[i] != r[j])
  }

  /**
   * The circle's active prompts, in ascending order; prompts with the same order keep
   * their creation order (the sort is stable).
   */
  function ActiveInOrder(prompts: map<Id, Prompt>, n: nat, circleId: Id): (r: seq<Id>)
    ensures ListsActiveInOrder(prompts, n, circleId, r)
  {
    var rows := Rows(prompts, n, (p: Prompt) => p.circleId == circleId && p.active);
    SortedActive(prompts, n, circleId, rows);
    SortByKey(rows, ByOrder(prompts))
  }

  lemma SortedActive(prompts: map<Id, Prompt>, n: nat, circleId: Id, rows: seq<Id>)
    requires forall k :: k in rows <==> k in prompts && k < n && prompts[k].circleId == circleId && prompts[k].active
    requires forall i, j :: 0 <= i < j < |rows| ==> rows[i] < rows[j]
    ensures ListsActiveInOrder(prompts, n, circleId, SortByKey(rows, ByOrder(prompts)))
  {
    var sorted := SortByKey(rows, ByOrder(prompts));
    PermutedIds(rows, sorted);
    OrderedPrompts(prompts, sorted);
  }

  /** Ids of prompts sorted by ByOrder are in ascending order of their prompts' order. */
  lemma OrderedPrompts(prompts: map<Id, Prompt>, sorted: seq<Id>)
    requires forall k :: k in sorted ==> k in prompts
    requires SortedBy(sorted, ByOrder(prompts))
    ensures forall i, j :: 0 <= i < j < |sorted| ==> sorted[i] in prompts && sorted[j] in prompts && prompts[sorted[i]].order <= prompts[sorted[j]].order
  {
    forall i, j | 0 <= i < j < |sorted|
      ensures sorted[i] in prompts && sorted[j] in prompts && prompts[sorted[i]].order <= prompts[sorted[j]].order
    {
      assert sorted[i] in sorted && sorted[j] in sorted;
      assert ByOrder(prompts)(sorted[i]) <= ByOrder(prompts)(sorted[j]);
    }
  }

  /**
   * getCirclePrompts: any membership row of the caller in the circle admits them (a left
   * membership too); the result is the circle's active prompts in order.
   */
  function GetCirclePrompts(memberships: map<Id, Membership>, prompts: map<Id, Prompt>, n: nat,
                            caller: Id, circleId: Id): (r: Result<seq<Id>>)
    ensures Access.RequireAnyMembership(memberships, n, caller, circleId).Err? ==> r == Err(Access.NotAMember)
    ensures r.Ok? <==> exists k :: k in memberships && k < n && Access.InCircle(memberships[k], caller, circleId)
    ensures r.Ok? ==> r.value == ActiveInOrder(prompts, n, circleId)
  {
    match Access.RequireAnyMembership(memberships, n, caller, circleId)
    case Err(e) => Err(e)
    case Ok(_) => Ok(ActiveInOrder(prompts, n, circleId))
  }

  // ---------------------------------------------------------------------------------
  // Saving the prompts of a circle

  /** One entry of updatePrompts' argument: an existing prompt's id, or none for a new prompt. */
  datatype PromptInput = PromptInput(id: Option<Id>, text: string, order: int)

  /** The argument checks of updatePrompts, in order: the count, then every text's length. */
  function ValidatePrompts(ps: seq<PromptInput>): (r: Outcome)
    ensures r.Pass? <==> MinPrompts <= |ps| <= MaxPrompts && forall i :: 0 <= i < |ps| ==> |ps[i].text| <= MaxPromptLength
    ensures !(MinPrompts <= |ps| <= MaxPrompts) ==> r == Fail(CountError)
    ensures MinPrompts <= |ps| <= MaxPrompts && r.Fail? ==> r == Fail(LengthError)
  {
    if |ps| < MinPrompts || |ps| > MaxPrompts then Fail(CountError)
    else if exists i :: 0 <= i < |ps| && |ps[i].text| > MaxPromptLength then Fail(LengthError)
    else Pass
  }

  /** The table after the first loop: every prompt of the circle inactive, the rest as they were. */
  function Deactivated(prompts: map<Id, Prompt>, circleId: Id): (r: map<Id, Prompt>)
    ensures r.Keys == prompts.Keys
  {
    map k | k in prompts :: if prompts[k].circleId == circleId then prompts[k].(active := false) else prompts[k]
  }

  /**
   * The table after the second loop applied entries ps to it, with n the next free id, or
   * None when an entry names an id with no document (the patch throws and the whole
   * mutation is undone).
   */
  function Applied(prompts: map<Id, Prompt>, n: nat, circleId: Id, ps: seq<PromptInput>, now: int)
    : Option<(map<Id, Prompt>, nat)>
    decreases |ps|
  {
    if ps == [] then Some((prompts, n))
    else
      var p := ps[0];
      match p.id
      case Some(k) =>
        if k !in prompts then None
        else Applied(prompts[k := prompts[k].(text := p.text, order := p.order, active := true)], n, circleId, ps[1..], now)
      case None =>
        Applied(prompts[n := Prompt(circleId, p.text, p.order, true, now)], n + 1, circleId, ps[1..], now)
  }

  /** The number of entries of ps that create a prompt. */
  function NewCount(ps: seq<PromptInput>): nat
  {
    if ps == [] then 0 else (if ps[0].id.None? then 1 else 0) + NewCount(ps[1..])
  }

  /** The id the i-th entry writes: its own id, or the id handed to the prompt it creates. */
  function Target(ps: seq<PromptInput>, n: nat, i: nat): Id
    requires i < |ps|
  {
    match ps[i].id
    case Some(k) => k
    case None => n + NewCount(ps[..i])
  }

  /** Every id an entry names is an id that existed before the call. */
  predicate NamesExisting(ps: seq<PromptInput>, n: nat)
  {
    forall i :: 0 <= i < |ps| && ps[i].id.Some? ==> ps[i].id.value < n
  }

  /**
   * The loop of updatePrompts fails exactly when an entry names an id that has no document
   * (when every named id is an older one).
   */
  lemma {:induction false} AppliedSucceedsIff(prompts: map<Id, Prompt>, n: nat, circleId: Id, ps: seq<PromptInput>, now: int)
    requires Below(prompts, n) && NamesExisting(ps, n)
    ensures Applied(prompts, n, circleId, ps, now).Some? <==>
              forall i :: 0 <= i < |ps| && ps[i].id.Some? ==> ps[i].id.value in prompts
    decreases |ps|
  {
    if ps != [] {
      var p := ps[0];
      assert forall i :: 1 <= i < |ps| ==> ps[1..][i - 1] == ps[i];
      match p.id
      case Some(k) =>
        if k in prompts {
          var next := prompts[k := prompts[k].(text := p.text, order := p.order, active := true)];
          AppliedSucceedsIff(next, n, circleId, ps[1..], now);
          assert next.Keys == prompts.Keys;
        }
      case None =>
        var next := prompts[n := Prompt(circleId, p.text, p.order, true, now)];
        assert NamesExisting(ps[1..], n + 1);
        AppliedSucceedsIff(next, n + 1, circleId, ps[1..], now);
        forall i | 0 <= i < |ps[1..]| && ps[1..][i].id.Some?
          ensures ps[1..][i].id.value in next <==> ps[1..][i].id.value in prompts
        {
          assert ps[1..][i] == ps[i + 1];
        }
    }
  }

  /** The table the first entry of ps leaves for the rest, and the next free id after it. */
  function Step(prompts: map<Id, Prompt>, n: nat, circleId: Id, p: PromptInput, now: int): (map<Id, Prompt>, nat)
    requires p.id.Some? ==> p.id.value in prompts
  {
    match p.id
    case Some(k) => (prompts[k := prompts[k].(text := p.text, order := p.order, active := true)], n)
    case None => (prompts[n := Prompt(circleId, p.text, p.order, true, now)], n + 1)
  }

  lemma AppliedStep(prompts: map<Id, Prompt>, n: nat, circleId: Id, ps: seq<PromptInput>, now: int)
    requires ps != [] && Applied(prompts, n, circleId, ps, now).Some?
    ensures ps[0].id.Some? ==> ps[0].id.value in prompts
    ensures var (next, m) := Step(prompts, n, circleId, ps[0], now);
            Applied(prompts, n, circleId, ps, now) == Applied(next, m, circleId, ps[1..], now)
  {
  }

  /** A successful save adds exactly the ids n .. n + NewCount(ps) - 1 to the table. */
  lemma {:induction false} AppliedKeys(prompts: map<Id, Prompt>, n: nat, circleId: Id, ps: seq<PromptInput>, now: int)
    requires Applied(prompts, n, circleId, ps, now).Some?
    ensures var (after, n') := Applied(prompts, n, circleId, ps, now).value;
            n' == n + NewCount(ps) && forall k :: k in after <==> k in prompts || n <= k < n'
    decreases |ps|
  {
    if ps != [] {
      AppliedStep(prompts, n, circleId, ps, now);
      var (next, m) := Step(prompts, n, circleId, ps[0], now);
      AppliedKeys(next, m, circleId, ps[1..], now);
    }
  }

  /** A row that no entry writes keeps its value. */
  lemma {:induction false} AppliedKeeps(prompts: map<Id, Prompt>, n: nat, circleId: Id, ps: seq<PromptInput>, now: int, k: Id)
    requires Applied(prompts, n, circleId, ps, now).Some?
    requires k in prompts && forall j :: 0 <= j < |ps| ==> Target(ps, n, j) != k
    ensures var after := Applied(prompts, n, circleId, ps, now).value.0;
            k in after && after[k] == prompts[k]
    decreases |ps|
  {
    if ps != [] {
      AppliedStep(prompts, n, circleId, ps, now);
      var (next, m) := Step(prompts, n, circleId, ps[0], now);
      TargetShift(ps, n, m);
      assert Target(ps, n, 0) != k;
      AppliedKeeps(next, m, circleId, ps[1..], now, k);
    }
  }

  /**
   * The row the i-th entry writes, when no later entry writes it again, ends with that
   * entry's text and order and is active; a row it creates belongs to the circle.
   */
  lemma {:induction false} AppliedWrites(prompts: map<Id, Prompt>, n: nat, circleId: Id, ps: seq<PromptInput>, now: int, i: nat)
    requires Applied(prompts, n, circleId, ps, now).Some?
    requires i < |ps| && forall j :: i < j < |ps| ==> Target(ps, n, j) != Target(ps, n, i)
    ensures var after := Applied(prompts, n, circleId, ps, now).value.0;
            var t := Target(ps, n, i);
            t in after && after[t].text == ps[i].text && after[t].order == ps[i].order && after[t].active &&
            (ps[i].id.None? ==> after[t] == Prompt(circleId, ps[i].text, ps[i].order, true, now))
    decreases |ps|
  {
    AppliedStep(prompts, n, circleId, ps, now);
    var (next, m) := Step(prompts, n, circleId, ps[0], now);
    TargetShift(ps, n, m);
    var rest := ps[1..];
    if i == 0 {
      var t := Target(ps, n, 0);
      assert forall j :: 0 <= j < |rest| ==> Target(rest, m, j) != t by {
        forall j | 0 <= j < |rest|
          ensures Target(rest, m, j) != t
        {
          assert Target(rest, m, j) == Target(ps, n, j + 1);
        }
      }
      AppliedKeeps(next, m, circleId, rest, now, t);
    } else {
      assert forall j :: i - 1 < j < |rest| ==> Target(rest, m, j) != Target(rest, m, i - 1) by {
        forall j | i - 1 < j < |rest|
          ensures Target(rest, m, j) != Target(rest, m, i - 1)
        {
          assert Target(rest, m, j) == Target(ps, n, j + 1);
        }
      }
      assert rest[i - 1] == ps[i];
      AppliedWrites(next, m, circleId, rest, now, i - 1);
    }
  }

  /** The targets of the entries after the first, seen from the rest of the list. */
  lemma TargetShift(ps: seq<PromptInput>, n: nat, m: nat)
    requires |ps| > 0 && m == (if ps[0].id.None? then n + 1 else n)
    ensures forall j :: 0 <= j < |ps| - 1 ==> Target(ps[1..], m, j) == Target(ps, n, j + 1)
    ensures ps[0].id.None? ==> Target(ps, n, 0) == n
  {
    forall j | 0 <= j < |ps| - 1
      ensures Target(ps[1..], m, j) == Target(ps, n, j + 1)
    {
      assert ps[1..][j] == ps[j + 1];
      assert ps[..j + 1] == [ps[0]] + ps[1..][..j];
      assert NewCount(ps[..j + 1]) == (if ps[0].id.None? then 1 else 0) + NewCount(ps[1..][..j]) by {
        assert ps[..j + 1][1..] == ps[1..][..j];
      }
    }
    assert ps[..0] == [];
  }

  /**
   * updatePrompts: only an admin (of the earliest membership row, left or not) may save;
   * then the argument is checked before anything is written. On success the circle's
   * prompts are the entries' prompts; on any failure nothing is changed.
   */
  method UpdatePrompts(db: Database, caller: Id, circleId: Id, ps: seq<PromptInput>, now: int) returns (r: Outcome)
    requires db.Valid()
    modifies db`prompts, db`nextId
    ensures db.Valid()
    ensures Access.RequirePromptAdmin(old(db.memberships), old(db.nextId), caller, circleId).Err? ==>
              r == Fail(Access.AdminRequired)
    ensures Access.RequirePromptAdmin(old(db.memberships), old(db.nextId), caller, circleId).Ok? ==>
              (ValidatePrompts(ps).Fail? ==> r == ValidatePrompts(ps)) &&
              (ValidatePrompts(ps).Pass? ==>
                 var applied := Applied(Deactivated(old(db.prompts), circleId), old(db.nextId), circleId, ps, now);
                 (applied.None? ==> r == Fail(NonexistentDocument)) &&
                 (applied.Some? ==> r == Pass && (db.prompts, db.nextId) == applied.value))
    ensures r.Fail? ==> unchanged(db)
  {
    var admin := Access.RequirePromptAdmin(db.memberships, db.nextId, caller, circleId);
    if admin.Err? {
      return Fail(admin.msg);
    }
    var valid := ValidatePrompts(ps);
    if valid.Fail? {
      return valid;
    }
    r := Save(db, circleId, ps, now);
  }

  /** The writes of updatePrompts, undone when a patch throws. */
  method Save(db: Database, circleId: Id, ps: seq<PromptInput>, now: int) returns (r: Outcome)
    requires db.Valid()
    modifies db`prompts, db`nextId
    ensures db.Valid()
    ensures var applied := Applied(Deactivated(old(db.prompts), circleId), old(db.nextId), circleId, ps, now);
            (applied.None? ==> r == Fail(NonexistentDocument) && db.prompts == old(db.prompts) && db.nextId == old(db.nextId)) &&
            (applied.Some? ==> r == Pass && (db.prompts, db.nextId) == applied.value)
  {
    var savedPrompts, savedNext := db.prompts, db.nextId;
    DeactivateAll(db, circleId);
    var ok := ApplyEntries(db, circleId, ps, now);
    if !ok {
      db.prompts, db.nextId := savedPrompts, savedNext;
      return Fail(NonexistentDocument);
    }
    r := Pass;
  }

  /** The first loop of updatePrompts: every prompt of the circle is patched inactive. */
  method DeactivateAll(db: Database, circleId: Id)
    requires db.Valid()
    modifies db`prompts
    ensures db.Valid() && db.prompts == Deactivated(old(db.prompts), circleId)
  {
    ghost var before := db.prompts;
    var existing := Rows(db.prompts, db.nextId, (p: Prompt) => p.circleId == circleId);
    DeactivateEach(db, existing);
    DeactivatedBy(before, db.nextId, circleId, existing, db.prompts);
  }

  method DeactivateEach(db: Database, existing: seq<Id>)
    requires db.Valid()
    requires forall i, j :: 0 <= i < j < |existing| ==> existing[i] < existing[j]
    requires forall i :: 0 <= i < |existing| ==> existing[i] in db.prompts
    modifies db`prompts
    ensures db.Valid() && db.prompts.Keys == old(db.prompts).Keys
    ensures forall j :: 0 <= j < |existing| ==> db.prompts[existing[j]] == old(db.prompts)[existing[j]].(active := false)
    ensures forall k :: k in old(db.prompts) && k !in existing ==> db.prompts[k] == old(db.prompts)[k]
  {
    for i := 0 to |existing|
      invariant db.Valid() && db.prompts.Keys == old(db.prompts).Keys
      invariant forall j :: 0 <= j < i ==> db.prompts[existing[j]] == old(db.prompts)[existing[j]].(active := false)
      invariant forall j :: i <= j < |existing| ==> db.prompts[existing[j]] == old(db.prompts)[existing[j]]
      invariant forall k :: k in old(db.prompts) && k !in existing ==> db.prompts[k] == old(db.prompts)[k]
    {
      var k := existing[i];
      db.SetPrompt(k, db.prompts[k].(active := false));
    }
  }

  lemma DeactivatedBy(before: map<Id, Prompt>, n: nat, circleId: Id, existing: seq<Id>, after: map<Id, Prompt>)
    requires Below(before, n) && after.Keys == before.Keys
    requires existing == Rows(before, n, (p: Prompt) => p.circleId == circleId)
    requires forall j :: 0 <= j < |existing| ==> after[existing[j]] == before[existing[j]].(active := false)
    requires forall k :: k in before && k !in existing ==> after[k] == before[k]
    ensures after == Deactivated(before, circleId)
  {
    forall k | k in before
      ensures after[k] == Deactivated(before, circleId)[k]
    {
      if before[k].circleId == circleId {
        assert k in existing;
        var j :| 0 <= j < |existing| && existing[j] == k;
      }
    }
  }

  /**
   * The second loop of updatePrompts: each entry patches the prompt it names or inserts a
   * new one. An entry naming a missing document makes the patch throw: false is returned
   * and the caller undoes the whole mutation.
   */
  method ApplyEntries(db: Database, circleId: Id, ps: seq<PromptInput>, now: int) returns (ok: bool)
    requires db.Valid()
    modifies db`prompts, db`nextId
    ensures db.Valid()
    ensures var applied := Applied(old(db.prompts), old(db.nextId), circleId, ps, now);
            (ok <==> applied.Some?) && (ok ==> (db.prompts, db.nextId) == applied.value)
  {
    var savedPrompts, savedNext := db.prompts, db.nextId;
    for i := 0 to |ps|
      invariant db.Valid() && savedNext <= db.nextId
      invariant Applied(db.prompts, db.nextId, circleId, ps[i..], now) == Applied(savedPrompts, savedNext, circleId, ps, now)
    {
      var p := ps[i];
      assert ps[i..][1..] == ps[i + 1..];
      match p.id
      case Some(k) =>
        if k !in db.prompts {
          return false;
        }
        db.SetPrompt(k, db.prompts[k].(text := p.text, order := p.order, active := true));
      case None =>
        var _ := db.InsertPrompt(Prompt(circleId, p.text, p.order, true, now));
    }
    assert ps[|ps|..] == [];
    ok := true;
  }

  /**
   * After a successful save of entries that name only existing prompts, a prompt of the
   * circle that no entry names is inactive, and a prompt of another circle that no entry
   * names is unchanged.
   */
  lemma SaveDeactivatesTheRest(prompts: map<Id, Prompt>, n: nat, circleId: Id, ps: seq<PromptInput>, now: int, k: Id)
    requires Below(prompts, n) && NamesExisting(ps, n)
    requires Applied(Deactivated(prompts, circleId), n, circleId, ps, now).Some?
    requires k in prompts && forall i :: 0 <= i < |ps| ==> ps[i].id != Some(k)
    ensures var after := Applied(Deactivated(prompts, circleId), n, circleId, ps, now).value.0;
            k in after &&
            (prompts[k].circleId == circleId ==> !after[k].active) &&
            (prompts[k].circleId != circleId ==> after[k] == prompts[k])
  {
    var d := Deactivated(prompts, circleId);
    forall j | 0 <= j < |ps|
      ensures Target(ps, n, j) != k
    {
      assert k < n;
    }
    AppliedKeeps(d, n, circleId, ps, now, k);
  }

  /**
   * After a successful save whose entries name only existing prompts, each at most once,
   * each entry's prompt is active with that entry's text and order, and a newly created one
   * belongs to the circle.
   */
  lemma SaveActivatesEntries(prompts: map<Id, Prompt>, n: nat, circleId: Id, ps: seq<PromptInput>, now: int, i: nat)
    requires Below(prompts, n) && NamesExisting(ps, n)
    requires Applied(Deactivated(prompts, circleId), n, circleId, ps, now).Some?
    requires forall a, b :: 0 <= a < b < |ps| && ps[a].id.Some? ==> ps[b].id != ps[a].id
    requires i < |ps|
    ensures var after := Applied(Deactivated(prompts, circleId), n, circleId, ps, now).value.0;
            var t := Target(ps, n, i);
            t in after && after[t].text == ps[i].text && after[t].order == ps[i].order && after[t].active &&
            (ps[i].id.None? ==> after[t].circleId == circleId)
  {
    var d := Deactivated(prompts, circleId);
    forall j | i < j < |ps|
      ensures Target(ps, n, j) != Target(ps, n, i)
    {
      TargetsDiffer(ps, n, i, j);
    }
    AppliedWrites(d, n, circleId, ps, now, i);
  }

  /** Two entries write different prompts when neither repeats an id: new ids are fresh and increasing. */
  lemma TargetsDiffer(ps: seq<PromptInput>, n: nat, i: nat, j: nat)
    requires NamesExisting(ps, n)
    requires forall a, b :: 0 <= a < b < |ps| && ps[a].id.Some? ==> ps[b].id != ps[a].id
    requires i < j < |ps|
    ensures Target(ps, n, i) != Target(ps, n, j)
  {
    if ps[i].id.None? && ps[j].id.None? {
      NewCountGrows(ps, i, j);
    }
  }

  lemma NewCountGrows(ps: seq<PromptInput>, i: nat, j: nat)
    requires i < j <= |ps| && ps[i].id.None?
    ensures NewCount(ps[..i]) < NewCount(ps[..j])
  {
    NewCountAppend(ps[..i], ps[i..j]);
    assert ps[..j] == ps[..i] + ps[i..j];
    assert ps[i..j] == [ps[i]] + ps[i + 1..j];
    NewCountAppend([ps[i]], ps[i + 1..j]);
  }

  lemma {:induction false} NewCountAppend(a: seq<PromptInput>, b: seq<PromptInput>)
    ensures NewCount(a + b) == NewCount(a) + NewCount(b)
  {
    if a == [] {
      assert a + b == b;
    } else {
      assert (a + b)[1..] == a[1..] + b;
      NewCountAppend(a[1..], b);
    }
  }
}
