/**
 * The prompts editor (src/components/PromptsEditor.tsx): the list of prompts a circle admin
 * edits before saving them with updatePrompts. Each list operation is the pure updater the
 * component hands to setPrompts; the class Editor holds the component's state (the list, the
 * error line, the toasts shown) and applies them.
 */
module PromptsEditor {
  import opened Wrappers
  import opened Text
  import opened Store
  import Prompts

  /** One row of the editor: a local id, the prompt's id when it is saved already, its text. */
  datatype PromptItem = PromptItem(id: string, dbId: Option<Id>, text: string)

  /** A prompt as getCirclePrompts returns it. */
  datatype ExistingPrompt = ExistingPrompt(id: Id, text: string)

  datatype Toast = ToastError(message: string) | ToastSuccess(message: string)

  /** How the updatePrompts call ended: it succeeded, or it threw an Error (its message) or another value (None). */
  datatype Reply = Saved | Threw(error: Option<string>)

  const MaxEditorPrompts := 8
  const DuplicateToast := "This prompt already exists"
  const NoPromptsError := "At least 1 prompt is required"
  const DuplicateError := "Duplicate prompts are not allowed"
  const SavedToast := "Prompts saved!"
  const SaveFailedMessage := "Failed to save prompts"

  /** The form two prompt texts are compared in: trimmed and lower-cased. */
  function Key(text: string): string
  {
    ToLower(Trim(text))
  }

  /** text.trim() is falsy: the text is blank (Text.TrimEmpty). */
  predicate Blank(text: string)
  {
    AllSpace(text)
  }

  predicate HasId(items: seq<PromptItem>, id: string)
  {
    exists i :: 0 <= i < |items| && items[i].id == id
  }

  predicate UniqueIds(items: seq<PromptItem>)
  {
    forall i, j :: 0 <= i < j < |items| ==> items[i].id != items[j].id
  }

  /** No two prompts of the list have the same key. */
  predicate DistinctKeys(items: seq<PromptItem>)
  {
    forall i, j :: 0 <= i < j < |items| ==> Key(items[i].text) != Key(items[j].text)
  }

  predicate Distinct<T(==)>(s: seq<T>)
  {
    forall i, j :: 0 <= i < j < |s| ==> s[i] != s[j]
  }

  /** The number of different values in s: the size of new Set(s). */
  function SetSize<T(==)>(s: seq<T>): nat
  {
    |set x | x in s|
  }

  /** new Set(s).size equals s.length exactly when s repeats no value. */
  lemma {:induction false} SetSizeDistinct<T>(s: seq<T>)
    ensures SetSize(s) <= |s|
    ensures SetSize(s) == |s| <==> Distinct(s)
  {
    if s != [] {
      var p, x := s[..|s| - 1], s[|s| - 1];
      assert s == p + [x];
      SetSizeDistinct(p);
      DistinctSnoc(p, x);
      assert (set y | y in s) == (set y | y in p) + {x};
      if x !in p {
        assert x !in (set y | y in p);
      }
    }
  }

  /** One more value keeps a list without repeats exactly when it is new. */
  lemma DistinctSnoc<T>(p: seq<T>, x: T)
    ensures Distinct(p + [x]) <==> Distinct(p) && x !in p
  {
    var s := p + [x];
    if x in p {
      var k :| 0 <= k < |p| && p[k] == x;
      assert s[k] == s[|p|];
    }
    if Distinct(s) {
      forall i, j | 0 <= i < j < |p|
        ensures p[i] != p[j]
      {
        assert s[i] == p[i] && s[j] == p[j];
      }
    }
  }

  // ---------------------------------------------------------------------------------
  // Loading the saved prompts

  /** The local id of the i-th loaded prompt. */
  function LoadedId(i: nat): string
  {
    "prompt-" + NatToString(i)
  }

  /** Different positions have different local ids. */
  lemma LoadedIdsDiffer(i: nat, j: nat)
    requires i != j
    ensures LoadedId(i) != LoadedId(j)
  {
    if LoadedId(i) == LoadedId(j) {
      assert NatToString(i) == LoadedId(i)[7..];
      assert NatToString(j) == LoadedId(j)[7..];
      DigitsValueOfNatToString(i);
      DigitsValueOfNatToString(j);
    }
  }

  /**
   * The populate effect's update: an empty list takes the loaded prompts, in their order,
   * with local ids prompt-0, prompt-1, ...; a non-empty list, or prompts not loaded yet,
   * leave it as it is.
   */
  function Populate(current: seq<PromptItem>, existing: Option<seq<ExistingPrompt>>): (r: seq<PromptItem>)
    ensures existing.None? || current != [] ==> r == current
    ensures existing.Some? && current == [] ==>
              |r| == |existing.value| &&
              forall i :: 0 <= i < |r| ==> r[i] == PromptItem(LoadedId(i), Some(existing.value[i].id), existing.value[i].text)
    ensures UniqueIds(current) ==> UniqueIds(r)
  {
    if existing.Some? && current == [] then
      var r := seq(|existing.value|, i requires 0 <= i < |existing.value| =>
                     PromptItem(LoadedId(i), Some(existing.value[i].id), existing.value[i].text));
      assert UniqueIds(r) by {
        forall i, j | 0 <= i < j < |r|
          ensures r[i].id != r[j].id
        {
          LoadedIdsDiffer(i, j);
        }
      }
      r
    else current
  }

  // ---------------------------------------------------------------------------------
  // Adding, removing and editing prompts

  datatype AddOutcome = Ignored | Duplicate | Added(items: seq<PromptItem>)

  /** prompts.some(p => key(p.text) === key(text)). */
  predicate HasKey(items: seq<PromptItem>, k: string)
  {
    exists i :: 0 <= i < |items| && Key(items[i].text) == k
  }

  /** The local id of a prompt added at time now (Date.now()). */
  function AddedId(now: int): string
  {
    "prompt-" + IntToString(now)
  }

  /**
   * addPrompt(text) at time now: nothing when the list holds 8 prompts already; the duplicate
   * toast when the text is not blank and its key is already in the list; otherwise the text
   * appended as a new, unsaved prompt.
   */
  function AddPrompt(items: seq<PromptItem>, text: string, now: int): (r: AddOutcome)
    ensures r == Ignored <==> |items| >= MaxEditorPrompts
    ensures r == Duplicate <==> |items| < MaxEditorPrompts && !Blank(text) && HasKey(items, Key(text))
    ensures r.Added? ==> |r.items| == |items| + 1 <= MaxEditorPrompts
    ensures r.Added? ==> r.items[..|items|] == items && r.items[|items|] == PromptItem(AddedId(now), None, text)
  {
    if |items| >= MaxEditorPrompts then Ignored
    else if !Blank(text) && HasKey(items, Key(text)) then Duplicate
    else Added(items + [PromptItem(AddedId(now), None, text)])
  }

  /** The list two adds of first and second at the same time now leave behind. */
  function SameTickPair(first: string, second: string, now: int): seq<PromptItem>
  {
    [PromptItem(AddedId(now), None, first), PromptItem(AddedId(now), None, second)]
  }

  /**
   * Two adds within one millisecond, which the function accepts, give two rows with one id:
   * removing that id then empties the list, and editing it changes both rows.
   */
  lemma SameTickAddsClash(first: string, second: string, now: int, edit: string)
    requires Key(first) != Key(second)
    ensures AddPrompt([], first, now) == Added([PromptItem(AddedId(now), None, first)])
    ensures AddPrompt([PromptItem(AddedId(now), None, first)], second, now) == Added(SameTickPair(first, second, now))
    ensures !UniqueIds(SameTickPair(first, second, now))
    ensures RemovePrompt(SameTickPair(first, second, now), AddedId(now)) == []
    ensures UpdatePromptText(SameTickPair(first, second, now), AddedId(now), edit)[0].text == edit
    ensures UpdatePromptText(SameTickPair(first, second, now), AddedId(now), edit)[1].text == edit
  {
    AddToEmpty(first, now);
    AddSecond(first, second, now);
    SharedIdRows(SameTickPair(first, second, now), AddedId(now), edit);
  }

  lemma AddToEmpty(text: string, now: int)
    ensures AddPrompt([], text, now) == Added([PromptItem(AddedId(now), None, text)])
  {
    assert [] + [PromptItem(AddedId(now), None, text)] == [PromptItem(AddedId(now), None, text)];
  }

  lemma AddSecond(first: string, second: string, now: int)
    requires Key(first) != Key(second)
    ensures AddPrompt([PromptItem(AddedId(now), None, first)], second, now) == Added(SameTickPair(first, second, now))
  {
    var one := [PromptItem(AddedId(now), None, first)];
    assert !HasKey(one, Key(second));
    assert one + [PromptItem(AddedId(now), None, second)] == SameTickPair(first, second, now);
  }

  /** Rows that share one id: not distinct, all removed together, all edited together. */
  lemma SharedIdRows(items: seq<PromptItem>, id: string, edit: string)
    requires |items| == 2 && items[0].id == id && items[1].id == id
    ensures !UniqueIds(items)
    ensures RemovePrompt(items, id) == []
    ensures UpdatePromptText(items, id, edit)[0].text == edit
    ensures UpdatePromptText(items, id, edit)[1].text == edit
  {
    RemoveSharedId(items, id);
  }

  /** Removing the id every row of a longer list shares leaves nothing. */
  lemma RemoveSharedId(items: seq<PromptItem>, id: string)
    requires |items| > 1 && forall i :: 0 <= i < |items| ==> items[i].id == id
    ensures RemovePrompt(items, id) == []
  {
    WithoutSharedId(items, id);
  }

  lemma {:induction false} WithoutSharedId(items: seq<PromptItem>, id: string)
    requires forall i :: 0 <= i < |items| ==> items[i].id == id
    ensures WithoutId(items, id) == []
    decreases |items|
  {
    if items != [] {
      WithoutSharedId(items[1..], id);
    }
  }

  /** Items whose id is not id, in their order. */
  function WithoutId(items: seq<PromptItem>, id: string): (r: seq<PromptItem>)
    ensures |r| <= |items|
    ensures forall x :: x in r <==> x in items && x.id != id
    ensures !HasId(items, id) ==> r == items
  {
    if items == [] then []
    else
      var rest := WithoutId(items[1..], id);
      assert forall x :: x in items <==> x == items[0] || x in items[1..] by {
        assert items == [items[0]] + items[1..];
      }
      assert !HasId(items, id) ==> !HasId(items[1..], id) by {
        if HasId(items[1..], id) {
          var k :| 0 <= k < |items[1..]| && items[1..][k].id == id;
          assert items[k + 1].id == id;
        }
      }
      if items[0].id == id then rest else [items[0]] + rest
  }

  /** With distinct ids, removing one id keeps the ids distinct and removes one prompt when it is there. */
  lemma {:induction false} WithoutIdUnique(items: seq<PromptItem>, id: string)
    requires UniqueIds(items)
    ensures UniqueIds(WithoutId(items, id))
    ensures HasId(items, id) ==> |WithoutId(items, id)| == |items| - 1
  {
    if items != [] {
      var tail := items[1..];
      assert UniqueIds(tail) by {
        forall i, j | 0 <= i < j < |tail|
          ensures tail[i].id != tail[j].id
        {
          assert tail[i] == items[i + 1] && tail[j] == items[j + 1];
        }
      }
      WithoutIdUnique(tail, id);
      var rest := WithoutId(tail, id);
      if items[0].id == id {
        assert !HasId(tail, id) by {
          forall k | 0 <= k < |tail|
            ensures tail[k].id != id
          {
            assert tail[k] == items[k + 1];
          }
        }
      } else {
        assert HasId(items, id) ==> HasId(tail, id) by {
          if HasId(items, id) {
            var j :| 0 <= j < |items| && items[j].id == id;
            assert tail[j - 1].id == id;
          }
        }
        forall x | x in rest
          ensures x.id != items[0].id
        {
          var k :| 0 <= k < |tail| && tail[k] == x;
          assert items[k + 1] == x;
        }
        ConsUnique(items[0], rest);
      }
    }
  }

  /** A prompt whose id no prompt of a list with distinct ids has, in front of it, keeps the ids distinct. */
  lemma ConsUnique(x: PromptItem, s: seq<PromptItem>)
    requires UniqueIds(s) && forall y :: y in s ==> y.id != x.id
    ensures UniqueIds([x] + s)
  {
    var r := [x] + s;
    forall i, j | 0 <= i < j < |r|
      ensures r[i].id != r[j].id
    {
      assert r[j] == s[j - 1] && s[j - 1] in s;
      if i > 0 {
        assert r[i] == s[i - 1];
      }
    }
  }

  /** A prompt with a new id, added at the end, keeps the ids distinct. */
  lemma SnocUnique(s: seq<PromptItem>, x: PromptItem)
    requires UniqueIds(s) && !HasId(s, x.id)
    ensures UniqueIds(s + [x])
  {
    var r := s + [x];
    forall i, j | 0 <= i < j < |r|
      ensures r[i].id != r[j].id
    {
      assert r[i] == s[i];
      if j < |s| {
        assert r[j] == s[j];
      }
    }
  }

  /**
   * removePrompt(id): the list without the prompt with that id, or unchanged when only one
   * prompt is left. With distinct ids it removes one prompt and never empties the list.
   */
  function RemovePrompt(items: seq<PromptItem>, id: string): (r: seq<PromptItem>)
    ensures |items| <= 1 ==> r == items
    ensures |items| > 1 ==> forall x :: x in r <==> x in items && x.id != id
    ensures UniqueIds(items) ==> UniqueIds(r)
    ensures UniqueIds(items) && |items| >= 1 ==> |r| >= 1
    ensures UniqueIds(items) && HasId(items, id) && |items| > 1 ==> |r| == |items| - 1
  {
    if |items| <= 1 then items
    else
      assert UniqueIds(items) ==>
               UniqueIds(WithoutId(items, id)) && (HasId(items, id) ==> |WithoutId(items, id)| == |items| - 1) by {
        if UniqueIds(items) {
          WithoutIdUnique(items, id);
        }
      }
      WithoutId(items, id)
  }

  /** updatePromptText(id, text): the prompts with that id get the new text; ids, saved ids and order stay. */
  function UpdatePromptText(items: seq<PromptItem>, id: string, text: string): (r: seq<PromptItem>)
    ensures |r| == |items|
    ensures forall i :: 0 <= i < |r| ==> r[i].id == items[i].id && r[i].dbId == items[i].dbId
    ensures forall i :: 0 <= i < |r| ==> r[i].text == (if items[i].id == id then text else items[i].text)
  {
    seq(|items|, i requires 0 <= i < |items| => if items[i].id == id then items[i].(text := text) else items[i])
  }

  // ---------------------------------------------------------------------------------
  // Reordering

  /** items.findIndex(i => i.id === id): the first position with that id, or -1. */
  function FindIndex(items: seq<PromptItem>, id: string): (r: int)
    ensures -1 <= r < |items|
    ensures r == -1 <==> !HasId(items, id)
    ensures r >= 0 ==> items[r].id == id && forall k :: 0 <= k < r ==> items[k].id != id
  {
    if items == [] then -1
    else if items[0].id == id then 0
    else
      var k := FindIndex(items[1..], id);
      assert HasId(items, id) ==> HasId(items[1..], id) by {
        if HasId(items, id) {
          var j :| 0 <= j < |items| && items[j].id == id;
          assert items[1..][j - 1].id == id;
        }
      }
      if k == -1 then -1 else k + 1
  }

  /** The position in the list before arrayMove(_, from, to) of the item at position k after it. */
  function MovedFrom(n: nat, from: nat, to: nat, k: nat): (p: nat)
    requires from < n && to < n && k < n
    ensures p < n
    ensures k == to <==> p == from
  {
    if k == to then from
    else
      var m := if k < to then k else k - 1;
      if m < from then m else m + 1
  }

  /** Different positions after the move come from different positions before it. */
  lemma MovedFromInjective(n: nat, from: nat, to: nat, i: nat, j: nat)
    requires from < n && to < n && i < j < n
    ensures MovedFrom(n, from, to, i) != MovedFrom(n, from, to, j)
  {
  }

  /**
   * arrayMove(s, from, to) as dnd-kit's sortable package defines it: the item at from is
   * taken out and put back in at position to. The other items keep their order.
   */
  function ArrayMove<T>(s: seq<T>, from: nat, to: nat): (r: seq<T>)
    requires from < |s| && to < |s|
    ensures |r| == |s| && r[to] == s[from]
    ensures forall k :: 0 <= k < |r| ==> r[k] == s[MovedFrom(|s|, from, to, k)]
  {
    var rest := s[..from] + s[from + 1..];
    rest[..to] + [s[from]] + rest[to..]
  }

  /** Taking the moved item out again leaves the others in their old order. */
  lemma ArrayMoveRest<T>(s: seq<T>, from: nat, to: nat)
    requires from < |s| && to < |s|
    ensures ArrayMove(s, from, to)[..to] + ArrayMove(s, from, to)[to + 1..] == s[..from] + s[from + 1..]
  {
    var rest := s[..from] + s[from + 1..];
    var r := ArrayMove(s, from, to);
    assert r[..to] == rest[..to] && r[to + 1..] == rest[to..];
    assert rest[..to] + rest[to..] == rest;
  }

  /** A move is a permutation. */
  lemma ArrayMovePermutes<T>(s: seq<T>, from: nat, to: nat)
    requires from < |s| && to < |s|
    ensures multiset(ArrayMove(s, from, to)) == multiset(s)
  {
    var x, a, b := s[from], s[..from], s[from + 1..];
    var rest := a + b;
    var r := ArrayMove(s, from, to);
    assert r == rest[..to] + [x] + rest[to..];
    assert rest[..to] + rest[to..] == rest;
    assert s == a + [x] + b;
    calc {
      multiset(r);
      multiset(rest[..to]) + multiset{x} + multiset(rest[to..]);
      multiset(rest) + multiset{x};
      multiset(a) + multiset(b) + multiset{x};
      multiset(s);
    }
  }

  /** Moving an item back to where it came from undoes the move. */
  lemma ArrayMoveBack<T>(s: seq<T>, from: nat, to: nat)
    requires from < |s| && to < |s|
    ensures ArrayMove(ArrayMove(s, from, to), to, from) == s
  {
    var r := ArrayMove(s, from, to);
    var rest := s[..from] + s[from + 1..];
    ArrayMoveRest(s, from, to);
    assert r[..to] + r[to + 1..] == rest;
    assert rest[..from] == s[..from] && rest[from..] == s[from + 1..];
    assert s == rest[..from] + [s[from]] + rest[from..];
  }

  /**
   * handleDragEnd: nothing without a drop target or when an item is dropped on itself;
   * otherwise the dragged item moves to the position of the item it was dropped on. Both
   * ids are those of rendered rows, so both are in the list.
   */
  function HandleDragEnd(items: seq<PromptItem>, active: string, over: Option<string>): (r: seq<PromptItem>)
    requires HasId(items, active) && (over.Some? ==> HasId(items, over.value))
    ensures over.None? || over.value == active ==> r == items
    ensures |r| == |items| && multiset(r) == multiset(items)
    ensures UniqueIds(items) ==> UniqueIds(r)
    ensures over.Some? && over.value != active ==>
              r[FindIndex(items, over.value)] == items[FindIndex(items, active)] &&
              r[FindIndex(items, over.value)].id == active
  {
    if over.None? || active == over.value then items
    else
      var from, to := FindIndex(items, active), FindIndex(items, over.value);
      var r := ArrayMove(items, from, to);
      ArrayMovePermutes(items, from, to);
      assert UniqueIds(items) ==> UniqueIds(r) by {
        if UniqueIds(items) {
          forall i, j | 0 <= i < j < |r|
            ensures r[i].id != r[j].id
          {
            MovedFromInjective(|items|, from, to, i, j);
          }
        }
      }
      r
  }

  // ---------------------------------------------------------------------------------
  // Saving

  /** prompts.filter(p => p.text.trim()): the prompts that are not blank, in order. */
  function NonBlank(items: seq<PromptItem>): (r: seq<PromptItem>)
    ensures |r| <= |items|
    ensures forall x :: x in r <==> x in items && !Blank(x.text)
  {
    if items == [] then []
    else
      var last := items[|items| - 1];
      var init := NonBlank(items[..|items| - 1]);
      assert items == items[..|items| - 1] + [last];
      init + if Blank(last.text) then [] else [last]
  }

  /** The keys of the non-blank prompts, the array whose Set is compared with it. */
  function Keys(valid: seq<PromptItem>): (r: seq<string>)
    ensures |r| == |valid| && forall i :: 0 <= i < |r| ==> r[i] == Key(valid[i].text)
  {
    seq(|valid|, i requires 0 <= i < |valid| => Key(valid[i].text))
  }

  /** updatePrompts' argument: the non-blank prompts, trimmed, numbered by position. */
  function Payload(valid: seq<PromptItem>): (r: seq<Prompts.PromptInput>)
    ensures |r| == |valid|
    ensures forall i :: 0 <= i < |r| ==> r[i] == Prompts.PromptInput(valid[i].dbId, Trim(valid[i].text), i)
  {
    seq(|valid|, i requires 0 <= i < |valid| => Prompts.PromptInput(valid[i].dbId, Trim(valid[i].text), i))
  }

  datatype SaveOutcome = Rejected(message: string) | Send(payload: seq<Prompts.PromptInput>)

  /**
   * handleSave's checks before the mutation: at least one non-blank prompt, then no two
   * non-blank prompts with the same key (new Set(texts).size against texts.length); otherwise
   * the payload to send.
   */
  function HandleSave(items: seq<PromptItem>): (r: SaveOutcome)
    ensures NonBlank(items) == [] ==> r == Rejected(NoPromptsError)
    ensures NonBlank(items) != [] && !DistinctKeys(NonBlank(items)) ==> r == Rejected(DuplicateError)
    ensures NonBlank(items) != [] && DistinctKeys(NonBlank(items)) ==> r == Send(Payload(NonBlank(items)))
  {
    var valid := NonBlank(items);
    if |valid| < 1 then Rejected(NoPromptsError)
    else
      var texts := Keys(valid);
      SetSizeDistinct(texts);
      assert Distinct(texts) <==> DistinctKeys(valid);
      if SetSize(texts) != |texts| then Rejected(DuplicateError)
      else Send(Payload(valid))
  }

  /** The list is empty after filtering exactly when every prompt is blank. */
  lemma NonBlankEmpty(items: seq<PromptItem>)
    ensures NonBlank(items) == [] <==> forall i :: 0 <= i < |items| ==> Blank(items[i].text)
  {
    if NonBlank(items) != [] {
      assert NonBlank(items)[0] in items;
    } else {
      forall i | 0 <= i < |items|
        ensures Blank(items[i].text)
      {
        assert items[i] in items;
      }
    }
  }

  /** The payload sent holds one to |items| prompts whose lower-cased texts differ. */
  lemma SentPayload(items: seq<PromptItem>)
    requires HandleSave(items).Send?
    ensures 1 <= |HandleSave(items).payload| <= |items|
    ensures forall i, j :: 0 <= i < j < |HandleSave(items).payload| ==>
              ToLower(HandleSave(items).payload[i].text) != ToLower(HandleSave(items).payload[j].text)
  {
    var ps := HandleSave(items).payload;
    var valid := NonBlank(items);
    forall i, j | 0 <= i < j < |ps|
      ensures ToLower(ps[i].text) != ToLower(ps[j].text)
    {
      assert ToLower(ps[i].text) == Key(valid[i].text);
      assert ToLower(ps[j].text) == Key(valid[j].text);
    }
  }

  /**
   * What the editor sends passes updatePrompts' own checks whenever the list holds at most 8
   * prompts, each within the input's 200-character limit.
   */
  lemma {:induction false} SentPromptsAccepted(items: seq<PromptItem>)
    requires HandleSave(items).Send?
    requires |items| <= MaxEditorPrompts
    requires forall i :: 0 <= i < |items| ==> |items[i].text| <= Prompts.MaxPromptLength
    ensures Prompts.ValidatePrompts(HandleSave(items).payload) == Pass
  {
    var valid := NonBlank(items);
    var ps := HandleSave(items).payload;
    forall i | 0 <= i < |ps|
      ensures |ps[i].text| <= Prompts.MaxPromptLength
    {
      assert valid[i] in items;
    }
  }

  /** Filtering a list with one more prompt at the end. */
  lemma NonBlankSnoc(items: seq<PromptItem>, x: PromptItem)
    ensures NonBlank(items + [x]) == NonBlank(items) + if Blank(x.text) then [] else [x]
  {
    assert (items + [x])[..|items|] == items;
  }

  /** An added prompt keeps the non-blank keys distinct: a duplicate is what addPrompt refuses. */
  lemma {:induction false} AddKeepsKeysDistinct(items: seq<PromptItem>, text: string, now: int)
    requires DistinctKeys(NonBlank(items))
    requires AddPrompt(items, text, now).Added?
    ensures DistinctKeys(NonBlank(AddPrompt(items, text, now).items))
  {
    var x := PromptItem(AddedId(now), None, text);
    assert AddPrompt(items, text, now).items == items + [x];
    NonBlankSnoc(items, x);
    if !Blank(text) {
      assert !HasKey(items, Key(text));
      NewKeyFiltered(items, Key(text));
      SnocDistinctKeys(NonBlank(items), x);
    }
  }

  /** A key no prompt has is the key of no prompt kept by the filter. */
  lemma NewKeyFiltered(items: seq<PromptItem>, k: string)
    requires !HasKey(items, k)
    ensures forall y :: y in NonBlank(items) ==> Key(y.text) != k
  {
    forall y | y in NonBlank(items)
      ensures Key(y.text) != k
    {
      var i :| 0 <= i < |items| && items[i] == y;
    }
  }

  /** A prompt with a new key, added at the end, keeps the keys distinct. */
  lemma SnocDistinctKeys(v: seq<PromptItem>, x: PromptItem)
    requires DistinctKeys(v) && forall y :: y in v ==> Key(y.text) != Key(x.text)
    ensures DistinctKeys(v + [x])
  {
    var w := v + [x];
    forall i, j | 0 <= i < j < |w|
      ensures Key(w[i].text) != Key(w[j].text)
    {
      assert w[i] == v[i] && v[i] in v;
      if j < |v| {
        assert w[j] == v[j];
      }
    }
  }

  // ---------------------------------------------------------------------------------
  // The component

  /** The save button is enabled when no save is running and some prompt is not blank. */
  predicate CanSave(saving: bool, items: seq<PromptItem>)
  {
    !saving && NonBlank(items) != []
  }

  /** Outside a save, the button is enabled exactly when handleSave would not stop at its first check. */
  lemma SaveButtonMatchesCheck(items: seq<PromptItem>)
    ensures CanSave(false, items) <==> HandleSave(items) != Rejected(NoPromptsError)
  {
    assert NoPromptsError != DuplicateError by {
      assert NoPromptsError[0] != DuplicateError[0];
    }
  }

  /** The message of a failed save: the thrown Error's own message, or the default for anything else thrown. */
  function FailureText(e: Option<string>): string
  {
    if e.Some? then e.value else SaveFailedMessage
  }

  class Editor {
    var prompts: seq<PromptItem>
    var error: Option<string>
    var toasts: seq<Toast>
    /** How many times onComplete was called. */
    var completed: nat

    /** The local ids are distinct. A save runs within one step here, so saving is false between steps. */
    predicate Valid()
      reads this
    {
      UniqueIds(prompts)
    }

    constructor ()
      ensures Valid() && prompts == [] && error == None && toasts == [] && completed == 0
    {
      prompts := [];
      error := None;
      toasts := [];
      completed := 0;
    }

    /** The populate effect, when getCirclePrompts has answered (or not yet: None). */
    method Load(existing: Option<seq<ExistingPrompt>>)
      requires Valid()
      modifies this`prompts
      ensures Valid() && prompts == Populate(old(prompts), existing)
    {
      prompts := Populate(prompts, existing);
    }

    /**
     * addPrompt(text) at time now. The new local id is taken to be unused: two prompts added
     * in the same millisecond would share one.
     */
    method Add(text: string, now: int)
      requires Valid() && !HasId(prompts, AddedId(now))
      modifies this`prompts, this`toasts
      ensures Valid()
      ensures AddPrompt(old(prompts), text, now) == Duplicate ==> prompts == old(prompts) && toasts == old(toasts) + [ToastError(DuplicateToast)]
      ensures AddPrompt(old(prompts), text, now) == Ignored ==> prompts == old(prompts) && toasts == old(toasts)
      ensures AddPrompt(old(prompts), text, now).Added? ==> prompts == AddPrompt(old(prompts), text, now).items && toasts == old(toasts)
      ensures |old(prompts)| <= MaxEditorPrompts ==> |prompts| <= MaxEditorPrompts
    {
      var r := AddPrompt(prompts, text, now);
      match r {
        case Ignored =>
        case Duplicate =>
          toasts := toasts + [ToastError(DuplicateToast)];
        case Added(items) =>
          SnocUnique(prompts, PromptItem(AddedId(now), None, text));
          prompts := items;
      }
    }

    method Remove(id: string)
      requires Valid()
      modifies this`prompts
      ensures Valid() && prompts == RemovePrompt(old(prompts), id)
      ensures |old(prompts)| >= 1 ==> |prompts| >= 1
    {
      prompts := RemovePrompt(prompts, id);
    }

    method UpdateText(id: string, text: string)
      requires Valid()
      modifies this`prompts
      ensures Valid() && prompts == UpdatePromptText(old(prompts), id, text)
    {
      prompts := UpdatePromptText(prompts, id, text);
    }

    method DragEnd(active: string, over: Option<string>)
      requires Valid() && HasId(prompts, active) && (over.Some? ==> HasId(prompts, over.value))
      modifies this`prompts
      ensures Valid() && prompts == HandleDragEnd(old(prompts), active, over)
    {
      prompts := HandleDragEnd(prompts, active, over);
    }

    /**
     * handleSave, with the mutation's answer given as server: the error line is cleared;
     * a rejected list sets it and sends nothing; otherwise the payload is sent, and success
     * shows a toast and calls onComplete, while a failure shows the Error's message, or the
     * default for anything else thrown, as a toast and on the error line.
     */
    method Save(server: Reply) returns (sent: Option<seq<Prompts.PromptInput>>)
      requires Valid()
      modifies this`error, this`toasts, this`completed
      ensures Valid()
      ensures match HandleSave(prompts)
        case Rejected(message) =>
          sent == None && error == Some(message) && toasts == old(toasts) && completed == old(completed)
        case Send(payload) =>
          sent == Some(payload) &&
          match server
            case Saved => error == None && toasts == old(toasts) + [ToastSuccess(SavedToast)] && completed == old(completed) + 1
            case Threw(e) => error == Some(FailureText(e)) && toasts == old(toasts) + [ToastError(FailureText(e))] && completed == old(completed)
    {
      error := None;
      match HandleSave(prompts) {
        case Rejected(message) =>
          error := Some(message);
          sent := None;
        case Send(payload) =>
          sent := Some(payload);
          match server {
            case Saved =>
              toasts := toasts + [ToastSuccess(SavedToast)];
              completed := completed + 1;
            case Threw(e) =>
              toasts := toasts + [ToastError(FailureText(e))];
              error := Some(FailureText(e));
          }
      }
    }
  }

}
