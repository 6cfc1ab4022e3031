/**
 * The submission screen for several circles (src/screens/submissions/MultiCircleSubmissionScreen.tsx):
 * its deadline, the draft texts per circle and prompt, the auto-save of the drafts that
 * differ from the server, the submit handler, and when the inputs are disabled. The
 * queries' results, the debounced draft and the mutations' outcomes are inputs; the
 * mutations the screen calls are recorded in order.
 */
module MultiCircleSubmission {
  import opened Wrappers
  import opened Calendar
  import opened Store
  import opened Text
  import Dates
  import Countdown

  // ---------------------------------------------------------------------------------
  // The deadline
  // ---------------------------------------------------------------------------------

  /** getDeadlineTimestamp() as written: the next second Saturday of dates.ts, moved to 10:59 UTC. */
  function GetDeadlineTimestampAsWritten(now: int): Option<int>
  {
    SetUtcHours(Dates.GetNextSecondSaturdayAsWritten(now), 10, 59, 0, 0)
  }

  /** getDeadlineTimestamp() over the corrected getNextSecondSaturday, which compares days. */
  function GetDeadlineTimestamp(now: int): Option<int>
  {
    SetUtcHours(Dates.GetNextSecondSaturday(now), 10, 59, 0, 0)
  }

  /**
   * The screen's deadline, for a date of the years 100 to 9998: this month's deadline up
   * to and including its second Saturday, next month's after it.
   */
  lemma {:induction false} DeadlineIs(now: int)
    requires 100 <= UtcDate(now).year <= 9998
    ensures UtcDate(now).day <= SecondSaturdayOf(UtcDate(now).year, UtcDate(now).month) ==>
              GetDeadlineTimestamp(now) == Some(SecondSaturdayDeadline(UtcDate(now).year, UtcDate(now).month))
    ensures UtcDate(now).day > SecondSaturdayOf(UtcDate(now).year, UtcDate(now).month) ==>
              GetDeadlineTimestamp(now) ==
                Some(SecondSaturdayDeadline(NextMonth(UtcDate(now).year, UtcDate(now).month).0,
                                            NextMonth(UtcDate(now).year, UtcDate(now).month).1))
  {
    var d := UtcDate(now);
    var (ny, nm) := NextMonth(d.year, d.month);
    Dates.NextSecondSaturdayIs(now);
    Dates.MidnightToDeadline(d.year, d.month);
    Dates.MidnightToDeadline(ny, nm);
  }

  /**
   * On a second Saturday after midnight and before 10:59 UTC, the screen as written shows
   * next month's deadline although this month's has not passed; the corrected screen
   * shows this month's, which is still ahead.
   */
  lemma {:induction false} AsWrittenDeadlineSkipsToday(now: int)
    requires 100 <= UtcDate(now).year <= 9998
    requires OnSecondSaturday(now) && 0 < now % MsPerDay
    ensures GetDeadlineTimestampAsWritten(now) ==
              Some(SecondSaturdayDeadline(NextMonth(UtcDate(now).year, UtcDate(now).month).0,
                                          NextMonth(UtcDate(now).year, UtcDate(now).month).1))
    ensures GetDeadlineTimestamp(now) == Some(SecondSaturdayDeadline(UtcDate(now).year, UtcDate(now).month))
  {
    var d := UtcDate(now);
    var (ny, nm) := NextMonth(d.year, d.month);
    Dates.AsWrittenSkipsSecondSaturday(now);
    Dates.MidnightToDeadline(ny, nm);
    DeadlineIs(now);
  }

  // ---------------------------------------------------------------------------------
  // Drafts
  // ---------------------------------------------------------------------------------

  /** A response as the submission query returns it. */
  datatype ServerResponse = ServerResponse(promptId: Id, text: string)

  /** getSubmissionForCircle: still loading (undefined), no submission (null), or the submission. */
  datatype SubmissionQuery = Loading | NoSubmission | HasSubmission(id: Id, responses: seq<ServerResponse>)

  /** `submissionData?.responses ?? []`. */
  function ResponsesOf(q: SubmissionQuery): seq<ServerResponse>
  {
    if q.HasSubmission? then q.responses else []
  }

  /** `responses.find((r) => r.promptId === promptId)?.text ?? ''`: the first response to the prompt, or ''. */
  function ServerText(responses: seq<ServerResponse>, promptId: Id): (t: string)
    ensures (forall i :: 0 <= i < |responses| ==> responses[i].promptId != promptId) ==> t == ""
    ensures forall i :: (0 <= i < |responses| && responses[i].promptId == promptId &&
                         (forall j :: 0 <= j < i ==> responses[j].promptId != promptId)) ==> t == responses[i].text
  {
    if responses == [] then ""
    else if responses[0].promptId == promptId then responses[0].text
    else
      var t := ServerText(responses[1..], promptId);
      assert forall i :: 1 <= i < |responses| ==> responses[i] == responses[1..][i - 1];
      t
  }

  /** The draft a circle starts with: one entry per prompt, holding the server's text or ''. */
  function InitialDraft(prompts: seq<Id>, responses: seq<ServerResponse>): map<Id, string>
  {
    map p | p in prompts :: ServerText(responses, p)
  }

  /** The loop of the initialising effects, building the circle's map prompt by prompt. */
  method BuildCircleDraft(prompts: seq<Id>, responses: seq<ServerResponse>) returns (m: map<Id, string>)
    ensures m == InitialDraft(prompts, responses)
  {
    m := map[];
    for i := 0 to |prompts|
      invariant m.Keys == set k | 0 <= k < i :: prompts[k]
      invariant forall p :: p in m ==> m[p] == ServerText(responses, p)
    {
      m := m[prompts[i] := ServerText(responses, prompts[i])];
    }
    assert m.Keys == set p | p in prompts by {
      forall p | p in prompts
        ensures p in m.Keys
      {
        var k :| 0 <= k < |prompts| && prompts[k] == p;
      }
    }
  }

  /** The entries whose text differs from the server's (default ''), with their texts. */
  function Changed(draft: map<Id, string>, responses: seq<ServerResponse>): (c: map<Id, string>)
    ensures forall p :: p in c <==> p in draft && draft[p] != ServerText(responses, p)
    ensures forall p :: p in c ==> c[p] == draft[p]
  {
    map p | p in draft && draft[p] != ServerText(responses, p) :: draft[p]
  }

  /** The loop of the auto-save effect collecting changedPrompts, one draft entry at a time. */
  method ChangedPrompts(draft: map<Id, string>, responses: seq<ServerResponse>) returns (changed: map<Id, string>)
    ensures changed == Changed(draft, responses)
  {
    changed := map[];
    var rest := draft.Keys;
    while rest != {}
      invariant rest <= draft.Keys
      invariant forall p :: p in changed <==> p in draft && p !in rest && draft[p] != ServerText(responses, p)
      invariant forall p :: p in changed ==> changed[p] == draft[p]
      decreases |rest|
    {
      var p :| p in rest;
      if draft[p] != ServerText(responses, p) {
        changed := changed[p := draft[p]];
      }
      rest := rest - {p};
    }
  }

  /** A freshly initialised draft matches the server: opening a circle saves nothing. */
  lemma InitialDraftUnchanged(prompts: seq<Id>, responses: seq<ServerResponse>)
    ensures Changed(InitialDraft(prompts, responses), responses) == map[]
  {
    var c := Changed(InitialDraft(prompts, responses), responses);
    assert c.Keys == {};
  }

  /**
   * Typing into one prompt of an unedited draft makes that prompt, and only it, differ
   * from the server, unless the text typed is the server's own.
   */
  lemma OneEditOneChange(prompts: seq<Id>, responses: seq<ServerResponse>, promptId: Id, value: string)
    ensures var c := Changed(InitialDraft(prompts, responses)[promptId := value], responses);
            (value != ServerText(responses, promptId) ==> c == map[promptId := value]) &&
            (value == ServerText(responses, promptId) ==> c == map[])
  {
    var d := InitialDraft(prompts, responses)[promptId := value];
    var c := Changed(d, responses);
    if value != ServerText(responses, promptId) {
      assert c.Keys == {promptId};
    } else {
      assert c.Keys == {};
    }
  }

  /** The text of a prompt in a circle's draft, '' when it has none. */
  function DraftText(draft: map<Id, string>, promptId: Id): string
  {
    if promptId in draft then draft[promptId] else ""
  }

  /** `(draftMap.get(p._id) ?? '').trim().length > 0`. */
  predicate Answered(draft: map<Id, string>, promptId: Id)
  {
    Trim(DraftText(draft, promptId)) != ""
  }

  /** How many of the flags are set. */
  function CountTrue(flags: seq<bool>): (n: nat)
    ensures n <= |flags|
  {
    if flags == [] then 0 else CountTrue(flags[..|flags| - 1]) + (if flags[|flags| - 1] then 1 else 0)
  }

  /** All the flags are counted exactly when each of them is set. */
  lemma {:induction false} CountTrueAll(flags: seq<bool>)
    ensures CountTrue(flags) == |flags| <==> forall i :: 0 <= i < |flags| ==> flags[i]
  {
    if flags != [] {
      var init := flags[..|flags| - 1];
      CountTrueAll(init);
      assert forall i :: 0 <= i < |init| ==> init[i] == flags[i];
    }
  }

  /** For each prompt, whether it is answered. */
  function AnsweredFlags(prompts: seq<Id>, draft: map<Id, string>): (f: seq<bool>)
    ensures |f| == |prompts|
    ensures forall i :: 0 <= i < |prompts| ==> f[i] == Answered(draft, prompts[i])
  {
    seq(|prompts|, i requires 0 <= i < |prompts| => Answered(draft, prompts[i]))
  }

  /** `prompts.filter(...).length`: how many of the prompts are answered. */
  function AnsweredCount(prompts: seq<Id>, draft: map<Id, string>): (n: nat)
    ensures n <= |prompts|
  {
    CountTrue(AnsweredFlags(prompts, draft))
  }

  /**
   * circleProgress, kept as the fraction answered / total: none while there are no
   * prompts.
   */
  function Progress(prompts: seq<Id>, draft: map<Id, string>): (r: Option<(nat, nat)>)
    ensures r.None? <==> prompts == []
    ensures r.Some? ==> r.value.0 <= r.value.1 == |prompts|
  {
    if prompts == [] then None else Some((AnsweredCount(prompts, draft), |prompts|))
  }

  /** The progress is complete exactly when every prompt has a text that is not all white space. */
  lemma AllAnswered(prompts: seq<Id>, draft: map<Id, string>)
    ensures AnsweredCount(prompts, draft) == |prompts| <==>
              forall i :: 0 <= i < |prompts| ==> !AllSpace(DraftText(draft, prompts[i]))
  {
    if AnsweredCount(prompts, draft) == |prompts| {
      CompleteHasNoBlank(prompts, draft);
    } else {
      IncompleteHasBlank(prompts, draft);
    }
  }

  /** When every prompt is counted, none of them has a blank draft. */
  lemma CompleteHasNoBlank(prompts: seq<Id>, draft: map<Id, string>)
    requires AnsweredCount(prompts, draft) == |prompts|
    ensures forall i :: 0 <= i < |prompts| ==> !AllSpace(DraftText(draft, prompts[i]))
  {
    var flags := AnsweredFlags(prompts, draft);
    CountTrueAll(flags);
    forall i | 0 <= i < |prompts|
      ensures !AllSpace(DraftText(draft, prompts[i]))
    {
      assert flags[i];
      AnsweredIff(draft, prompts[i]);
    }
  }

  /** When some prompt is not counted, one of them has a blank draft. */
  lemma IncompleteHasBlank(prompts: seq<Id>, draft: map<Id, string>)
    requires AnsweredCount(prompts, draft) != |prompts|
    ensures exists i :: 0 <= i < |prompts| && AllSpace(DraftText(draft, prompts[i]))
  {
    var flags := AnsweredFlags(prompts, draft);
    CountTrueAll(flags);
    var i :| 0 <= i < |prompts| && !flags[i];
    AnsweredIff(draft, prompts[i]);
  }

  /** A prompt is answered exactly when its draft text is not all white space. */
  lemma AnsweredIff(draft: map<Id, string>, promptId: Id)
    ensures Answered(draft, promptId) <==> !AllSpace(DraftText(draft, promptId))
  {
    TrimEmpty(DraftText(draft, promptId));
  }

  // ---------------------------------------------------------------------------------
  // The screen
  // ---------------------------------------------------------------------------------

  /** The save indicator's state (its return to 'idle' after 3 seconds is a timer, left out). */
  datatype SaveStatus = Idle | Saving | Saved | Error

  /**
   * The mutations the screen calls. The updateResponse calls of one save run concurrently
   * under Promise.all; they are recorded together, as the texts sent per prompt.
   */
  datatype Call = CreateSubmission(circleId: Id, cycleId: string)
                | UpdateResponses(submissionId: Id, texts: map<Id, string>)
                | LockSubmission(submissionId: Id)
                | RemoveMedia(mediaId: Id)

  /** The submission tabs' status of a circle. */
  datatype SubmissionStatus = NotStarted | InProgress | Submitted | Locked

  /**
   * isDisabled: the deadline has passed, or the active circle is locked or submitted. No
   * active circle (undefined) has no status.
   */
  predicate IsDisabled(deadlineIsPast: bool, activeStatus: Option<SubmissionStatus>)
  {
    deadlineIsPast || activeStatus == Some(Locked) || activeStatus == Some(Submitted)
  }

  /**
   * With the countdown's isPast, the inputs are disabled exactly when now has reached the
   * deadline or the circle is locked or submitted.
   */
  lemma DisabledIff(deadline: int, now: int, activeStatus: Option<SubmissionStatus>)
    ensures IsDisabled(Countdown.Compute(deadline, now).isPast, activeStatus) <==>
              now >= deadline || activeStatus == Some(Locked) || activeStatus == Some(Submitted)
  {
  }

  class Screen {
    const cycleId: string
    var drafts: map<Id, map<Id, string>>
    var saveStatus: SaveStatus
    var isSubmitting: bool
    var calls: seq<Call>

    /** No save sends an empty batch of updates. */
    predicate Valid()
      reads this
    {
      forall i :: 0 <= i < |calls| && calls[i].UpdateResponses? ==> calls[i].texts != map[]
    }

    constructor (cycleId: string)
      ensures Valid()
      ensures this.cycleId == cycleId && drafts == map[] && saveStatus == Idle && !isSubmitting && calls == []
    {
      this.cycleId := cycleId;
      drafts := map[];
      saveStatus := Idle;
      isSubmitting := false;
      calls := [];
    }

    /**
     * The two initialising effects together: once the prompts and the submission query
     * have loaded (a submission or null) and a circle is active, a circle without drafts
     * gets its initial draft; a circle that has drafts keeps them.
     */
    method InitDrafts(active: Option<Id>, submission: SubmissionQuery, prompts: Option<seq<Id>>)
      modifies this`drafts
      ensures !submission.Loading? && prompts.Some? && active.Some? && active.value !in old(drafts) ==>
                drafts == old(drafts)[active.value := InitialDraft(prompts.value, ResponsesOf(submission))]
      ensures !(!submission.Loading? && prompts.Some? && active.Some? && active.value !in old(drafts)) ==>
                drafts == old(drafts)
      ensures forall c :: c in old(drafts) ==> c in drafts && drafts[c] == old(drafts)[c]
    {
      if submission.Loading? || prompts.None? || active.None? {
        return;
      }
      if active.value in drafts {
        return;
      }
      var circleMap := BuildCircleDraft(prompts.value, ResponsesOf(submission));
      drafts := drafts[active.value := circleMap];
    }

    /**
     * handleValueChange(circleId, promptId, value): the entry of that circle and prompt is
     * set; every other entry, of this circle or another, stays as it was.
     */
    method HandleValueChange(circleId: Id, promptId: Id, value: string)
      modifies this`drafts
      ensures drafts.Keys == old(drafts).Keys + {circleId}
      ensures circleId in drafts && promptId in drafts[circleId] && drafts[circleId][promptId] == value
      ensures circleId in old(drafts) ==> drafts[circleId].Keys == old(drafts)[circleId].Keys + {promptId}
      ensures circleId !in old(drafts) ==> drafts[circleId].Keys == {promptId}
      ensures forall p :: circleId in old(drafts) && p in old(drafts)[circleId] && p != promptId ==>
                drafts[circleId][p] == old(drafts)[circleId][p]
      ensures forall c :: c in old(drafts) && c != circleId ==> drafts[c] == old(drafts)[c]
    {
      var circleMap := if circleId in drafts then drafts[circleId] else map[];
      drafts := drafts[circleId := circleMap[promptId := value]];
    }

    /**
     * The auto-save effect, run on a debounced copy of the active circle's draft with the
     * circle active at that moment. Nothing happens while the prompts are loading or
     * empty, for an empty draft, or when no entry differs from the server. Otherwise the
     * status turns to saving; without a submission id one is created first (a failure
     * there stops the save); then the changed entries are sent together under that id,
     * and the status ends saved, or error if a call failed.
     */
    method AutoSave(circleId: Id, prompts: Option<seq<Id>>, submission: SubmissionQuery, debounced: map<Id, string>,
                    createdId: Id, createFails: bool, updateFails: bool)
      requires Valid()
      modifies this`saveStatus, this`calls
      ensures Valid()
      ensures var changed := Changed(debounced, ResponsesOf(submission));
              prompts.None? || prompts.value == [] || debounced == map[] || changed == map[] ==>
                saveStatus == old(saveStatus) && calls == old(calls)
      ensures var changed := Changed(debounced, ResponsesOf(submission));
              !(prompts.None? || prompts.value == [] || debounced == map[] || changed == map[]) && submission.HasSubmission? ==>
                calls == old(calls) + [UpdateResponses(submission.id, changed)] && saveStatus == (if updateFails then Error else Saved)
      ensures var changed := Changed(debounced, ResponsesOf(submission));
              !(prompts.None? || prompts.value == [] || debounced == map[] || changed == map[]) && !submission.HasSubmission? ==>
                calls == old(calls) + [CreateSubmission(circleId, cycleId)] +
                         (if createFails then [] else [UpdateResponses(createdId, changed)]) &&
                saveStatus == (if createFails || updateFails then Error else Saved)
    {
      if prompts.None? || prompts.value == [] {
        return;
      }
      if debounced == map[] {
        return;
      }
      var changed := ChangedPrompts(debounced, ResponsesOf(submission));
      if changed == map[] {
        return;
      }
      saveStatus := Saving;
      var submissionId: Id;
      if submission.HasSubmission? {
        submissionId := submission.id;
      } else {
        calls := calls + [CreateSubmission(circleId, cycleId)];
        if createFails {
          saveStatus := Error;
          return;
        }
        submissionId := createdId;
      }
      SendUpdates(submissionId, changed, updateFails);
    }

    /** The Promise.all of updateResponse calls, and the status it leaves. */
    method SendUpdates(submissionId: Id, changed: map<Id, string>, updateFails: bool)
      requires Valid() && changed != map[]
      modifies this`saveStatus, this`calls
      ensures Valid()
      ensures calls == old(calls) + [UpdateResponses(submissionId, changed)]
      ensures saveStatus == if updateFails then Error else Saved
    {
      calls := calls + [UpdateResponses(submissionId, changed)];
      saveStatus := if updateFails then Error else Saved;
    }

    /**
     * handleSubmit up to its await: nothing without a submission id or while a submit is
     * in flight; otherwise isSubmitting is set and lockSubmission called once.
     */
    method HandleSubmit(submission: SubmissionQuery)
      requires Valid()
      modifies this`isSubmitting, this`calls
      ensures Valid()
      ensures !submission.HasSubmission? || old(isSubmitting) ==> isSubmitting == old(isSubmitting) && calls == old(calls)
      ensures submission.HasSubmission? && !old(isSubmitting) ==>
                isSubmitting && calls == old(calls) + [LockSubmission(submission.id)]
    {
      if !submission.HasSubmission? || isSubmitting {
        return;
      }
      isSubmitting := true;
      calls := calls + [LockSubmission(submission.id)];
    }

    /** handleMediaUpload: the medium is already stored, so the status shows saved. */
    method HandleMediaUpload()
      modifies this`saveStatus
      ensures saveStatus == Saved
    {
      saveStatus := Saved;
    }

    /** handleMediaRemove(mediaId): removeMedia is called; the status shows saved, or error if it failed. */
    method HandleMediaRemove(mediaId: Id, failed: bool)
      requires Valid()
      modifies this`saveStatus, this`calls
      ensures Valid()
      ensures calls == old(calls) + [RemoveMedia(mediaId)]
      ensures saveStatus == if failed then Error else Saved
    {
      calls := calls + [RemoveMedia(mediaId)];
      saveStatus := if failed then Error else Saved;
    }

    /** The finally block of handleSubmit. */
    method SettleSubmit()
      modifies this`isSubmitting
      ensures !isSubmitting
    {
      isSubmitting := false;
    }
  }

  /** Two clicks on Submit before the first settles lock the submission once. */
  method DoubleClick(screen: Screen, submission: SubmissionQuery)
    requires screen.Valid() && !screen.isSubmitting && submission.HasSubmission?
    modifies screen
    ensures screen.calls == old(screen.calls) + [LockSubmission(submission.id)]
  {
    screen.HandleSubmit(submission);
    screen.HandleSubmit(submission);
  }

  /**
   * Opening a circle whose data has loaded and letting auto-save run on its untouched
   * draft sends nothing.
   */
  method OpenThenAutoSave(screen: Screen, circleId: Id, prompts: seq<Id>, submission: SubmissionQuery, createdId: Id)
    requires screen.Valid() && circleId !in screen.drafts && !submission.Loading?
    modifies screen
    ensures screen.calls == old(screen.calls) && screen.saveStatus == old(screen.saveStatus)
  {
    screen.InitDrafts(Some(circleId), submission, Some(prompts));
    InitialDraftUnchanged(prompts, ResponsesOf(submission));
    screen.AutoSave(circleId, Some(prompts), submission, screen.drafts[circleId], createdId, false, false);
  }
}
