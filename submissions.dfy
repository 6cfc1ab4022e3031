/**
 * A member's monthly submission in a circle: one submission per user, circle and cycle,
 * one response per prompt, and up to three media items per response numbered 0, 1, 2.
 * Once locked, a submission can no longer be changed.
 */
module Submissions {
  import opened Wrappers
  import opened Text
  import opened Store
  import opened Sorting
  import Access
  import CycleIds
  import Prompts

  const MaxResponseLength := 500
  const MaxMediaPerResponse := 3

  const CycleFormatError := "Cycle ID must be in YYYY-MM format"
  const CycleYearError := "Invalid year in cycle ID"
  const CycleMonthError := "Invalid month in cycle ID"

  // ---------------------------------------------------------------------------------
  // Validation

  /** The pattern /^\d{4}-\d{2}$/. */
  predicate MatchesCyclePattern(s: string)
  {
    |s| == 7 && AllDigits(s[..4]) && s[4] == '-' && AllDigits(s[5..])
  }

  /** validateCycleId: the pattern first, then the year range 2024..2099, then the month 1..12. */
  function ValidateCycleId(cycleId: string): (r: Outcome)
    ensures !MatchesCyclePattern(cycleId) ==> r == Fail(CycleFormatError)
    ensures MatchesCyclePattern(cycleId) && !(2024 <= DigitsValue(cycleId[..4]) <= 2099) ==>
              r == Fail(CycleYearError)
    ensures (MatchesCyclePattern(cycleId) && 2024 <= DigitsValue(cycleId[..4]) <= 2099 &&
             !(1 <= DigitsValue(cycleId[5..]) <= 12)) ==> r == Fail(CycleMonthError)
    ensures r.Fail? ==> r.msg in {CycleFormatError, CycleYearError, CycleMonthError}
  {
    if !MatchesCyclePattern(cycleId) then Fail(CycleFormatError)
    else
      var parts := Split(cycleId, '-');
      assert parts == [cycleId[..4], cycleId[5..]] by {
        assert '-' !in cycleId[..4] by {
          assert forall i :: 0 <= i < 4 ==> IsDigit(cycleId[..4][i]);
        }
        assert '-' !in cycleId[5..] by {
          assert forall i :: 0 <= i < 2 ==> IsDigit(cycleId[5..][i]);
        }
        assert cycleId == cycleId[..4] + ['-'] + cycleId[5..];
        SplitAt(cycleId[..4], '-', cycleId[5..]);
      }
      var year := DigitsValue(parts[0]);
      var month := DigitsValue(parts[1]);
      if year < 2024 || year > 2099 then Fail(CycleYearError)
      else if month < 1 || month > 12 then Fail(CycleMonthError)
      else Pass
  }

  /**
   * A cycle id is accepted exactly when it is the "YYYY-MM" id of a month of the years
   * 2024 to 2099.
   */
  lemma ValidCycleIdIffMonth(cycleId: string)
    ensures ValidateCycleId(cycleId).Pass? <==>
              exists y, m :: 2024 <= y <= 2099 && 1 <= m <= 12 && cycleId == CycleIds.Format(y, m)
  {
    if ValidateCycleId(cycleId).Pass? {
      ValidatedIsMonth(cycleId);
    }
    if exists y, m :: 2024 <= y <= 2099 && 1 <= m <= 12 && cycleId == CycleIds.Format(y, m) {
      var y, m :| 2024 <= y <= 2099 && 1 <= m <= 12 && cycleId == CycleIds.Format(y, m);
      FormatOfMonthValidates(y, m);
    }
  }

  /** An accepted cycle id is the id of a month of the years 2024 to 2099. */
  lemma ValidatedIsMonth(cycleId: string)
    requires ValidateCycleId(cycleId).Pass?
    ensures exists y, m :: 2024 <= y <= 2099 && 1 <= m <= 12 && cycleId == CycleIds.Format(y, m)
  {
    {
      var ys, ms := cycleId[..4], cycleId[5..];
      var y, m := DigitsValue(ys), DigitsValue(ms);
      FourDigitsValue(ys);
      TwoDigitsValue(ms);
      NatToStringOfDigits(ys);
      if ms[0] == '0' {
        assert NatToString(m) == [ms[1]];
        assert PadStart2(NatToString(m)) == ms;
      } else {
        NatToStringOfDigits(ms);
      }
      assert cycleId == ys + "-" + ms;
      assert cycleId == CycleIds.Format(y, m);
    }
  }

  lemma FormatOfMonthValidates(y: int, m: int)
    requires 2024 <= y <= 2099 && 1 <= m <= 12
    ensures ValidateCycleId(CycleIds.Format(y, m)).Pass?
  {
    var ys := NatToString(y);
    NatToStringLength(y);
    CycleIds.PaddedMonthValue(m);
    DigitsValueOfNatToString(y);
    PartsValidate(ys, PadStart2(NatToString(m)), y, m);
  }

  /** A four-digit year in range, a dash and a two-digit month in range pass validateCycleId. */
  lemma PartsValidate(ys: string, ms: string, y: int, m: int)
    requires |ys| == 4 && AllDigits(ys) && DigitsValue(ys) == y && 2024 <= y <= 2099
    requires |ms| == 2 && AllDigits(ms) && DigitsValue(ms) == m && 1 <= m <= 12
    ensures ValidateCycleId(ys + "-" + ms).Pass?
  {
    var s := ys + "-" + ms;
    assert s[..4] == ys && s[5..] == ms;
  }

  /** validateResponseText: at most 500 characters. */
  function ValidateResponseText(text: string): (r: Outcome)
    ensures r.Pass? <==> |text| <= MaxResponseLength
    ensures r.Fail? ==> r.msg == "Response text must be 500 characters or less"
  {
    if |text| > MaxResponseLength then Fail("Response text must be 500 characters or less") else Pass
  }

  // ---------------------------------------------------------------------------------
  // Invariants of the submission tables

  predicate SameCycleKey(a: Submission, b: Submission)
  {
    a.userId == b.userId && a.circleId == b.circleId && a.cycleId == b.cycleId
  }

  /** One submission per user per circle per cycle. */
  ghost predicate OneSubmissionPerCycle(subs: map<Id, Submission>)
  {
    forall a, b :: a in subs && b in subs && SameCycleKey(subs[a], subs[b]) ==> a == b
  }

  /** One response per prompt within a submission. */
  ghost predicate OneResponsePerPrompt(rs: map<Id, Response>)
  {
    forall a, b ::
      (a in rs && b in rs && rs[a].submissionId == rs[b].submissionId && rs[a].promptId == rs[b].promptId) ==> a == b
  }

  /** The media items of a response. */
  ghost function MediaOf(media: map<Id, Media>, responseId: Id): set<Id>
  {
    set k | k in media && media[k].responseId == responseId
  }

  /**
   * The media of every response number 0 .. count-1 without gaps or repeats, and a
   * response has at most three.
   */
  ghost predicate MediaNumbered(media: map<Id, Media>)
  {
    (forall k :: k in media ==>
       0 <= media[k].order < |MediaOf(media, media[k].responseId)| <= MaxMediaPerResponse) &&
    (forall a, b :: a in media && b in media && a != b && media[a].responseId == media[b].responseId ==>
       media[a].order != media[b].order)
  }

  /** The ids of the media of a response in creation order (the by_response index). */
  function MediaRows(media: map<Id, Media>, n: nat, responseId: Id): (r: seq<Id>)
    requires Below(media, n)
    ensures forall k :: k in r <==> k in MediaOf(media, responseId)
    ensures |r| == |MediaOf(media, responseId)|
    ensures forall i, j :: 0 <= i < j < |r| ==> r[i] < r[j]
  {
    var r := Rows(media, n, (m: Media) => m.responseId == responseId);
    AscendingCard(r, MediaOf(media, responseId));
    r
  }

  // ---------------------------------------------------------------------------------
  // Mutations

  /** The guards of createSubmission, in the order the mutation runs them. */
  function CreateSubmissionGuard(db_memberships: map<Id, Membership>, db_submissions: map<Id, Submission>, n: nat,
                                 caller: Id, circleId: Id, cycleId: string): (r: Outcome)
    ensures r.Pass? <==>
              Access.RequireMember(db_memberships, n, caller, circleId).Ok? &&
              ValidateCycleId(cycleId).Pass? &&
              forall k :: k in db_submissions && k < n ==>
                !SameCycleKey(db_submissions[k], Submission(circleId, caller, cycleId, None, None, 0, 0))
  {
    match Access.RequireMember(db_memberships, n, caller, circleId)
    case Err(e) => Fail(e)
    case Ok(_) =>
      match ValidateCycleId(cycleId)
      case Fail(e) => Fail(e)
      case Pass =>
        var existing := First(Rows(db_submissions, n, (s: Submission) =>
                                s.userId == caller && s.circleId == circleId && s.cycleId == cycleId));
        if existing.Some? then Fail("Only one submission per user per circle per cycle allowed")
        else Pass
  }

  /** createSubmission: a new, unlocked and not yet submitted submission of the caller. */
  method CreateSubmission(db: Database, caller: Id, circleId: Id, cycleId: string, now: int) returns (r: Result<Id>)
    requires db.Valid()
    modifies db`submissions, db`nextId
    ensures db.Valid()
    ensures var g := CreateSubmissionGuard(old(db.memberships), old(db.submissions), old(db.nextId), caller, circleId, cycleId);
            (g.Fail? ==> r == Err(g.msg) && unchanged(db)) &&
            (g.Pass? ==>
               (r.Ok? && r.value !in old(db.submissions) &&
                db.submissions == old(db.submissions)[r.value := Submission(circleId, caller, cycleId, None, None, now, now)]))
    ensures OneSubmissionPerCycle(old(db.submissions)) ==> OneSubmissionPerCycle(db.submissions)
  {
    var g := CreateSubmissionGuard(db.memberships, db.submissions, db.nextId, caller, circleId, cycleId);
    if g.Fail? {
      return Err(g.msg);
    }
    var row := Submission(circleId, caller, cycleId, None, None, now, now);
    assert forall k :: k in db.submissions ==> !SameCycleKey(db.submissions[k], row) by {
      assert Below(db.submissions, db.nextId);
    }
    InsertKeepsOneSubmission(db.submissions, db.nextId, row);
    var id := db.InsertSubmission(row);
    r := Ok(id);
  }

  lemma InsertKeepsOneSubmission(subs: map<Id, Submission>, id: Id, row: Submission)
    requires id !in subs
    requires forall k :: k in subs ==> !SameCycleKey(subs[k], row)
    ensures OneSubmissionPerCycle(subs) ==> OneSubmissionPerCycle(subs[id := row])
  {
  }

  /**
   * getPromptsForCircle: an active member of the circle gets the circle's active prompts in
   * ascending order; anyone else is refused.
   */
  function GetPromptsForCircle(memberships: map<Id, Membership>, prompts: map<Id, Prompt>, n: nat,
                               caller: Id, circleId: Id): (r: Result<seq<Id>>)
    ensures r.Err? <==> Access.RequireMember(memberships, n, caller, circleId).Err?
    ensures r.Err? ==> r.msg == Access.NotAMember
    ensures r.Ok? ==> r.value == Prompts.ActiveInOrder(prompts, n, circleId)
  {
    match Access.RequireMember(memberships, n, caller, circleId)
    case Err(e) => Err(e)
    case Ok(_) => Ok(Prompts.ActiveInOrder(prompts, n, circleId))
  }

  const SubmissionNotFound := "Submission not found"
  const LockedError := "Cannot modify locked submission"

  /** The guards of updateResponse, in the order the mutation runs them. */
  function UpdateResponseGuard(subs: map<Id, Submission>, prompts: map<Id, Prompt>,
                               caller: Id, submissionId: Id, promptId: Id, text: string): (r: Outcome)
    ensures r.Pass? <==>
              |text| <= MaxResponseLength && submissionId in subs && subs[submissionId].userId == caller &&
              !IsLocked(subs[submissionId]) && promptId in prompts &&
              prompts[promptId].circleId == subs[submissionId].circleId
  {
    if ValidateResponseText(text).Fail? then Fail(ValidateResponseText(text).msg)
    else if submissionId !in subs then Fail(SubmissionNotFound)
    else if subs[submissionId].userId != caller then Fail("Not authorized to modify this submission")
    else if IsLocked(subs[submissionId]) then Fail(LockedError)
    else if promptId !in prompts then Fail("Prompt not found")
    else if prompts[promptId].circleId != subs[submissionId].circleId then Fail("Prompt does not belong to this circle")
    else Pass
  }

  /** The response of a submission to a prompt (the by_submission_prompt index, `.first()`). */
  function ResponseTo(rs: map<Id, Response>, n: nat, submissionId: Id, promptId: Id): (r: Option<Id>)
    ensures r.Some? ==> r.value in rs && rs[r.value].submissionId == submissionId && rs[r.value].promptId == promptId
    ensures r.None? <==> forall k :: k in rs && k < n ==> !(rs[k].submissionId == submissionId && rs[k].promptId == promptId)
  {
    var rows := Rows(rs, n, (x: Response) => x.submissionId == submissionId && x.promptId == promptId);
    if |rows| == 0 then None else assert rows[0] in rows; Some(rows[0])
  }

  /**
   * updateResponse (the auto-save): writes the text of the caller's response to a prompt,
   * updating the existing response or creating it, and touches the submission's updatedAt.
   */
  method UpdateResponse(db: Database, caller: Id, submissionId: Id, promptId: Id, text: string, now: int)
    returns (r: Result<Id>)
    requires db.Valid()
    modifies db`responses, db`submissions, db`nextId
    ensures db.Valid()
    ensures var g := UpdateResponseGuard(old(db.submissions), old(db.prompts), caller, submissionId, promptId, text);
            (g.Fail? ==> r == Err(g.msg) && unchanged(db)) &&
            (g.Pass? ==>
               (r.Ok? &&
                db.submissions == old(db.submissions)[submissionId := old(db.submissions)[submissionId].(updatedAt := now)] &&
                match ResponseTo(old(db.responses), old(db.nextId), submissionId, promptId)
                case Some(e) =>
                  r.value == e && db.responses == old(db.responses)[e := old(db.responses)[e].(text := text, updatedAt := now)]
                case None =>
                  r.value !in old(db.responses) &&
                  db.responses == old(db.responses)[r.value := Response(submissionId, promptId, text, now, now)]))
    ensures r.Ok? ==> r.value in db.responses && db.responses[r.value].text == text &&
                      db.responses[r.value].submissionId == submissionId && db.responses[r.value].promptId == promptId
    ensures OneResponsePerPrompt(old(db.responses)) ==> OneResponsePerPrompt(db.responses)
  {
    var g := UpdateResponseGuard(db.submissions, db.prompts, caller, submissionId, promptId, text);
    if g.Fail? {
      return Err(g.msg);
    }
    var existing := ResponseTo(db.responses, db.nextId, submissionId, promptId);
    if existing.Some? {
      var e := existing.value;
      var row := db.responses[e].(text := text, updatedAt := now);
      ReplaceKeepsOneResponse(db.responses, e, row);
      db.SetResponse(e, row);
      r := Ok(e);
    } else {
      var row := Response(submissionId, promptId, text, now, now);
      assert Below(db.responses, db.nextId);
      InsertKeepsOneResponse(db.responses, db.nextId, row);
      var id := db.InsertResponse(row);
      r := Ok(id);
    }
    db.SetSubmission(submissionId, db.submissions[submissionId].(updatedAt := now));
  }

  lemma ReplaceKeepsOneResponse(rs: map<Id, Response>, e: Id, row: Response)
    requires e in rs && rs[e].submissionId == row.submissionId && rs[e].promptId == row.promptId
    ensures OneResponsePerPrompt(rs) ==> OneResponsePerPrompt(rs[e := row])
  {
  }

  lemma InsertKeepsOneResponse(rs: map<Id, Response>, id: Id, row: Response)
    requires id !in rs
    requires forall k :: k in rs ==> !(rs[k].submissionId == row.submissionId && rs[k].promptId == row.promptId)
    ensures OneResponsePerPrompt(rs) ==> OneResponsePerPrompt(rs[id := row])
  {
  }

  /** lockSubmission: the owner locks and submits an unlocked submission. */
  method LockSubmission(db: Database, caller: Id, submissionId: Id, now: int) returns (r: Result<Id>)
    requires db.Valid()
    modifies db`submissions
    ensures db.Valid()
    ensures submissionId !in old(db.submissions) ==> r == Err(SubmissionNotFound)
    ensures submissionId in old(db.submissions) && old(db.submissions)[submissionId].userId != caller ==>
              r == Err("Not authorized to lock this submission")
    ensures (submissionId in old(db.submissions) && old(db.submissions)[submissionId].userId == caller &&
             IsLocked(old(db.submissions)[submissionId])) ==> r == Err("Submission is already locked")
    ensures r.Err? ==> unchanged(db)
    ensures r.Ok? <==> submissionId in old(db.submissions) && old(db.submissions)[submissionId].userId == caller &&
                       !IsLocked(old(db.submissions)[submissionId])
    ensures r.Ok? ==>
              (r.value == submissionId &&
               db.submissions == old(db.submissions)[submissionId :=
                 old(db.submissions)[submissionId].(lockedAt := Some(now), submittedAt := Some(now), updatedAt := now)])
    ensures r.Ok? && now > 0 ==> IsLocked(db.submissions[submissionId])
  {
    if submissionId !in db.submissions {
      return Err(SubmissionNotFound);
    }
    var s := db.submissions[submissionId];
    if s.userId != caller {
      return Err("Not authorized to lock this submission");
    }
    if IsLocked(s) {
      return Err("Submission is already locked");
    }
    db.SetSubmission(submissionId, s.(lockedAt := Some(now), submittedAt := Some(now), updatedAt := now));
    r := Ok(submissionId);
  }

  /** The guards shared by the two media mutations once the response is known. */
  function MediaOwnerGuard(rs: map<Id, Response>, subs: map<Id, Submission>, caller: Id, responseId: Id,
                           notOwner: string): (r: Outcome)
    ensures r.Pass? <==> responseId in rs && rs[responseId].submissionId in subs &&
                         subs[rs[responseId].submissionId].userId == caller && !IsLocked(subs[rs[responseId].submissionId])
  {
    if responseId !in rs then Fail("Response not found")
    else if rs[responseId].submissionId !in subs then Fail(SubmissionNotFound)
    else if subs[rs[responseId].submissionId].userId != caller then Fail(notOwner)
    else if IsLocked(subs[rs[responseId].submissionId]) then Fail(LockedError)
    else Pass
  }

  /**
   * addMediaToResponse: attaches a media item to the caller's unlocked response; the item
   * takes the next number, and a response that already has three items is refused.
   */
  method AddMediaToResponse(db: Database, caller: Id, responseId: Id, storageId: Option<Id>, muxAssetId: Option<string>,
                            kind: MediaKind, thumbnailUrl: Option<string>, now: int) returns (r: Result<Id>)
    requires db.Valid()
    modifies db`media, db`nextId
    ensures db.Valid()
    ensures var g := MediaOwnerGuard(old(db.responses), old(db.submissions), caller, responseId, "Not authorized to modify this response");
            var count := |MediaOf(old(db.media), responseId)|;
            (g.Fail? ==> r == Err(g.msg)) &&
            (g.Pass? && count >= MaxMediaPerResponse ==> r == Err("Response can have up to 3 media items")) &&
            (g.Pass? && count < MaxMediaPerResponse ==>
               r.Ok? && r.value !in old(db.media) &&
               db.media == old(db.media)[r.value := Media(responseId, storageId, muxAssetId, kind, thumbnailUrl, count, now, now)])
    ensures r.Err? ==> unchanged(db)
    ensures MediaNumbered(old(db.media)) ==> MediaNumbered(db.media)
  {
    var g := MediaOwnerGuard(db.responses, db.submissions, caller, responseId, "Not authorized to modify this response");
    if g.Fail? {
      return Err(g.msg);
    }
    var existing := MediaRows(db.media, db.nextId, responseId);
    if |existing| >= MaxMediaPerResponse {
      return Err("Response can have up to 3 media items");
    }
    var order := |existing|;
    var item := Media(responseId, storageId, muxAssetId, kind, thumbnailUrl, order, now, now);
    AddKeepsNumbering(db.media, db.nextId, item);
    var id := db.InsertMedia(item);
    r := Ok(id);
  }

  lemma AddKeepsNumbering(media: map<Id, Media>, id: Id, item: Media)
    requires id !in media && item.order == |MediaOf(media, item.responseId)| < MaxMediaPerResponse
    ensures MediaNumbered(media) ==> MediaNumbered(media[id := item])
  {
    var after := media[id := item];
    assert MediaOf(after, item.responseId) == MediaOf(media, item.responseId) + {id};
    forall rid | rid != item.responseId
      ensures MediaOf(after, rid) == MediaOf(media, rid)
    {
    }
  }

  /**
   * removeMediaFromResponse: deletes a media item from the caller's unlocked response and
   * renumbers the items left on that response 0, 1, ... in the order of their old numbers.
   */
  method RemoveMediaFromResponse(db: Database, caller: Id, mediaId: Id) returns (r: Result<Id>)
    requires db.Valid()
    modifies db`media
    ensures db.Valid()
    ensures mediaId !in old(db.media) ==> r == Err("Media not found")
    ensures mediaId in old(db.media) ==>
              var g := MediaOwnerGuard(old(db.responses), old(db.submissions), caller,
                                       old(db.media)[mediaId].responseId, "Not authorized to remove this media");
              (g.Fail? ==> r == Err(g.msg)) && (g.Pass? ==> r == Ok(mediaId))
    ensures r.Err? ==> unchanged(db)
    ensures r.Ok? ==> RemovedAndRenumbered(old(db.media), mediaId, db.nextId, db.media)
    ensures r.Ok? && MediaNumbered(old(db.media)) ==> MediaNumbered(db.media)
  {
    if mediaId !in db.media {
      return Err("Media not found");
    }
    var rid := db.media[mediaId].responseId;
    var g := MediaOwnerGuard(db.responses, db.submissions, caller, rid, "Not authorized to remove this media");
    if g.Fail? {
      return Err(g.msg);
    }
    RemoveAndRenumber(db, mediaId);
    r := Ok(mediaId);
  }

  /** The writes of removeMediaFromResponse: delete the row, then renumber the rest of its response. */
  method RemoveAndRenumber(db: Database, mediaId: Id)
    requires db.Valid() && mediaId in db.media
    modifies db`media
    ensures db.Valid()
    ensures RemovedAndRenumbered(old(db.media), mediaId, db.nextId, db.media)
    ensures MediaNumbered(old(db.media)) ==> MediaNumbered(db.media)
  {
    var rid := db.media[mediaId].responseId;
    ghost var before := db.media;
    db.DeleteMedia(mediaId);
    var sorted := RenumberingOrder(db.media, db.nextId, rid);
    RenumberingOrderFacts(db.media, db.nextId, rid);
    Renumber(db, sorted);
    RenumberFacts(before, mediaId, db.nextId, sorted, db.media);
  }

  /** The renumbering order lists distinct media of the table. */
  lemma RenumberingOrderFacts(media: map<Id, Media>, n: nat, responseId: Id)
    requires Below(media, n)
    ensures forall i, j :: 0 <= i < j < |RenumberingOrder(media, n, responseId)| ==>
              RenumberingOrder(media, n, responseId)[i] != RenumberingOrder(media, n, responseId)[j]
    ensures forall i :: 0 <= i < |RenumberingOrder(media, n, responseId)| ==> RenumberingOrder(media, n, responseId)[i] in media
  {
    var remaining := MediaRows(media, n, responseId);
    SortedIdsFacts(remaining, ByOrder(media));
  }

  /** Sorting ascending ids by any key gives distinct ids, each one of the input's. */
  lemma SortedIdsFacts(ids: seq<Id>, key: Id -> int)
    requires forall i, j :: 0 <= i < j < |ids| ==> ids[i] < ids[j]
    ensures forall i, j :: 0 <= i < j < |SortByKey(ids, key)| ==> SortByKey(ids, key)[i] != SortByKey(ids, key)[j]
    ensures forall i :: 0 <= i < |SortByKey(ids, key)| ==> SortByKey(ids, key)[i] in ids
  {
    var sorted := SortByKey(ids, key);
    SortByKeyMembers(ids, key);
    SortedDistinct(ids, sorted);
    assert forall i :: 0 <= i < |sorted| ==> sorted[i] in sorted;
  }

  /**
   * The media table after removeMediaFromResponse deleted mediaId: the other media of its
   * response, taken in the order of their old numbers, are numbered 0, 1, 2, ... and
   * nothing else changed.
   */
  ghost predicate RemovedAndRenumbered(before: map<Id, Media>, mediaId: Id, n: nat, after: map<Id, Media>)
    requires mediaId in before && Below(before, n)
  {
    var rid := before[mediaId].responseId;
    var base := before - {mediaId};
    var sorted := RenumberingOrder(base, n, rid);
    after.Keys == base.Keys &&
    (forall k :: k in base && base[k].responseId != rid ==> after[k] == base[k]) &&
    (forall i :: 0 <= i < |sorted| ==>
       (sorted[i] in base && base[sorted[i]].responseId == rid && after[sorted[i]] == base[sorted[i]].(order := i))) &&
    (forall i, j :: 0 <= i < j < |sorted| ==> base[sorted[i]].order <= base[sorted[j]].order) &&
    (forall k :: k in base && base[k].responseId == rid ==> k in sorted)
  }

  /** What Renumber leaves behind, stated as RemovedAndRenumbered, and the numbering it keeps. */
  lemma RenumberFacts(before: map<Id, Media>, mediaId: Id, n: nat, sorted: seq<Id>, after: map<Id, Media>)
    requires mediaId in before && Below(before, n)
    requires sorted == RenumberingOrder(before - {mediaId}, n, before[mediaId].responseId)
    requires after.Keys == (before - {mediaId}).Keys
    requires forall i :: 0 <= i < |sorted| ==> sorted[i] in before - {mediaId}
    requires forall k :: k in before - {mediaId} && k !in sorted ==> after[k] == before[k]
    requires forall i :: 0 <= i < |sorted| ==> after[sorted[i]] == before[sorted[i]].(order := i)
    ensures RemovedAndRenumbered(before, mediaId, n, after)
    ensures MediaNumbered(before) ==> MediaNumbered(after)
  {
    var rid := before[mediaId].responseId;
    var base := before - {mediaId};
    OrderFacts(base, n, rid);
    RenumberedState(before, mediaId, n, sorted, after);
    RemoveKeepsNumbering(before, mediaId, sorted, after);
  }

  /** The renumbering order: distinct ids, exactly the media of the response, by ascending old number. */
  lemma OrderFacts(base: map<Id, Media>, n: nat, rid: Id)
    requires Below(base, n)
    ensures var sorted := RenumberingOrder(base, n, rid);
            (forall i, j :: 0 <= i < j < |sorted| ==> sorted[i] != sorted[j]) &&
            (forall k :: k in sorted <==> k in MediaOf(base, rid)) &&
            (forall i :: 0 <= i < |sorted| ==> sorted[i] in base) &&
            (forall i, j :: 0 <= i < j < |sorted| ==> ByOrder(base)(sorted[i]) <= ByOrder(base)(sorted[j]))
  {
    var remaining := MediaRows(base, n, rid);
    var sorted := RenumberingOrder(base, n, rid);
    SortByKeyMembers(remaining, ByOrder(base));
    SortedIdsFacts(remaining, ByOrder(base));
    assert forall i :: 0 <= i < |sorted| ==> sorted[i] in base by {
      forall i | 0 <= i < |sorted|
        ensures sorted[i] in base
      {
        assert sorted[i] in remaining;
      }
    }
    assert forall i, j :: 0 <= i < j < |sorted| ==> ByOrder(base)(sorted[i]) <= ByOrder(base)(sorted[j]);
  }

  lemma RenumberedState(before: map<Id, Media>, mediaId: Id, n: nat, sorted: seq<Id>, after: map<Id, Media>)
    requires mediaId in before && Below(before, n)
    requires sorted == RenumberingOrder(before - {mediaId}, n, before[mediaId].responseId)
    requires after.Keys == (before - {mediaId}).Keys
    requires forall i :: 0 <= i < |sorted| ==> sorted[i] in before - {mediaId}
    requires forall k :: k in before - {mediaId} && k !in sorted ==> after[k] == before[k]
    requires forall i :: 0 <= i < |sorted| ==> after[sorted[i]] == before[sorted[i]].(order := i)
    requires forall k :: k in sorted <==> k in MediaOf(before - {mediaId}, before[mediaId].responseId)
    requires forall i, j :: 0 <= i < j < |sorted| ==> ByOrder(before - {mediaId})(sorted[i]) <= ByOrder(before - {mediaId})(sorted[j])
    ensures RemovedAndRenumbered(before, mediaId, n, after)
  {
    var base := before - {mediaId};
    var rid := before[mediaId].responseId;
    forall i, j | 0 <= i < j < |sorted|
      ensures base[sorted[i]].order <= base[sorted[j]].order
    {
      assert ByOrder(base)(sorted[i]) <= ByOrder(base)(sorted[j]);
    }
    forall k | k in base && base[k].responseId != rid
      ensures after[k] == base[k]
    {
      assert k !in MediaOf(base, rid);
    }
    forall i | 0 <= i < |sorted|
      ensures sorted[i] in base && base[sorted[i]].responseId == rid && after[sorted[i]] == base[sorted[i]].(order := i)
    {
      assert sorted[i] in MediaOf(base, rid);
    }
    forall k | k in base && base[k].responseId == rid
      ensures k in sorted
    {
      assert k in MediaOf(base, rid);
    }
  }

  /** The sort key `a.order - b.order` compares. */
  function ByOrder(media: map<Id, Media>): Id -> int
  {
    (k: Id) => if k in media then media[k].order else 0
  }

  /** The media of a response sorted by their numbers, the order in which they are renumbered. */
  function RenumberingOrder(media: map<Id, Media>, n: nat, responseId: Id): seq<Id>
    requires Below(media, n)
  {
    SortByKey(MediaRows(media, n, responseId), ByOrder(media))
  }

  /** The loop of removeMediaFromResponse: item i of the list gets number i. */
  method Renumber(db: Database, sorted: seq<Id>)
    requires db.Valid()
    requires forall i, j :: 0 <= i < j < |sorted| ==> sorted[i] != sorted[j]
    requires forall i :: 0 <= i < |sorted| ==> sorted[i] in db.media
    modifies db`media
    ensures db.Valid()
    ensures db.media.Keys == old(db.media).Keys
    ensures forall k :: k in old(db.media) && k !in sorted ==> db.media[k] == old(db.media)[k]
    ensures forall i :: 0 <= i < |sorted| ==> db.media[sorted[i]] == old(db.media)[sorted[i]].(order := i)
  {
    for i := 0 to |sorted|
      invariant db.Valid()
      invariant db.media.Keys == old(db.media).Keys
      invariant forall k :: k in old(db.media) && k !in sorted ==> db.media[k] == old(db.media)[k]
      invariant forall j :: 0 <= j < i ==> db.media[sorted[j]] == old(db.media)[sorted[j]].(order := j)
      invariant forall j :: i <= j < |sorted| ==> db.media[sorted[j]] == old(db.media)[sorted[j]]
    {
      if db.media[sorted[i]].order != i {
        db.SetMedia(sorted[i], db.media[sorted[i]].(order := i));
      }
    }
  }

  lemma RemoveKeepsNumbering(media: map<Id, Media>, mediaId: Id, sorted: seq<Id>, after: map<Id, Media>)
    requires mediaId in media
    requires after.Keys == (media - {mediaId}).Keys
    requires forall i, j :: 0 <= i < j < |sorted| ==> sorted[i] != sorted[j]
    requires forall k :: k in sorted <==> k in MediaOf(media - {mediaId}, media[mediaId].responseId)
    requires forall k :: k in after && k !in sorted ==> after[k] == media[k]
    requires forall i :: 0 <= i < |sorted| ==>
               (sorted[i] in media && sorted[i] in after && after[sorted[i]] == media[sorted[i]].(order := i))
    ensures MediaNumbered(media) ==> MediaNumbered(after)
  {
    var rid := media[mediaId].responseId;
    RenumberedResponses(media, mediaId, sorted, after);
    MediaOfAfterRemoval(media, mediaId, after);
    assert MediaOf(after, rid) == MediaOf(media - {mediaId}, rid);
    DistinctCard(sorted, MediaOf(after, rid));
    if MediaNumbered(media) {
      assert |MediaOf(media, rid)| <= MaxMediaPerResponse;
      assert mediaId in MediaOf(media, rid);
      RenumberedBounds(media, mediaId, sorted, after);
      RenumberedDistinct(media, sorted, after);
    }
  }

  /** Renumbering keeps every item on its response: the renumbered ones are the removed item's response's, the rest are not. */
  lemma RenumberedResponses(media: map<Id, Media>, mediaId: Id, sorted: seq<Id>, after: map<Id, Media>)
    requires mediaId in media
    requires after.Keys == (media - {mediaId}).Keys
    requires forall i, j :: 0 <= i < j < |sorted| ==> sorted[i] != sorted[j]
    requires forall k :: k in sorted <==> k in MediaOf(media - {mediaId}, media[mediaId].responseId)
    requires forall k :: k in after && k !in sorted ==> after[k] == media[k]
    requires forall i :: 0 <= i < |sorted| ==>
               (sorted[i] in media && sorted[i] in after && after[sorted[i]] == media[sorted[i]].(order := i))
    ensures forall k :: k in after ==> after[k].responseId == media[k].responseId
    ensures forall i :: 0 <= i < |sorted| ==> after[sorted[i]].responseId == media[mediaId].responseId
    ensures forall k :: k in after && k !in sorted ==> after[k].responseId != media[mediaId].responseId
  {
    var rid := media[mediaId].responseId;
    forall k | k in after
      ensures after[k].responseId == media[k].responseId
    {
      if k in sorted {
        var i :| 0 <= i < |sorted| && sorted[i] == k;
      }
    }
    forall i | 0 <= i < |sorted|
      ensures after[sorted[i]].responseId == rid
    {
      assert sorted[i] in MediaOf(media - {mediaId}, rid);
    }
    forall k | k in after && k !in sorted
      ensures after[k].responseId != rid
    {
      assert k !in MediaOf(media - {mediaId}, rid);
    }
  }

  lemma MediaOfAfterRemoval(media: map<Id, Media>, mediaId: Id, after: map<Id, Media>)
    requires after.Keys == (media - {mediaId}).Keys
    requires forall k :: k in after ==> after[k].responseId == media[k].responseId
    ensures forall rid :: MediaOf(after, rid) == MediaOf(media, rid) - {mediaId}
  {
  }

  lemma RenumberedBounds(media: map<Id, Media>, mediaId: Id, sorted: seq<Id>, after: map<Id, Media>)
    requires MediaNumbered(media) && mediaId in media
    requires forall rid :: MediaOf(after, rid) == MediaOf(media, rid) - {mediaId}
    requires |sorted| == |MediaOf(after, media[mediaId].responseId)|
    requires forall k :: k in after ==> k in media && after[k].responseId == media[k].responseId
    requires forall k :: k in after && k !in sorted ==> after[k] == media[k] && after[k].responseId != media[mediaId].responseId
    requires forall i :: 0 <= i < |sorted| ==> sorted[i] in after && after[sorted[i]].order == i
    requires forall i :: 0 <= i < |sorted| ==> after[sorted[i]].responseId == media[mediaId].responseId
    ensures forall k :: k in after ==>
              0 <= after[k].order < |MediaOf(after, after[k].responseId)| <= MaxMediaPerResponse
  {
    forall k | k in after
      ensures 0 <= after[k].order < |MediaOf(after, after[k].responseId)| <= MaxMediaPerResponse
    {
      RenumberedBoundAt(media, mediaId, sorted, after, k);
    }
  }

  lemma RenumberedBoundAt(media: map<Id, Media>, mediaId: Id, sorted: seq<Id>, after: map<Id, Media>, k: Id)
    requires MediaNumbered(media) && mediaId in media
    requires forall rid :: MediaOf(after, rid) == MediaOf(media, rid) - {mediaId}
    requires |sorted| == |MediaOf(after, media[mediaId].responseId)|
    requires forall k :: k in after ==> k in media && after[k].responseId == media[k].responseId
    requires forall k :: k in after && k !in sorted ==> after[k] == media[k] && after[k].responseId != media[mediaId].responseId
    requires forall i :: 0 <= i < |sorted| ==> sorted[i] in after && after[sorted[i]].order == i
    requires forall i :: 0 <= i < |sorted| ==> after[sorted[i]].responseId == media[mediaId].responseId
    requires k in after
    ensures 0 <= after[k].order < |MediaOf(after, after[k].responseId)| <= MaxMediaPerResponse
  {
    {
      var rk := after[k].responseId;
      var before := MediaOf(media, rk);
      assert 0 <= media[k].order < |before| <= MaxMediaPerResponse;
      var i := if k in sorted then IndexIn(sorted, k) else 0;
      RenumberedBound(before, MediaOf(after, rk), mediaId, k in sorted, media[k].order, after[k].order,
                      rk == media[mediaId].responseId, |sorted|, i);
    }
  }

  function IndexIn(s: seq<Id>, x: Id): (i: nat)
    requires x in s
    ensures i < |s| && s[i] == x
  {
    if s[0] == x then 0 else 1 + IndexIn(s[1..], x)
  }

  /** The arithmetic of one renumbered or untouched item. */
  lemma RenumberedBound(before: set<Id>, now: set<Id>, removed: Id, renumbered: bool, oldOrder: int, newOrder: int,
                        sameResponse: bool, count: nat, i: nat)
    requires now == before - {removed}
    requires 0 <= oldOrder < |before| <= MaxMediaPerResponse
    requires sameResponse ==> removed in before
    requires !sameResponse ==> removed !in before
    requires renumbered <==> sameResponse
    requires renumbered ==> newOrder == i && i < count && count == |now|
    requires !renumbered ==> newOrder == oldOrder
    ensures 0 <= newOrder < |now| <= MaxMediaPerResponse
  {
    if !sameResponse {
      assert now == before;
    }
  }

  lemma RenumberedDistinct(media: map<Id, Media>, sorted: seq<Id>, after: map<Id, Media>)
    requires forall a, b :: a in media && b in media && a != b && media[a].responseId == media[b].responseId ==>
               media[a].order != media[b].order
    requires forall i, j :: 0 <= i < j < |sorted| ==> sorted[i] != sorted[j]
    requires forall k :: k in after ==> k in media && after[k].responseId == media[k].responseId
    requires forall k :: k in after && k !in sorted ==> after[k] == media[k]
    requires forall a, b :: a in after && b in after && a in sorted && b !in sorted ==> after[a].responseId != after[b].responseId
    requires forall i :: 0 <= i < |sorted| ==> sorted[i] in after && after[sorted[i]].order == i
    ensures forall a, b :: a in after && b in after && a != b && after[a].responseId == after[b].responseId ==>
              after[a].order != after[b].order
  {
    forall a, b | a in after && b in after && a != b && after[a].responseId == after[b].responseId
      ensures after[a].order != after[b].order
    {
      if a in sorted && b in sorted {
        var i :| 0 <= i < |sorted| && sorted[i] == a;
        var j :| 0 <= j < |sorted| && sorted[j] == b;
      }
    }
  }

  /** A list without repeats covering a set is as long as the set is large. */
  lemma {:induction false} DistinctCard(r: seq<Id>, s: set<Id>)
    requires forall i, j :: 0 <= i < j < |r| ==> r[i] != r[j]
    requires forall k :: k in r <==> k in s
    ensures |r| == |s|
    decreases |r|
  {
    if r != [] {
      var last := r[|r| - 1];
      var init := r[..|r| - 1];
      assert forall k :: k in init <==> k in s - {last} by {
        forall k
          ensures k in init <==> k in s - {last}
        {
          if k in init {
            var i :| 0 <= i < |init| && init[i] == k;
            assert r[i] == k;
          }
          if k in s - {last} {
            var i :| 0 <= i < |r| && r[i] == k;
            assert i < |r| - 1;
            assert init[i] == k;
          }
        }
      }
      DistinctCard(init, s - {last});
    }
  }
}
