/**
 * The blocking-upload hook (src/hooks/useBlockingUpload.ts): the stage, progress and error of
 * an upload, the AbortController of the upload in flight, the beforeunload guard while an
 * upload is under way, and the callbacks it fires. The hook's state is a class whose methods
 * are the hook's actions, each followed by the effects React runs after the re-render it
 * causes. AbortControllers are numbered in order of creation; the callbacks fired are logged.
 */
module BlockingUpload {
  import opened Wrappers

  datatype Stage = Idle | Selecting | Compressing | Uploading | Processing | Complete | Error

  /** A call of one of the options' callbacks. */
  datatype Callback = OnComplete | OnError(message: string) | OnCancel

  /** The stages that block navigation. */
  predicate Blocks(s: Stage)
  {
    s == Selecting || s == Compressing || s == Uploading || s == Processing
  }

  class Upload {
    var stage: Stage
    var progress: int
    var error: Option<string>
    /** abortControllerRef.current and its state copy abortController. */
    var controllerRef: Option<nat>
    var controllerState: Option<nat>
    /** Controllers created so far are 0 .. created - 1; aborted holds those aborted. */
    var created: nat
    var aborted: set<nat>
    /** Whether the beforeunload handler is registered on the window. */
    var unloadGuard: bool
    /** Whether the one-second timer that resets a completed upload is pending. */
    var resetPending: bool
    /** The callbacks fired so far, in order. */
    var fired: seq<Callback>

    /** Controllers created and not aborted. */
    function Live(): set<nat>
      reads this
    {
      set c | 0 <= c < created && c !in aborted
    }

    /**
     * The hook's invariant: the ref and its state copy agree; only created controllers are
     * aborted; the only controller not yet aborted is the current one; the beforeunload
     * guard is registered exactly while the stage blocks; the reset timer runs only in stage
     * complete.
     */
    predicate Valid()
      reads this
    {
      controllerRef == controllerState &&
      (forall a :: a in aborted ==> a < created) &&
      (controllerRef.Some? ==> controllerRef.value < created && controllerRef.value !in aborted) &&
      (forall c :: 0 <= c < created && c !in aborted ==> controllerRef == Some(c)) &&
      (unloadGuard <==> Blocks(stage)) &&
      (resetPending ==> stage == Complete)
    }

    /** isBlocking. */
    function IsBlocking(): (b: bool)
      reads this
      ensures Valid() ==> (b <==> unloadGuard)
    {
      Blocks(stage)
    }

    /** The hook as first rendered: idle, no progress, no error, no controller. */
    constructor ()
      ensures Valid()
      ensures stage == Idle && progress == 0 && error == None
      ensures controllerRef == None && created == 0 && Live() == {} && fired == []
    {
      stage := Idle;
      progress := 0;
      error := None;
      controllerRef := None;
      controllerState := None;
      created := 0;
      aborted := {};
      unloadGuard := false;
      resetPending := false;
      fired := [];
    }

    /**
     * The effects after a render in which stage or error changed: the guard follows
     * isBlocking; the stage effect's cleanup clears a pending reset timer; then stage
     * complete fires onComplete and starts the timer, and stage error with a non-empty
     * message fires onError.
     */
    method AfterRender()
      modifies this`unloadGuard, this`resetPending, this`fired
      ensures unloadGuard == Blocks(stage)
      ensures resetPending == (stage == Complete)
      ensures stage == Complete ==> fired == old(fired) + [OnComplete]
      ensures stage == Error && error.Some? && error.value != "" ==> fired == old(fired) + [OnError(error.value)]
      ensures stage != Complete && !(stage == Error && error.Some? && error.value != "") ==> fired == old(fired)
    {
      unloadGuard := Blocks(stage);
      resetPending := false;
      if stage == Complete {
        fired := fired + [OnComplete];
        resetPending := true;
      } else if stage == Error && error.Some? && error.value != "" {
        fired := fired + [OnError(error.value)];
      }
    }

    /** setStage(s): a new stage re-renders and runs the effects; the same stage changes nothing. */
    method SetStage(s: Stage)
      requires Valid()
      modifies this`stage, this`unloadGuard, this`resetPending, this`fired
      ensures Valid()
      ensures stage == s
      ensures s == old(stage) ==> fired == old(fired) && resetPending == old(resetPending)
      ensures s != old(stage) && s == Complete ==> fired == old(fired) + [OnComplete] && resetPending
      ensures s != old(stage) && s == Error && error.Some? && error.value != "" ==> fired == old(fired) + [OnError(error.value)]
      ensures s != old(stage) && s != Complete && !(s == Error && error.Some? && error.value != "") ==> fired == old(fired)
    {
      if s != stage {
        stage := s;
        AfterRender();
      }
    }

    /** setProgress(p). */
    method SetProgress(p: int)
      requires Valid()
      modifies this`progress
      ensures Valid() && progress == p
    {
      progress := p;
    }

    /**
     * setError(e): a new message re-renders and runs the effects, which depend on the error
     * too: in stage complete they fire onComplete again and re-arm the reset timer.
     */
    method SetError(e: Option<string>)
      requires Valid()
      modifies this`error, this`unloadGuard, this`resetPending, this`fired
      ensures Valid()
      ensures error == e
      ensures e == old(error) ==> fired == old(fired)
      ensures e != old(error) && stage == Error && e.Some? && e.value != "" ==> fired == old(fired) + [OnError(e.value)]
      ensures e != old(error) && stage == Error && !(e.Some? && e.value != "") ==> fired == old(fired)
      ensures e != old(error) && stage == Complete ==> fired == old(fired) + [OnComplete] && resetPending
      ensures stage != Error && stage != Complete ==> fired == old(fired)
    {
      if e != error {
        error := e;
        AfterRender();
      }
    }

    /** Aborts the controller in the ref, if any, and clears the ref and its state copy. */
    method DropController()
      requires Valid()
      modifies this`controllerRef, this`controllerState, this`aborted
      ensures controllerRef == None && controllerState == None
      ensures aborted == old(aborted) + (if old(controllerRef).Some? then {old(controllerRef).value} else {})
      ensures Live() == {}
      ensures (unloadGuard <==> Blocks(stage)) && (resetPending ==> stage == Complete)
    {
      if controllerRef.Some? {
        aborted := aborted + {controllerRef.value};
        controllerRef := None;
      }
      controllerState := None;
    }

    /** reset(): abort and forget the controller, back to idle with no progress and no error. */
    method Reset()
      requires Valid()
      modifies this
      ensures Valid()
      ensures stage == Idle && progress == 0 && error == None
      ensures controllerRef == None && Live() == {} && created == old(created)
      ensures aborted == old(aborted) + (if old(controllerRef).Some? then {old(controllerRef).value} else {})
      ensures !resetPending && !unloadGuard
      ensures fired == old(fired)
    {
      DropController();
      var changed := stage != Idle || error != None;
      stage := Idle;
      progress := 0;
      error := None;
      if changed {
        AfterRender();
      }
    }

    /** cancel(): what reset() does, then onCancel. */
    method Cancel()
      requires Valid()
      modifies this
      ensures Valid()
      ensures stage == Idle && progress == 0 && error == None
      ensures controllerRef == None && Live() == {} && created == old(created)
      ensures aborted == old(aborted) + (if old(controllerRef).Some? then {old(controllerRef).value} else {})
      ensures !resetPending && !unloadGuard
      ensures fired == old(fired) + [OnCancel]
    {
      Reset();
      fired := fired + [OnCancel];
    }

    /** createAbortController(): the previous controller is aborted, a new one becomes current. */
    method CreateAbortController() returns (c: nat)
      requires Valid()
      modifies this`controllerRef, this`controllerState, this`aborted, this`created
      ensures Valid()
      ensures c == old(created) && created == old(created) + 1
      ensures controllerRef == Some(c) && Live() == {c}
      ensures aborted == old(aborted) + (if old(controllerRef).Some? then {old(controllerRef).value} else {})
    {
      DropController();
      c := created;
      created := created + 1;
      controllerRef := Some(c);
      controllerState := Some(c);
      assert forall k :: 0 <= k < created && k !in aborted ==> k == c;
    }

    /** The completion timer fires one second after stage complete: reset(). */
    method ResetTimerFires()
      requires Valid() && resetPending
      modifies this
      ensures Valid()
      ensures stage == Idle && progress == 0 && error == None && Live() == {}
      ensures aborted == old(aborted) + (if old(controllerRef).Some? then {old(controllerRef).value} else {})
      ensures fired == old(fired)
    {
      Reset();
    }

    /** Unmounting aborts the controller in the ref, if any. */
    method Unmount()
      requires Valid()
      modifies this`aborted
      ensures Live() == {}
      ensures aborted == old(aborted) + (if controllerRef.Some? then {controllerRef.value} else {})
    {
      if controllerRef.Some? {
        aborted := aborted + {controllerRef.value};
      }
    }
  }

  /** An upload from start to completion fires onComplete once and is idle again after the timer, with its controller aborted. */
  method UploadToCompletion(u: Upload) returns (c: nat)
    requires u.Valid() && u.stage == Idle
    modifies u
    ensures u.Valid() && u.stage == Idle && u.Live() == {}
    ensures c in u.aborted
    ensures u.fired == old(u.fired) + [OnComplete]
  {
    c := u.CreateAbortController();
    u.SetStage(Uploading);
    assert u.IsBlocking();
    u.SetProgress(50);
    u.SetStage(Processing);
    u.SetStage(Complete);
    u.ResetTimerFires();
  }
}
