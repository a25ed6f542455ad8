/**
  The hook thread's lifecycle (`run_keyboard_hook_loop` and
  `run_message_loop` in src-tauri/src/keyboard/hook.rs), abstracted to the
  shared `is_running` flag and the stream of things the loop observes.

  Each loop iteration first loads the flag; the owner of the flag (the
  process-lifecycle object, whose drop stores false) may clear it between
  iterations, which the stream records as `StopRequested`.  A poll either
  finds no message (the loop sleeps and goes round again) or removes one
  message from the queue.
*/
module MessageLoop {
  import opened Results

  /** A message removed by `PeekMessageW`: `WM_QUIT`, or any other message, by identity. */
  datatype Message = Quit | Other(id: nat)

  /** What one loop iteration observes. */
  datatype LoopEvent = StopRequested | Peeked(msg: Option<Message>)

  /** Why installing the hook failed; each makes `run_keyboard_hook_loop` return an error. */
  datatype HookError =
    | ModuleHandleUnavailable
    | InvalidModuleHandle
    | SetHookFailed
    | InvalidHookHandle

  /** What `run_keyboard_hook_loop` returns: the loop's run, or why the hook could not be installed. */
  datatype HookThreadResult = Finished(loopRun: LoopRun) | Failed(error: HookError)

  /** The result of the OS calls that install the hook, in the order they are made. */
  datatype Installation =
    | ModuleHandleFails
    | ModuleHandleInvalid
    | SetHookFails
    | HookHandleInvalid
    | Installed

  /** An event after which the loop does not go round again. */
  predicate EndsLoop(e: LoopEvent) {
    e.StopRequested? || e == Peeked(Some(Quit))
  }

  /** The position of the first event that ends the loop, or `|events|` if none does. */
  function ExitPoint(events: seq<LoopEvent>): (k: nat)
    ensures k <= |events|
    ensures forall m :: 0 <= m < k ==> !EndsLoop(events[m])
    ensures k < |events| ==> EndsLoop(events[k])
  {
    if |events| == 0 then 0
    else if EndsLoop(events[0]) then 0
    else 1 + ExitPoint(events[1..])
  }

  /** The identities of the messages a prefix of the stream hands to `DispatchMessageW`, in order. */
  function Dispatched(events: seq<LoopEvent>): seq<nat>
    decreases |events|
  {
    if |events| == 0 then []
    else
      var last := events[|events| - 1];
      Dispatched(events[..|events| - 1])
        + (if last.Peeked? && last.msg.Some? && last.msg.value.Other? then [last.msg.value.id] else [])
  }

  /**
    What the loop leaves behind: the flag afterwards, how many observations
    it used, and the identities of the messages it dispatched.
  */
  datatype LoopRun = LoopRun(stillRunning: bool, consumed: nat, dispatched: seq<nat>)

  /**
    `run_message_loop` over a finite stream of observations.  The loop only
    ever clears the flag; it ends at the first stop request or `WM_QUIT`
    (clearing the flag for `WM_QUIT` itself), and everything it dispatched
    came before that point.  If the stream runs out first, the loop is
    still running.
  */
  method RunMessageLoop(isRunning: bool, events: seq<LoopEvent>) returns (run: LoopRun)
    ensures run.stillRunning ==> isRunning
    ensures run.consumed <= |events|
    ensures !isRunning ==> run == LoopRun(false, 0, [])
    ensures isRunning ==> (run.stillRunning <==> ExitPoint(events) == |events|)
    ensures isRunning && !run.stillRunning ==> run.consumed == ExitPoint(events) + 1
    ensures isRunning && run.stillRunning ==> run.consumed == |events|
    ensures isRunning ==> run.dispatched == Dispatched(events[..ExitPoint(events)])
  {
    var stillRunning := isRunning;
    var consumed := 0;
    var dispatched := [];
    while stillRunning && consumed < |events|
      invariant consumed <= |events|
      invariant stillRunning ==> isRunning
      invariant !isRunning ==> consumed == 0 && dispatched == []
      invariant stillRunning ==> consumed <= ExitPoint(events)
      invariant stillRunning ==> dispatched == Dispatched(events[..consumed])
      invariant isRunning && !stillRunning ==>
                  consumed == ExitPoint(events) + 1
                  && dispatched == Dispatched(events[..ExitPoint(events)])
      decreases |events| - consumed
    {
      var e := events[consumed];
      assert events[..consumed + 1][..consumed] == events[..consumed];
      match e {
        case StopRequested =>
          stillRunning := false;
        case Peeked(None) =>
          // no message: sleep and poll again
        case Peeked(Some(Quit)) =>
          stillRunning := false;
        case Peeked(Some(Other(id))) =>
          dispatched := dispatched + [id];
      }
      consumed := consumed + 1;
    }
    run := LoopRun(stillRunning, consumed, dispatched);
  }

  /**
    `run_keyboard_hook_loop`: when installing the hook fails the error is
    returned and the loop never runs, so the flag is left as it was and
    nothing is dispatched; once installed the loop runs (as `RunMessageLoop`
    describes) and the call succeeds.
  */
  method RunKeyboardHookLoop(installation: Installation, isRunning: bool, events: seq<LoopEvent>)
    returns (outcome: HookThreadResult)
    ensures outcome.Finished? <==> installation == Installed
    ensures installation == ModuleHandleFails ==> outcome == Failed(ModuleHandleUnavailable)
    ensures installation == ModuleHandleInvalid ==> outcome == Failed(InvalidModuleHandle)
    ensures installation == SetHookFails ==> outcome == Failed(SetHookFailed)
    ensures installation == HookHandleInvalid ==> outcome == Failed(InvalidHookHandle)
    ensures outcome.Finished? ==> (outcome.loopRun.stillRunning ==> isRunning)
    ensures outcome.Finished? ==> outcome.loopRun.consumed <= |events|
  {
    if installation == ModuleHandleFails {
      outcome := Failed(ModuleHandleUnavailable);
    } else if installation == ModuleHandleInvalid {
      outcome := Failed(InvalidModuleHandle);
    } else if installation == SetHookFails {
      outcome := Failed(SetHookFailed);
    } else if installation == HookHandleInvalid {
      outcome := Failed(InvalidHookHandle);
    } else {
      var loopRun := RunMessageLoop(isRunning, events);
      outcome := Finished(loopRun);
    }
  }
}
