/**
  The block the log_args macro wraps around a function body when `span` is
  set. The function's own context is pushed first (`push_context`, or
  `push_async_context` for an `async fn`) and its guard bound; with
  `auto_capture`, `capture_context()` is called next and the `ContextGuard` it
  returns is bound too. At the end of the block the guards are dropped, the
  one bound last first. The body itself is left out: it runs between the
  capture and the drops and is taken to leave the stacks as it found them.
 */
module SpanScope {
  import opened Frames
  import opened Runtime

  /** The push of the function's own context frame. */
  function PushOwn(e: Engine, frame: Frame, isAsync: bool): (r: Step<Guard>)
    ensures r.Panicked? <==> isAsync && e.asyncUnavailable
    ensures r.Done? ==> r.value == (if isAsync then AsyncContextGuard else ContextGuard)
    ensures r.Done? && isAsync ==> r.engine.asyncStack == e.asyncStack + [frame] && r.engine.syncStack == e.syncStack
    ensures r.Done? && !isAsync ==> r.engine.syncStack == e.syncStack + [frame] && r.engine.asyncStack == e.asyncStack
    ensures r.engine.lockPoisoned == e.lockPoisoned && r.engine.asyncUnavailable == e.asyncUnavailable
  {
    if isAsync then PushAsyncContext(e, frame) else PushContext(e, frame)
  }

  /**
    The scope as generated with `span` and `auto_capture`. The guard returned
    by `capture_context` is a `ContextGuard` although the frames that call
    pushed are already gone, so dropping it pops a sync frame the scope never
    pushed: the caller's innermost sync frame is lost on the way out, while
    the async stack comes back as it was.
   */
  function SpanScopeAsWritten(e: Engine, frame: Frame, isAsync: bool, order: seq<string>): (r: Step<()>)
    requires IsKeyOrder(order, CaptureUnion(PushOwn(e, frame, isAsync).engine))
    ensures r.Panicked? <==> e.asyncUnavailable
    ensures r.Done? ==> r.engine.syncStack == Pop(e.syncStack) && r.engine.asyncStack == e.asyncStack
  {
    match PushOwn(e, frame, isAsync)
    case Panicked(e1) => Panicked(e1)
    case Done(e1, contextGuard) =>
      match CaptureContext(e1, order)
      case Panicked(e2) => Panicked(e2)
      case Done(e2, captureGuard) =>
        var e3 := Drop(e2, captureGuard).engine;
        match Drop(e3, contextGuard)
        case Panicked(e4) => Panicked(e4)
        case Done(e4, _) =>
          assert e.syncStack == [] ==> Pop(e.syncStack) == e.syncStack;
          Done(e4, ())
  }

  /** A caller with a sync frame of its own loses it across a call to a `span` + `auto_capture` function. */
  lemma CallerFrameLost(e: Engine, frame: Frame, isAsync: bool, order: seq<string>)
    requires IsKeyOrder(order, CaptureUnion(PushOwn(e, frame, isAsync).engine))
    requires !e.asyncUnavailable && |e.syncStack| > 0
    ensures SpanScopeAsWritten(e, frame, isAsync, order).Done?
    ensures SpanScopeAsWritten(e, frame, isAsync, order).engine.syncStack != e.syncStack
    ensures SpanScopeAsWritten(e, frame, isAsync, order).engine.syncStack == e.syncStack[..|e.syncStack| - 1]
  {
    var r := SpanScopeAsWritten(e, frame, isAsync, order);
    assert |r.engine.syncStack| == |e.syncStack| - 1;
  }

  /**
    The scope as evidently intended: the frames `capture_context` pushed are
    already undone when it returns, so its guard must not pop anything, and
    only the function's own guard is dropped. Both stacks come back exactly as
    they were; only the global store keeps what the capture published.
   */
  function SpanScopeIntended(e: Engine, frame: Frame, isAsync: bool, order: seq<string>): (r: Step<()>)
    requires IsKeyOrder(order, CaptureUnion(PushOwn(e, frame, isAsync).engine))
    ensures r.Panicked? <==> e.asyncUnavailable
    ensures r.Done? ==> SameExceptGlobal(e, r.engine)
  {
    match PushOwn(e, frame, isAsync)
    case Panicked(e1) => Panicked(e1)
    case Done(e1, contextGuard) =>
      match CaptureContext(e1, order)
      case Panicked(e2) => Panicked(e2)
      case Done(e2, _) =>
        assert (e.syncStack + [frame])[..|e.syncStack|] == e.syncStack;
        assert (e.asyncStack + [frame])[..|e.asyncStack|] == e.asyncStack;
        match Drop(e2, contextGuard)
        case Panicked(e4) => Panicked(e4)
        case Done(e4, _) => Done(e4, ())
  }

  /** The generated scope is the intended one followed by one extra sync pop; nothing else differs. */
  lemma AsWrittenPopsOnceMore(e: Engine, frame: Frame, isAsync: bool, order: seq<string>)
    requires IsKeyOrder(order, CaptureUnion(PushOwn(e, frame, isAsync).engine))
    ensures SpanScopeAsWritten(e, frame, isAsync, order).Panicked? == SpanScopeIntended(e, frame, isAsync, order).Panicked?
    ensures SpanScopeIntended(e, frame, isAsync, order).Done? ==>
              SpanScopeAsWritten(e, frame, isAsync, order).engine
              == Drop(SpanScopeIntended(e, frame, isAsync, order).engine, ContextGuard).engine
  {
  }
}
