/**
  The context-propagation engine of log-args-runtime, as seen by one thread.

  The engine state bundles the two thread-local frame stacks (`CONTEXT_STACK`
  and `ASYNC_CONTEXT_STACK`, both declared `thread_local!`), the process-wide
  `GLOBAL_CONTEXT` map and two failure conditions: the global mutex being
  poisoned, and the async thread-local being inaccessible (as during thread
  teardown). Every runtime call is a pure function from the state before to
  the state after; dropping a guard is an explicit `Drop` step.

  Readers of the async stack use `try_with` and fall back to an empty value
  when it is inaccessible; writers use `with`, which panics instead. A panic
  is the `Panicked` outcome, carrying the state reached at the panic point.
 */
module Runtime {
  import opened Base
  import opened Frames

  datatype Engine = Engine(
    syncStack: Stack,
    asyncStack: Stack,
    global: Frame,
    lockPoisoned: bool,
    asyncUnavailable: bool)

  /** `ContextGuard` pops the sync stack when dropped, `AsyncContextGuard` the async stack. */
  datatype Guard = ContextGuard | AsyncContextGuard

  datatype Step<T> = Done(engine: Engine, value: T) | Panicked(engine: Engine)

  /** A fresh thread: both stacks empty, nothing global, nothing broken. */
  const Fresh := Engine([], [], map[], false, false)

  /** `a` and `b` agree on everything except, possibly, the global store. */
  predicate SameExceptGlobal(a: Engine, b: Engine) {
    a.syncStack == b.syncStack && a.asyncStack == b.asyncStack
    && a.lockPoisoned == b.lockPoisoned && a.asyncUnavailable == b.asyncUnavailable
  }

  /** `set_global_context`: one insert under the lock; silently nothing when the lock is poisoned. */
  function SetGlobalContext(e: Engine, key: string, value: string): (r: Engine)
    ensures SameExceptGlobal(e, r)
    ensures e.lockPoisoned ==> r.global == e.global
    ensures !e.lockPoisoned ==> key in r.global && r.global[key] == value
    ensures forall k :: k != key ==> (k in r.global <==> k in e.global)
    ensures forall k :: k != key && k in e.global ==> r.global[k] == e.global[k]
  {
    if e.lockPoisoned then e else e.(global := e.global[key := value])
  }

  /** `get_global_context`: a copy of the store, or nothing when it is empty or unreachable. */
  function GetGlobalContext(e: Engine): (r: Option<Frame>)
    ensures r.None? <==> e.lockPoisoned || e.global == map[]
    ensures r.Some? ==> r.value == e.global
  {
    if !e.lockPoisoned && e.global != map[] then Some(e.global) else None
  }

  /** `get_context`: the merge of the sync stack. */
  function GetContext(e: Engine): (r: Frame)
    ensures forall key :: Lookup(e.syncStack, key) == (if key in r then Some(r[key]) else None)
  {
    Merge(e.syncStack)
  }

  /** `get_async_context`: the merge of the async stack, or empty when it is inaccessible. */
  function GetAsyncContext(e: Engine): (r: Frame)
    ensures e.asyncUnavailable ==> r == map[]
    ensures !e.asyncUnavailable ==> forall key :: Lookup(e.asyncStack, key) == (if key in r then Some(r[key]) else None)
  {
    if e.asyncUnavailable then map[] else Merge(e.asyncStack)
  }

  /** `get_current_async_stack`: the async stack, or one empty frame when it is inaccessible. */
  function GetCurrentAsyncStack(e: Engine): (r: Stack)
    ensures Merge(r) == GetAsyncContext(e)
    ensures !e.asyncUnavailable ==> r == e.asyncStack
    ensures e.asyncUnavailable ==> |r| == 1 && r[0] == map[]
  {
    if e.asyncUnavailable then [map[]] else e.asyncStack
  }

  /**
    `get_context_value`: scan the async stack innermost-first, then the sync
    stack innermost-first, then the global store. The result is the lookup of
    `key` in the async merge, else the sync merge, else the global map, and the
    global layer is skipped when the lock is poisoned.
   */
  function GetContextValue(e: Engine, key: string): (r: Option<string>)
    ensures r == (if key in GetAsyncContext(e) then Some(GetAsyncContext(e)[key])
                  else if key in GetContext(e) then Some(GetContext(e)[key])
                  else if !e.lockPoisoned && key in e.global then Some(e.global[key])
                  else None)
  {
    var fromAsync := if e.asyncUnavailable then None else Lookup(e.asyncStack, key);
    if fromAsync.Some? then fromAsync
    else
      var fromSync := Lookup(e.syncStack, key);
      if fromSync.Some? then fromSync
      else if !e.lockPoisoned && key in e.global then Some(e.global[key])
      else None
  }

  /**
    Dropping a guard pops the top frame of that guard's stack, whatever frame
    it is; an empty stack is left as it is. Dropping an `AsyncContextGuard`
    while the async storage is inaccessible panics.
   */
  function Drop(e: Engine, g: Guard): (r: Step<()>)
    ensures r.engine.global == e.global
    ensures r.engine.lockPoisoned == e.lockPoisoned && r.engine.asyncUnavailable == e.asyncUnavailable
    ensures r.Panicked? <==> g.AsyncContextGuard? && e.asyncUnavailable
    ensures r.Panicked? ==> r.engine == e
    ensures g.ContextGuard? ==> r.engine.asyncStack == e.asyncStack
    ensures g.ContextGuard? && |e.syncStack| == 0 ==> r.engine == e
    ensures g.ContextGuard? && |e.syncStack| > 0 ==> r.engine.syncStack + [e.syncStack[|e.syncStack| - 1]] == e.syncStack
    ensures g.AsyncContextGuard? ==> r.engine.syncStack == e.syncStack
    ensures g.AsyncContextGuard? && |e.asyncStack| == 0 ==> r.engine == e
    ensures g.AsyncContextGuard? && r.Done? && |e.asyncStack| > 0 ==>
              r.engine.asyncStack + [e.asyncStack[|e.asyncStack| - 1]] == e.asyncStack
  {
    match g
    case ContextGuard => Done(e.(syncStack := Pop(e.syncStack)), ())
    case AsyncContextGuard =>
      if e.asyncUnavailable then Panicked(e) else Done(e.(asyncStack := Pop(e.asyncStack)), ())
  }

  /**
    `push_context`: `c` becomes the innermost sync frame, so a lookup in the
    sync stack finds `c`'s value for each of its keys and the old answer for
    every other key; dropping the returned guard restores the state exactly.
   */
  function PushContext(e: Engine, c: Frame): (r: Step<Guard>)
    ensures r.Done? && r.value == ContextGuard
    ensures r.engine.syncStack == e.syncStack + [c]
    ensures r.engine.asyncStack == e.asyncStack && r.engine.global == e.global
    ensures forall key :: Lookup(r.engine.syncStack, key) == (if key in c then Some(c[key]) else Lookup(e.syncStack, key))
    ensures Drop(r.engine, r.value) == Done(e, ())
  {
    var pushed := e.syncStack + [c];
    assert pushed[..|pushed| - 1] == e.syncStack;
    Done(e.(syncStack := pushed), ContextGuard)
  }

  /**
    `push_async_context`: `c` becomes the innermost async frame, which takes
    precedence over every other layer in `get_context_value`; the sync stack
    is untouched, and dropping the returned guard restores the state exactly.
    It panics when the async storage is inaccessible.
   */
  function PushAsyncContext(e: Engine, c: Frame): (r: Step<Guard>)
    ensures r.Panicked? <==> e.asyncUnavailable
    ensures r.Panicked? ==> r.engine == e
    ensures r.engine.syncStack == e.syncStack && r.engine.global == e.global
    ensures r.Done? ==> r.value == AsyncContextGuard
    ensures r.Done? ==> r.engine.asyncStack == e.asyncStack + [c]
    ensures r.Done? ==> forall key :: key in c ==> GetContextValue(r.engine, key) == Some(c[key])
    ensures r.Done? ==> forall key :: key !in c ==> GetContextValue(r.engine, key) == GetContextValue(e, key)
    ensures r.Done? ==> Drop(r.engine, r.value) == Done(e, ())
  {
    if e.asyncUnavailable then Panicked(e)
    else
      var pushed := e.asyncStack + [c];
      assert pushed[..|pushed| - 1] == e.asyncStack;
      Done(e.(asyncStack := pushed), AsyncContextGuard)
  }

  /**
    `auto_capture_context`: pushes the sync merge onto both stacks, but the two
    inner guards go out of scope when the function returns (the sync one
    first), so both pushes are undone before the caller sees the state. The
    state comes back unchanged, the global store is never written, and the
    caller receives a fresh `ContextGuard`.
   */
  function AutoCaptureContext(e: Engine): (r: Step<Guard>)
    ensures r.Panicked? <==> e.asyncUnavailable
    ensures r.engine == e
    ensures r.Done? ==> r.value == ContextGuard
  {
    var current := GetContext(e);
    match PushAsyncContext(e, current)
    case Panicked(e1) => Panicked(e1)
    case Done(e1, asyncGuard) =>
      var Done(e2, syncGuard) := PushContext(e1, current);
      var e3 := Drop(e2, syncGuard).engine;
      match Drop(e3, asyncGuard)
      case Panicked(e4) => Panicked(e4)
      case Done(e4, _) => Done(e4, ContextGuard)
  }

  /** The context `capture_context` publishes: the async merge extended by the sync merge. */
  function CaptureUnion(e: Engine): (r: Frame)
    ensures forall key :: key in r <==> key in GetAsyncContext(e) || key in GetContext(e)
    ensures forall key :: key in GetContext(e) ==> r[key] == GetContext(e)[key]
    ensures forall key :: key in GetAsyncContext(e) && key !in GetContext(e) ==> r[key] == GetAsyncContext(e)[key]
  {
    GetAsyncContext(e) + GetContext(e)
  }

  /** The `set_global_context` loop over `keys`, in that order. */
  function PublishAll(e: Engine, keys: seq<string>, values: Frame): (r: Engine)
    requires forall i :: 0 <= i < |keys| ==> keys[i] in values
    ensures SameExceptGlobal(e, r)
    ensures e.lockPoisoned ==> r.global == e.global
    ensures !e.lockPoisoned ==> forall k :: k in keys ==> k in r.global && r.global[k] == values[k]
    ensures forall k :: k !in keys ==> (k in r.global <==> k in e.global)
    ensures forall k :: k !in keys && k in e.global ==> r.global[k] == e.global[k]
    decreases |keys|
  {
    if |keys| == 0 then e
    else PublishAll(SetGlobalContext(e, keys[0], values[keys[0]]), keys[1..], values)
  }

  /**
    `capture_context`: publishes every key of the async merge overlaid by the
    sync merge into the global store (the sync value wins on a conflict), in
    the map's iteration order `order`; leaves every other global key alone;
    and, as in `auto_capture_context`, undoes its own pushes before returning,
    so both stacks come back as they were. The global writes happen before the
    async push, so they survive even when that push panics.
   */
  function CaptureContext(e: Engine, order: seq<string>): (r: Step<Guard>)
    requires IsKeyOrder(order, CaptureUnion(e))
    ensures r.Panicked? <==> e.asyncUnavailable
    ensures SameExceptGlobal(e, r.engine)
    ensures e.lockPoisoned ==> r.engine.global == e.global
    ensures !e.lockPoisoned ==> forall key :: key in GetContext(e) ==>
              key in r.engine.global && r.engine.global[key] == GetContext(e)[key]
    ensures !e.lockPoisoned ==> forall key :: key in GetAsyncContext(e) && key !in GetContext(e) ==>
              key in r.engine.global && r.engine.global[key] == GetAsyncContext(e)[key]
    ensures forall key :: key !in GetAsyncContext(e) && key !in GetContext(e) ==>
              (key in r.engine.global <==> key in e.global)
    ensures forall key :: key !in GetAsyncContext(e) && key !in GetContext(e) && key in e.global ==>
              r.engine.global[key] == e.global[key]
    ensures r.Done? ==> r.value == ContextGuard
  {
    var current := CaptureUnion(e);
    var e0 := PublishAll(e, order, current);
    match PushAsyncContext(e0, current)
    case Panicked(e1) => Panicked(e1)
    case Done(e1, asyncGuard) =>
      var Done(e2, syncGuard) := PushContext(e1, current);
      var e3 := Drop(e2, syncGuard).engine;
      match Drop(e3, asyncGuard)
      case Panicked(e4) => Panicked(e4)
      case Done(e4, _) => Done(e4, ContextGuard)
  }

  /**
    A sync frame and then an async frame pushed on a fresh thread: each key
    resolves to its own frame's value, and dropping the two guards innermost
    first leaves the thread fresh again; further drops on the empty sync
    stack change nothing.
   */
  lemma NestedPushScenario()
    ensures
      var e1 := PushContext(Fresh, map["tenant_id" := "acme"]).engine;
      var s2 := PushAsyncContext(e1, map["session_id" := "s1"]);
      && s2.Done?
      && GetContextValue(s2.engine, "tenant_id") == Some("acme")
      && GetContextValue(s2.engine, "session_id") == Some("s1")
      && Drop(s2.engine, AsyncContextGuard).engine == e1
      && Drop(e1, ContextGuard) == Done(Fresh, ())
      && Drop(Fresh, ContextGuard) == Done(Fresh, ())
  {
    var e1 := PushContext(Fresh, map["tenant_id" := "acme"]).engine;
    assert "session_id" != "tenant_id";
    assert "tenant_id" in e1.syncStack[0];
  }
}
