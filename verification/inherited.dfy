/**
  The two read-side renderers of log-args-runtime: `get_inherited_context_string`
  (a flat `key=value,key=value` annotation) and `get_inherited_fields_map`
  (the fields of one frame).

  `HashMap` iteration order is not specified, so the order in which each
  frame's keys are visited is a parameter (`IsKeyOrder`), and every property
  proved here holds for every such order.
 */
module InheritedContext {
  import opened Base
  import opened Frames
  import opened Runtime

  /** The reserved key that both renderers leave out. */
  const FunctionKey := "function"

  /** One emitted part, kept as its key and value; it is rendered `key=value`. */
  type Part = (string, string)

  function Render(p: Part): string {
    p.0 + "=" + p.1
  }

  /** The duplicate check: some part already emitted starts with `key=`. */
  predicate Blocked(parts: seq<Part>, key: string) {
    exists i :: 0 <= i < |parts| && key + "=" <= Render(parts[i])
  }

  ghost predicate DistinctKeys(parts: seq<Part>) {
    forall i, j :: 0 <= i < j < |parts| ==> parts[i].0 != parts[j].0
  }

  /** Frame `i` of `s` is visited in the order `orders[i]`. */
  ghost predicate OrdersFor(orders: seq<seq<string>>, s: Stack) {
    |orders| == |s| && forall i :: 0 <= i < |s| ==> IsKeyOrder(orders[i], s[i])
  }

  /** Valid iteration orders for the async stack, the sync stack and the global map. */
  ghost predicate ValidOrders(e: Engine, asyncOrders: seq<seq<string>>, syncOrders: seq<seq<string>>, globalOrder: seq<string>) {
    OrdersFor(asyncOrders, e.asyncStack) && OrdersFor(syncOrders, e.syncStack) && IsKeyOrder(globalOrder, e.global)
  }

  /** The async stack as the renderers see it: empty when the storage is inaccessible. */
  function AsyncView(e: Engine): Stack {
    if e.asyncUnavailable then [] else e.asyncStack
  }

  /** The keys the two stacks can contribute: every key of either merge except the reserved one. */
  function StackKeys(e: Engine): set<string> {
    (GetAsyncContext(e).Keys + GetContext(e).Keys) - {FunctionKey}
  }

  /** The loops only ever append: `r` starts with `parts`. */
  ghost predicate Extends(r: seq<Part>, parts: seq<Part>) {
    |parts| <= |r| && r[..|parts|] == parts
  }

  lemma OwnKeyBlocks(parts: seq<Part>, i: int)
    requires 0 <= i < |parts|
    ensures Blocked(parts, parts[i].0)
  {
    var k := parts[i].0;
    assert Render(parts[i]) == (k + "=") + parts[i].1;
  }

  lemma BlockedGrows(parts: seq<Part>, r: seq<Part>, key: string)
    requires Extends(r, parts)
    requires Blocked(parts, key)
    ensures Blocked(r, key)
  {
    var i :| 0 <= i < |parts| && key + "=" <= Render(parts[i]);
    assert r[i] == parts[i];
  }

  lemma ExtendsTrans(a: seq<Part>, b: seq<Part>, c: seq<Part>)
    requires Extends(b, a) && Extends(c, b)
    ensures Extends(c, a)
  {
    assert c[..|a|] == c[..|b|][..|a|];
  }

  /**
    The inner loop over one frame: each key not reserved and not blocked by a
    part already emitted is emitted with the frame's value. Afterwards every
    non-reserved key visited is blocked.
   */
  function EmitFrame(parts: seq<Part>, f: Frame, keys: seq<string>): (r: seq<Part>)
    requires forall i :: 0 <= i < |keys| ==> keys[i] in f
    ensures Extends(r, parts)
    ensures forall i :: |parts| <= i < |r| ==>
              r[i].0 != FunctionKey && r[i].0 in f && r[i].1 == f[r[i].0] && !Blocked(parts, r[i].0)
    ensures forall k :: k in keys && k != FunctionKey ==> Blocked(r, k)
    ensures DistinctKeys(parts) ==> DistinctKeys(r)
    decreases |keys|
  {
    if |keys| == 0 then parts
    else
      var k := keys[0];
      var next := if k != FunctionKey && !Blocked(parts, k) then parts + [(k, f[k])] else parts;
      EmitFrameStep(parts, f, k, next);
      var r := EmitFrame(next, f, keys[1..]);
      EmitFrameRest(parts, next, r, f, k, keys);
      r
  }

  lemma EmitFrameStep(parts: seq<Part>, f: Frame, k: string, next: seq<Part>)
    requires k in f
    requires next == if k != FunctionKey && !Blocked(parts, k) then parts + [(k, f[k])] else parts
    ensures Extends(next, parts)
    ensures forall i :: |parts| <= i < |next| ==> next[i] == (k, f[k]) && k != FunctionKey && !Blocked(parts, k)
    ensures k != FunctionKey ==> Blocked(next, k)
    ensures DistinctKeys(parts) ==> DistinctKeys(next)
  {
    if k != FunctionKey && !Blocked(parts, k) {
      OwnKeyBlocks(next, |parts|);
      forall i | 0 <= i < |parts|
        ensures parts[i].0 != k
      {
        if parts[i].0 == k {
          OwnKeyBlocks(parts, i);
        }
      }
    }
  }

  lemma EmitFrameRest(parts: seq<Part>, next: seq<Part>, r: seq<Part>, f: Frame, k: string, keys: seq<string>)
    requires |keys| > 0 && keys[0] == k && k in f
    requires Extends(next, parts) && Extends(r, next)
    requires forall i :: |parts| <= i < |next| ==> next[i] == (k, f[k]) && k != FunctionKey && !Blocked(parts, k)
    requires forall i :: |next| <= i < |r| ==>
               r[i].0 != FunctionKey && r[i].0 in f && r[i].1 == f[r[i].0] && !Blocked(next, r[i].0)
    requires k != FunctionKey ==> Blocked(next, k)
    requires forall k' :: k' in keys[1..] && k' != FunctionKey ==> Blocked(r, k')
    ensures Extends(r, parts)
    ensures forall i :: |parts| <= i < |r| ==>
              r[i].0 != FunctionKey && r[i].0 in f && r[i].1 == f[r[i].0] && !Blocked(parts, r[i].0)
    ensures forall k' :: k' in keys && k' != FunctionKey ==> Blocked(r, k')
  {
    ExtendsTrans(parts, next, r);
    forall i | |parts| <= i < |r|
      ensures r[i].0 != FunctionKey && r[i].0 in f && r[i].1 == f[r[i].0] && !Blocked(parts, r[i].0)
    {
      if i < |next| {
        assert r[i] == next[i];
      } else if Blocked(parts, r[i].0) {
        BlockedGrows(parts, next, r[i].0);
      }
    }
    if k != FunctionKey {
      BlockedGrows(next, r, k);
    }
    forall k' | k' in keys && k' != FunctionKey
      ensures Blocked(r, k')
    {
      if k' != k {
        assert k' in keys[1..];
      }
    }
  }

  /**
    The outer loop over a stack, innermost frame first. Every part it emits
    carries the value the innermost-first lookup finds for its key, and
    afterwards every non-reserved key of every frame is blocked.
   */
  function EmitStack(parts: seq<Part>, s: Stack, orders: seq<seq<string>>): (r: seq<Part>)
    requires OrdersFor(orders, s)
    ensures Extends(r, parts)
    ensures forall i :: |parts| <= i < |r| ==>
              r[i].0 != FunctionKey && Lookup(s, r[i].0) == Some(r[i].1) && !Blocked(parts, r[i].0)
    ensures forall i, k :: 0 <= i < |s| && k in s[i] && k != FunctionKey ==> Blocked(r, k)
    ensures DistinctKeys(parts) ==> DistinctKeys(r)
    decreases |s|
  {
    if |s| == 0 then parts
    else
      var init := s[..|s| - 1];
      var top := s[|s| - 1];
      var afterTop := EmitFrame(parts, top, orders[|s| - 1]);
      assert forall k :: k in top ==> k in orders[|s| - 1];
      var r := EmitStack(afterTop, init, orders[..|s| - 1]);
      EmitStackNewParts(parts, afterTop, r, s);
      EmitStackBlocked(afterTop, r, s, init);
      ExtendsTrans(parts, afterTop, r);
      r
  }

  lemma EmitStackNewParts(parts: seq<Part>, afterTop: seq<Part>, r: seq<Part>, s: Stack)
    requires |s| > 0
    requires Extends(afterTop, parts) && Extends(r, afterTop)
    requires forall i :: |parts| <= i < |afterTop| ==>
               afterTop[i].0 != FunctionKey && afterTop[i].0 in s[|s| - 1]
               && afterTop[i].1 == s[|s| - 1][afterTop[i].0] && !Blocked(parts, afterTop[i].0)
    requires forall k :: k in s[|s| - 1] && k != FunctionKey ==> Blocked(afterTop, k)
    requires forall i :: |afterTop| <= i < |r| ==>
               r[i].0 != FunctionKey && Lookup(s[..|s| - 1], r[i].0) == Some(r[i].1) && !Blocked(afterTop, r[i].0)
    ensures forall i :: |parts| <= i < |r| ==>
              r[i].0 != FunctionKey && Lookup(s, r[i].0) == Some(r[i].1) && !Blocked(parts, r[i].0)
  {
    forall i | |parts| <= i < |r|
      ensures r[i].0 != FunctionKey && Lookup(s, r[i].0) == Some(r[i].1) && !Blocked(parts, r[i].0)
    {
      var k := r[i].0;
      if i < |afterTop| {
        assert r[i] == afterTop[i];
      } else {
        assert k !in s[|s| - 1];
        if Blocked(parts, k) {
          BlockedGrows(parts, afterTop, k);
        }
      }
    }
  }

  lemma EmitStackBlocked(afterTop: seq<Part>, r: seq<Part>, s: Stack, init: Stack)
    requires |s| > 0 && init == s[..|s| - 1]
    requires Extends(r, afterTop)
    requires forall k :: k in s[|s| - 1] && k != FunctionKey ==> Blocked(afterTop, k)
    requires forall i, k :: 0 <= i < |init| && k in init[i] && k != FunctionKey ==> Blocked(r, k)
    ensures forall i, k :: 0 <= i < |s| && k in s[i] && k != FunctionKey ==> Blocked(r, k)
  {
    forall i, k | 0 <= i < |s| && k in s[i] && k != FunctionKey
      ensures Blocked(r, k)
    {
      if i < |s| - 1 {
        assert init[i] == s[i];
      } else {
        BlockedGrows(afterTop, r, k);
      }
    }
  }

  /** The keys of the parts, in emission order. */
  function KeysOf(parts: seq<Part>): (ks: seq<string>)
    ensures |ks| == |parts| && forall i :: 0 <= i < |parts| ==> ks[i] == parts[i].0
  {
    seq(|parts|, i requires 0 <= i < |parts| => parts[i].0)
  }

  ghost predicate NoDuplicates(keys: seq<string>) {
    forall i, j :: 0 <= i < j < |keys| ==> keys[i] != keys[j]
  }

  /** The global fallback loop: every non-reserved entry, in iteration order, without a duplicate check. */
  function EmitGlobal(g: Frame, keys: seq<string>): (r: seq<Part>)
    requires forall i :: 0 <= i < |keys| ==> keys[i] in g
    ensures forall i :: 0 <= i < |r| ==> r[i].0 != FunctionKey && r[i].0 in keys && r[i].1 == g[r[i].0]
    ensures forall k :: k in keys && k != FunctionKey ==> k in KeysOf(r)
    ensures NoDuplicates(keys) ==> DistinctKeys(r)
    decreases |keys|
  {
    if |keys| == 0 then []
    else
      var rest := EmitGlobal(g, keys[1..]);
      if keys[0] != FunctionKey then
        var r := [(keys[0], g[keys[0]])] + rest;
        EmitGlobalCons(g, keys, rest, r);
        r
      else
        assert forall k :: k in keys && k != FunctionKey ==> k in keys[1..];
        assert NoDuplicates(keys) ==> NoDuplicates(keys[1..]);
        rest
  }

  lemma EmitGlobalCons(g: Frame, keys: seq<string>, rest: seq<Part>, r: seq<Part>)
    requires |keys| > 0 && forall i :: 0 <= i < |keys| ==> keys[i] in g
    requires r == [(keys[0], g[keys[0]])] + rest
    requires forall i :: 0 <= i < |rest| ==> rest[i].0 != FunctionKey && rest[i].0 in keys[1..] && rest[i].1 == g[rest[i].0]
    requires forall k :: k in keys[1..] && k != FunctionKey ==> k in KeysOf(rest)
    requires NoDuplicates(keys[1..]) ==> DistinctKeys(rest)
    ensures forall k :: k in keys && k != FunctionKey ==> k in KeysOf(r)
    ensures NoDuplicates(keys) ==> DistinctKeys(r)
  {
    assert KeysOf(r) == [keys[0]] + KeysOf(rest);
    forall k | k in keys && k != FunctionKey
      ensures k in KeysOf(r)
    {
      if k != keys[0] {
        assert k in keys[1..];
      }
    }
    if NoDuplicates(keys) {
      assert NoDuplicates(keys[1..]);
      assert keys[0] !in keys[1..];
      forall i, j | 0 <= i < j < |r|
        ensures r[i].0 != r[j].0
      {
        if i == 0 {
          assert r[j] == rest[j - 1];
        } else {
          assert r[i] == rest[i - 1] && r[j] == rest[j - 1];
        }
      }
    }
  }

  /** A key can come from the stacks exactly when some frame the renderers see holds it. */
  lemma StackKeysByLookup(e: Engine, k: string)
    ensures k in StackKeys(e) <==> k != FunctionKey && (Lookup(AsyncView(e), k).Some? || Lookup(e.syncStack, k).Some?)
  {
    assert Lookup(e.syncStack, k).Some? <==> k in GetContext(e);
    if !e.asyncUnavailable {
      assert Lookup(e.asyncStack, k).Some? <==> k in GetAsyncContext(e);
    }
  }

  /** What the two stack loops establish: each part carries the answer of `get_context_value`. */
  lemma StackPhase(e: Engine, asyncOrders: seq<seq<string>>, syncOrders: seq<seq<string>>, fromAsync: seq<Part>, fromStacks: seq<Part>)
    requires OrdersFor(asyncOrders, e.asyncStack) && OrdersFor(syncOrders, e.syncStack)
    requires fromAsync == if e.asyncUnavailable then [] else EmitStack([], e.asyncStack, asyncOrders)
    requires fromStacks == EmitStack(fromAsync, e.syncStack, syncOrders)
    ensures DistinctKeys(fromStacks)
    ensures forall i :: 0 <= i < |fromStacks| ==>
              fromStacks[i].0 in StackKeys(e) && GetContextValue(e, fromStacks[i].0) == Some(fromStacks[i].1)
    ensures forall k :: k in StackKeys(e) ==> Blocked(fromStacks, k)
    ensures fromStacks == [] <==> StackKeys(e) == {}
  {
    var av := AsyncView(e);
    assert forall i :: 0 <= i < |fromAsync| ==> fromAsync[i].0 != FunctionKey && Lookup(av, fromAsync[i].0) == Some(fromAsync[i].1);
    assert forall i, k :: 0 <= i < |av| && k in av[i] && k != FunctionKey ==> Blocked(fromAsync, k);
    forall k | k in StackKeys(e)
      ensures Blocked(fromStacks, k)
    {
      StackKeysByLookup(e, k);
      if Lookup(av, k).Some? {
        BlockedGrows(fromAsync, fromStacks, k);
      }
    }
    forall i | 0 <= i < |fromStacks|
      ensures fromStacks[i].0 in StackKeys(e) && GetContextValue(e, fromStacks[i].0) == Some(fromStacks[i].1)
    {
      var k := fromStacks[i].0;
      StackKeysByLookup(e, k);
      if i < |fromAsync| {
        assert fromStacks[i] == fromAsync[i];
      } else {
        assert Lookup(av, k).None?;
      }
    }
    if StackKeys(e) != {} {
      var k :| k in StackKeys(e);
      assert Blocked(fromStacks, k);
    }
    if fromStacks != [] {
      assert fromStacks[0].0 in StackKeys(e);
    }
  }

  /**
    The parts `get_inherited_context_string` joins: first the async stack,
    then the sync stack, each innermost frame first; the global store only
    when the stacks yielded nothing. Every part carries a non-reserved key,
    no key twice, with the value `get_context_value` resolves for that key.
   */
  function GetInheritedParts(e: Engine, asyncOrders: seq<seq<string>>, syncOrders: seq<seq<string>>, globalOrder: seq<string>): (r: seq<Part>)
    requires ValidOrders(e, asyncOrders, syncOrders, globalOrder)
    ensures forall i :: 0 <= i < |r| ==> r[i].0 != FunctionKey
    ensures DistinctKeys(r)
    ensures forall i :: 0 <= i < |r| ==> GetContextValue(e, r[i].0) == Some(r[i].1)
    ensures StackKeys(e) != {} ==> r != [] && forall i :: 0 <= i < |r| ==> r[i].0 in StackKeys(e)
    ensures StackKeys(e) == {} && !e.lockPoisoned ==>
              forall k :: k in e.global && k != FunctionKey <==> k in KeysOf(r)
    ensures StackKeys(e) == {} && e.lockPoisoned ==> r == []
  {
    var fromAsync := if e.asyncUnavailable then [] else EmitStack([], e.asyncStack, asyncOrders);
    var fromStacks := EmitStack(fromAsync, e.syncStack, syncOrders);
    StackPhase(e, asyncOrders, syncOrders, fromAsync, fromStacks);
    if fromStacks != [] then fromStacks
    else if e.lockPoisoned || e.global == map[] then []
    else
      var r := EmitGlobal(e.global, globalOrder);
      GlobalPhase(e, globalOrder, r);
      r
  }

  lemma GlobalPhase(e: Engine, globalOrder: seq<string>, r: seq<Part>)
    requires IsKeyOrder(globalOrder, e.global)
    requires StackKeys(e) == {} && !e.lockPoisoned
    requires r == EmitGlobal(e.global, globalOrder)
    ensures DistinctKeys(r)
    ensures forall i :: 0 <= i < |r| ==> GetContextValue(e, r[i].0) == Some(r[i].1)
    ensures forall k :: k in e.global && k != FunctionKey <==> k in KeysOf(r)
  {
    forall i | 0 <= i < |r|
      ensures GetContextValue(e, r[i].0) == Some(r[i].1)
    {
      StackKeysByLookup(e, r[i].0);
    }
  }

  /** Rust's `join`: the strings separated by `sep`, and `""` for no strings. */
  function Join(xs: seq<string>, sep: string): (r: string)
    ensures |xs| > 0 ==> |xs[0]| <= |r|
    ensures |xs| == 0 ==> r == ""
    decreases |xs|
  {
    if |xs| == 0 then ""
    else if |xs| == 1 then xs[0]
    else xs[0] + sep + Join(xs[1..], sep)
  }

  /**
    `get_inherited_context_string`: the parts rendered `key=value` and joined
    by `,`. It is empty exactly when the stacks hold no non-reserved key and
    the global store offers none either.
   */
  function GetInheritedContextString(e: Engine, asyncOrders: seq<seq<string>>, syncOrders: seq<seq<string>>, globalOrder: seq<string>): (r: string)
    requires ValidOrders(e, asyncOrders, syncOrders, globalOrder)
    ensures r == "" <==> StackKeys(e) == {} && (e.lockPoisoned || forall k :: k in e.global ==> k == FunctionKey)
  {
    var parts := GetInheritedParts(e, asyncOrders, syncOrders, globalOrder);
    var rendered := seq(|parts|, i requires 0 <= i < |parts| => Render(parts[i]));
    PartsEmptyIff(e, asyncOrders, syncOrders, globalOrder);
    assert parts != [] ==> |rendered[0]| > 0;
    Join(rendered, ",")
  }

  lemma PartsEmptyIff(e: Engine, asyncOrders: seq<seq<string>>, syncOrders: seq<seq<string>>, globalOrder: seq<string>)
    requires ValidOrders(e, asyncOrders, syncOrders, globalOrder)
    ensures GetInheritedParts(e, asyncOrders, syncOrders, globalOrder) == [] <==>
              StackKeys(e) == {} && (e.lockPoisoned || forall k :: k in e.global ==> k == FunctionKey)
  {
    var parts := GetInheritedParts(e, asyncOrders, syncOrders, globalOrder);
    if StackKeys(e) == {} && !e.lockPoisoned {
      if parts != [] {
        assert parts[0].0 in KeysOf(parts);
      }
    }
  }

  /**
    Keys without `=` never block one another: `a=` is a prefix of `b=v` only
    when `a` and `b` are the same key.
   */
  lemma PrefixMeansSameKey(a: string, b: string, v: string)
    requires '=' !in a && '=' !in b
    requires a + "=" <= b + "=" + v
    ensures a == b
  {
    var x := a + "=";
    var y := b + "=" + v;
    NoEqualsBefore(a, "=");
    NoEqualsBefore(b, "=" + v);
    assert y == b + ("=" + v);
    assert y[|a|] == x[|a|] == '=';
    assert x[|b|] == y[|b|] == '=';
    assert forall i :: 0 <= i < |a| ==> a[i] == x[i] == y[i] == b[i];
  }

  lemma NoEqualsBefore(a: string, w: string)
    requires '=' !in a
    ensures forall i :: 0 <= i < |a| ==> (a + w)[i] != '='
  {
  }

  /** No key of any frame of either stack contains `=`. */
  ghost predicate NoEqualsInKeys(e: Engine) {
    (forall i, k :: 0 <= i < |e.asyncStack| && k in e.asyncStack[i] ==> '=' !in k)
    && (forall i, k :: 0 <= i < |e.syncStack| && k in e.syncStack[i] ==> '=' !in k)
  }

  /**
    When no key contains `=`, the rendering is complete: every non-reserved
    key of either merge is emitted (exactly once, by `GetInheritedParts`).
    A key containing `=` can hide another key, so the condition is needed.
   */
  lemma {:induction false} InheritedPartsComplete(e: Engine, asyncOrders: seq<seq<string>>, syncOrders: seq<seq<string>>, globalOrder: seq<string>)
    requires ValidOrders(e, asyncOrders, syncOrders, globalOrder)
    requires NoEqualsInKeys(e)
    ensures forall k :: k in StackKeys(e) ==>
              exists i :: 0 <= i < |GetInheritedParts(e, asyncOrders, syncOrders, globalOrder)|
                          && GetInheritedParts(e, asyncOrders, syncOrders, globalOrder)[i].0 == k
  {
    var fromAsync := if e.asyncUnavailable then [] else EmitStack([], e.asyncStack, asyncOrders);
    var fromStacks := EmitStack(fromAsync, e.syncStack, syncOrders);
    StackPhase(e, asyncOrders, syncOrders, fromAsync, fromStacks);
    var parts := GetInheritedParts(e, asyncOrders, syncOrders, globalOrder);
    forall k | k in StackKeys(e)
      ensures exists i :: 0 <= i < |parts| && parts[i].0 == k
    {
      assert fromStacks != [] && parts == fromStacks;
      var i :| 0 <= i < |parts| && k + "=" <= Render(parts[i]);
      var b := parts[i].0;
      KeyOfStack(e, k);
      KeyOfStack(e, b);
      PrefixMeansSameKey(k, b, parts[i].1);
    }
  }

  lemma KeyOfStack(e: Engine, k: string)
    requires NoEqualsInKeys(e)
    requires k in StackKeys(e)
    ensures '=' !in k
  {
    if k in GetAsyncContext(e) {
      assert Lookup(e.asyncStack, k).Some?;
    } else {
      assert Lookup(e.syncStack, k).Some?;
    }
  }

  /** A frame with the reserved key left out. */
  function WithoutFunction(f: Frame): (r: Frame)
    ensures FunctionKey !in r
    ensures forall k :: k != FunctionKey ==> (k in r <==> k in f)
    ensures forall k :: k in r ==> r[k] == f[k]
  {
    map k | k in f && k != FunctionKey :: f[k]
  }

  /** Frame `i` is the innermost frame of `s` with an entry other than the reserved key. */
  ghost predicate IsInnermostFieldFrame(s: Stack, i: int) {
    0 <= i < |s| && WithoutFunction(s[i]) != map[]
    && forall j :: i < j < |s| ==> WithoutFunction(s[j]) == map[]
  }

  ghost predicate HasFieldFrame(s: Stack) {
    exists i :: 0 <= i < |s| && WithoutFunction(s[i]) != map[]
  }

  /** The loop of one stack: the non-reserved entries of the innermost frame that has any. */
  function InnermostFields(s: Stack): (r: Frame)
    ensures r == map[] <==> !HasFieldFrame(s)
    ensures r != map[] ==> exists i :: IsInnermostFieldFrame(s, i) && r == WithoutFunction(s[i])
    decreases |s|
  {
    if |s| == 0 then map[]
    else
      var top := WithoutFunction(s[|s| - 1]);
      if top != map[] then
        assert IsInnermostFieldFrame(s, |s| - 1);
        top
      else
        EmptyTopSkipped(s);
        InnermostFields(s[..|s| - 1])
  }

  /** Below a top frame with nothing but the reserved key, the innermost field frame is the same. */
  lemma EmptyTopSkipped(s: Stack)
    requires |s| > 0 && WithoutFunction(s[|s| - 1]) == map[]
    ensures HasFieldFrame(s) <==> HasFieldFrame(s[..|s| - 1])
    ensures forall i :: IsInnermostFieldFrame(s[..|s| - 1], i) ==> IsInnermostFieldFrame(s, i)
  {
    var init := s[..|s| - 1];
    assert forall i :: 0 <= i < |init| ==> init[i] == s[i];
    if HasFieldFrame(s) {
      var i :| 0 <= i < |s| && WithoutFunction(s[i]) != map[];
      assert i < |init| && WithoutFunction(init[i]) != map[];
    }
  }

  /**
    `get_inherited_fields_map`: the non-reserved entries of the innermost async
    frame that has any, else of the innermost sync frame that has any, else
    nothing. The global store plays no part.
   */
  function GetInheritedFieldsMap(e: Engine): (r: Frame)
    ensures FunctionKey !in r
    ensures r == map[] <==> !HasFieldFrame(AsyncView(e)) && !HasFieldFrame(e.syncStack)
    ensures HasFieldFrame(AsyncView(e)) ==>
              exists i :: IsInnermostFieldFrame(e.asyncStack, i) && r == WithoutFunction(e.asyncStack[i])
    ensures !HasFieldFrame(AsyncView(e)) && HasFieldFrame(e.syncStack) ==>
              exists i :: IsInnermostFieldFrame(e.syncStack, i) && r == WithoutFunction(e.syncStack[i])
  {
    var fromAsync := InnermostFields(AsyncView(e));
    if fromAsync != map[] then fromAsync else InnermostFields(e.syncStack)
  }
}
