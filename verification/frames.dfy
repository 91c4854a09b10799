/**
  Context frames and frame stacks of log-args-runtime.

  A frame is one `HashMap<String, String>` pushed by one scope activation; a
  stack is the `Vec` of frames held in a thread-local, oldest first, so the last
  element is the innermost frame. Two views of a stack are defined here and
  proved to agree: the oldest-first fold that `get_context` and
  `get_async_context` compute, and the innermost-first scan that
  `get_context_value` performs.
 */
module Frames {
  import opened Base

  type Frame = map<string, string>
  type Stack = seq<Frame>

  /** `Vec::pop` with its result discarded: the top frame goes, an empty stack stays empty. */
  function Pop(s: Stack): (r: Stack)
    ensures |s| == 0 ==> r == s
    ensures |s| > 0 ==> r + [s[|s| - 1]] == s
  {
    if |s| == 0 then s else s[..|s| - 1]
  }

  /**
    `keys` is one iteration order of a `HashMap`: every key of `f` exactly once.
    The model proves only facts that hold for every such order.
   */
  ghost predicate IsKeyOrder(keys: seq<string>, f: Frame) {
    && (forall i :: 0 <= i < |keys| ==> keys[i] in f)
    && (forall k :: k in f ==> k in keys)
    && (forall i, j :: 0 <= i < j < |keys| ==> keys[i] != keys[j])
  }

  /** The fold `acc.extend(frame)` over the frames, oldest first. */
  function FoldExtend(acc: Frame, s: Stack): Frame
    decreases |s|
  {
    if |s| == 0 then acc else FoldExtend(acc + s[0], s[1..])
  }

  /** Innermost-first scan for `key`: the value in the topmost frame holding it. */
  function Lookup(s: Stack, key: string): (r: Option<string>)
    ensures r.None? <==> forall i :: 0 <= i < |s| ==> key !in s[i]
    ensures r.Some? ==> exists i :: 0 <= i < |s| && key in s[i] && s[i][key] == r.value
                                    && forall j :: i < j < |s| ==> key !in s[j]
    decreases |s|
  {
    if |s| == 0 then None
    else if key in s[|s| - 1] then Some(s[|s| - 1][key])
    else
      var r := Lookup(s[..|s| - 1], key);
      LookupSkipsTop(s, s[..|s| - 1], key, r);
      r
  }

  /** What the scan below an innermost frame without `key` finds is what the whole scan finds. */
  lemma LookupSkipsTop(s: Stack, init: Stack, key: string, r: Option<string>)
    requires |s| > 0 && init == s[..|s| - 1] && key !in s[|s| - 1]
    requires r.None? <==> forall i :: 0 <= i < |init| ==> key !in init[i]
    requires r.Some? ==> exists i :: 0 <= i < |init| && key in init[i] && init[i][key] == r.value
                                      && forall j :: i < j < |init| ==> key !in init[j]
    ensures r.None? <==> forall i :: 0 <= i < |s| ==> key !in s[i]
    ensures r.Some? ==> exists i :: 0 <= i < |s| && key in s[i] && s[i][key] == r.value
                                    && forall j :: i < j < |s| ==> key !in s[j]
  {
    if r.None? {
      forall i | 0 <= i < |s|
        ensures key !in s[i]
      {
        if i < |init| {
          assert init[i] == s[i];
        }
      }
    } else {
      var i :| 0 <= i < |init| && key in init[i] && init[i][key] == r.value
               && forall j :: i < j < |init| ==> key !in init[j];
      assert init[i] == s[i];
      forall j | i < j < |s|
        ensures key !in s[j]
      {
        if j < |init| {
          assert init[j] == s[j];
        }
      }
    }
  }

  /** Extending the fold by one more frame overlays that frame on the fold so far. */
  lemma {:induction false} FoldExtendSnoc(acc: Frame, s: Stack, f: Frame)
    ensures FoldExtend(acc, s + [f]) == FoldExtend(acc, s) + f
    decreases |s|
  {
    if |s| == 0 {
      assert s + [f] == [f];
      assert [f][1..] == [];
    } else {
      assert (s + [f])[0] == s[0];
      assert (s + [f])[1..] == s[1..] + [f];
      FoldExtendSnoc(acc + s[0], s[1..], f);
    }
  }

  /**
    The merged context of a stack (`get_context` / `get_async_context` before
    the storage-access fallback): its keys are the union of all frames' keys,
    and each key carries the value of the innermost frame holding it, which is
    what the innermost-first scan finds.
   */
  function Merge(s: Stack): (r: Frame)
    ensures forall key :: key in r <==> exists i :: 0 <= i < |s| && key in s[i]
    ensures forall key :: Lookup(s, key) == (if key in r then Some(r[key]) else None)
  {
    MergeAgreesWithLookup(s);
    FoldExtend(map[], s)
  }

  lemma {:induction false} MergeAgreesWithLookup(s: Stack)
    ensures forall key :: Lookup(s, key) == (if key in FoldExtend(map[], s) then Some(FoldExtend(map[], s)[key]) else None)
    decreases |s|
  {
    if |s| == 0 {
    } else {
      var init := s[..|s| - 1];
      var top := s[|s| - 1];
      assert init + [top] == s;
      FoldExtendSnoc(map[], init, top);
      MergeAgreesWithLookup(init);
    }
  }
}
