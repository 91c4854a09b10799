/**
  The clone-upfront rewrite of the log_args macro: in the token text of a
  `fields(..)` or `current(..)` expression every `self.<field>` becomes
  `__<field>_for_macro`. The loop finds the next `self.` at or after a
  cursor, reads the field name after it, replaces every occurrence of
  `self.<field>` in the whole string with `str::replace`, and moves the
  cursor past the field name. Positions are character indices (the source
  uses byte offsets, which coincide on ASCII text).
 */
module SelfRewrite {
  import opened Base

  /** `char::is_alphanumeric`, restricted to ASCII. */
  predicate IsAsciiAlphanumeric(c: char) {
    'a' <= c <= 'z' || 'A' <= c <= 'Z' || '0' <= c <= '9'
  }

  /** A character that continues a field name after `self.`. */
  predicate IsFieldChar(c: char) {
    IsAsciiAlphanumeric(c) || c == '_'
  }

  const SelfDot: string := "self."

  /** `self.` starts at position `i` of `s`. */
  predicate SelfAt(s: string, i: int) {
    0 <= i && i + 5 <= |s| && s[i] == 's' && s[i + 1] == 'e' && s[i + 2] == 'l' && s[i + 3] == 'f' && s[i + 4] == '.'
  }

  /** The number of positions where `self.` starts. */
  function CountSelf(s: string): nat
    decreases |s|
  {
    if |s| == 0 then 0 else (if SelfAt(s, 0) then 1 else 0) + CountSelf(s[1..])
  }

  /** The first `self.` at or after `i`. */
  function FindFrom(s: string, i: nat): (r: Option<nat>)
    ensures r.Some? ==> i <= r.value && SelfAt(s, r.value) && forall j :: i <= j < r.value ==> !SelfAt(s, j)
    ensures r.None? ==> forall j :: i <= j ==> !SelfAt(s, j)
    decreases |s| - i
  {
    if i + 5 > |s| then None else if SelfAt(s, i) then Some(i) else FindFrom(s, i + 1)
  }

  /** `str::find("self.")`. */
  function FindSelf(s: string): (r: Option<nat>)
    ensures r.Some? ==> SelfAt(s, r.value) && forall j :: 0 <= j < r.value ==> !SelfAt(s, j)
    ensures r.None? <==> forall j :: !SelfAt(s, j)
  {
    FindFrom(s, 0)
  }

  /** The end of the field name: the first character that is neither alphanumeric nor `_`, or the end of the text. */
  function FieldEnd(rem: string): (n: nat)
    ensures n <= |rem|
    ensures forall j :: 0 <= j < n ==> IsFieldChar(rem[j])
    ensures n < |rem| ==> !IsFieldChar(rem[n])
    decreases |rem|
  {
    if |rem| == 0 || !IsFieldChar(rem[0]) then 0 else 1 + FieldEnd(rem[1..])
  }

  /** `str::replace`: occurrences of `pat` replaced left to right, without overlap. */
  function ReplaceAll(s: string, pat: string, rep: string): string
    requires |pat| > 0
    decreases |s|
  {
    if |s| < |pat| then s
    else if s[..|pat|] == pat then rep + ReplaceAll(s[|pat|..], pat, rep)
    else [s[0]] + ReplaceAll(s[1..], pat, rep)
  }

  lemma ReplaceAllUnfold(s: string, pat: string, rep: string)
    requires |pat| > 0 && |s| >= |pat|
    ensures s[..|pat|] == pat ==> ReplaceAll(s, pat, rep) == rep + ReplaceAll(s[|pat|..], pat, rep)
    ensures s[..|pat|] == pat && |rep| > 0 ==> ReplaceAll(s, pat, rep)[0] == rep[0]
    ensures s[..|pat|] != pat ==> ReplaceAll(s, pat, rep) == [s[0]] + ReplaceAll(s[1..], pat, rep)
  {
  }

  /** `self.` at `j` of a suffix is `self.` at `start + j` of the whole text. */
  lemma SelfAtSlice(s: string, start: nat)
    requires start <= |s|
    ensures forall j :: 0 <= j ==> (SelfAt(s[start..], j) <==> SelfAt(s, start + j))
  {
  }

  /** The name a field reference is rewritten to: `__<field>_for_macro`. */
  function Renamed(name: string): string {
    "__" + name + "_for_macro"
  }

  /** The field name read after the `self.` at `p`. */
  function FieldNameAt(s: string, p: nat): string
    requires p + 5 <= |s|
  {
    s[p + 5..][..FieldEnd(s[p + 5..])]
  }

  /**
    A pattern/replacement pair as the loop builds them: the pattern starts
    with `self.`, the replacement starts with `_`, holds no `.` and ends with a
    character that cannot continue `self.`.
   */
  ghost predicate IsRenaming(pat: string, rep: string) {
    && |pat| >= 5 && pat[..5] == SelfDot
    && |rep| > 0 && rep[0] == '_' && '.' !in rep && rep[|rep| - 1] !in "self"
  }

  lemma SelfAtShift(s: string)
    requires |s| > 0
    ensures forall j :: 1 <= j ==> (SelfAt(s, j) <==> SelfAt(s[1..], j - 1))
    ensures forall j :: 0 <= j ==> (SelfAt(s[1..], j) <==> SelfAt(s, j + 1))
  {
  }

  lemma PatternStartsSelf(s: string, pat: string, p: nat)
    requires |pat| >= 5 && pat[..5] == SelfDot
    requires p + |pat| <= |s|
    ensures s[p..p + |pat|] == pat ==> SelfAt(s, p)
  {
    if s[p..p + |pat|] == pat {
      assert forall k :: 0 <= k < 5 ==> s[p + k] == s[p..p + |pat|][k] == pat[..5][k];
    }
  }

  lemma {:induction false} CountZero(s: string)
    ensures CountSelf(s) == 0 <==> forall j :: !SelfAt(s, j)
    decreases |s|
  {
    if |s| > 0 {
      SelfAtShift(s);
      CountZero(s[1..]);
    }
  }

  lemma {:induction false} CountSuffixLe(s: string, k: nat)
    requires k <= |s|
    ensures CountSelf(s[k..]) <= CountSelf(s)
    decreases k
  {
    if k > 0 {
      assert s[k..] == s[1..][k - 1..];
      CountSuffixLe(s[1..], k - 1);
    }
  }

  /** A prefix without `.` whose last character cannot continue `self.` neither holds nor starts a `self.`. */
  lemma {:induction false} CountSkipsPrefix(a: string, t: string)
    requires '.' !in a
    requires |a| > 0 ==> a[|a| - 1] !in "self"
    ensures CountSelf(a + t) == CountSelf(t)
    decreases |a|
  {
    if |a| > 0 {
      assert !SelfAt(a + t, 0) by {
        if |a| >= 5 {
          assert (a + t)[4] == a[4];
        } else {
          assert (a + t)[|a| - 1] == a[|a| - 1];
        }
      }
      assert (a + t)[1..] == a[1..] + t;
      CountSkipsPrefix(a[1..], t);
    } else {
      assert a + t == t;
    }
  }

  /** Where the replaced text shows no `_`, it is still the original text. */
  lemma {:induction false} ReplaceHead(u: string, pat: string, rep: string, k: nat)
    requires |pat| > 0 && |rep| > 0 && rep[0] == '_'
    requires k <= |ReplaceAll(u, pat, rep)|
    requires forall j :: 0 <= j < k ==> ReplaceAll(u, pat, rep)[j] != '_'
    ensures k <= |u| && forall j :: 0 <= j < k ==> ReplaceAll(u, pat, rep)[j] == u[j]
    decreases |u|
  {
    if |u| >= |pat| && k > 0 {
      var r := ReplaceAll(u, pat, rep);
      ReplaceAllUnfold(u, pat, rep);
      assert r[0] != '_';
      assert r == [u[0]] + ReplaceAll(u[1..], pat, rep);
      assert forall j :: 0 <= j < k - 1 ==> ReplaceAll(u[1..], pat, rep)[j] == r[j + 1];
      ReplaceHead(u[1..], pat, rep, k - 1);
    }
  }

  /** A renaming never adds a `self.`, and removes at least one when its pattern occurs at `p`. */
  lemma {:induction false} CountReplace(s: string, pat: string, rep: string, p: int)
    requires IsRenaming(pat, rep)
    ensures CountSelf(ReplaceAll(s, pat, rep)) <= CountSelf(s)
    ensures 0 <= p && p + |pat| <= |s| && s[p..p + |pat|] == pat ==> CountSelf(ReplaceAll(s, pat, rep)) < CountSelf(s)
    decreases |s|
  {
    if |s| >= |pat| {
      if s[..|pat|] == pat {
        CountReplace(s[|pat|..], pat, rep, -1);
        CountReplaceAtPattern(s, pat, rep);
      } else {
        if 1 <= p && p + |pat| <= |s| {
          assert s[1..][p - 1..p - 1 + |pat|] == s[p..p + |pat|];
        }
        CountReplace(s[1..], pat, rep, p - 1);
        CountReplacePastChar(s, pat, rep, p);
      }
    }
  }

  /** The step of `CountReplace` where the pattern starts the text: one `self.` goes. */
  lemma CountReplaceAtPattern(s: string, pat: string, rep: string)
    requires IsRenaming(pat, rep) && |s| >= |pat| && s[..|pat|] == pat
    requires CountSelf(ReplaceAll(s[|pat|..], pat, rep)) <= CountSelf(s[|pat|..])
    ensures CountSelf(ReplaceAll(s, pat, rep)) < CountSelf(s)
  {
    var rest := s[|pat|..];
    ReplaceAllUnfold(s, pat, rep);
    PatternStartsSelf(s, pat, 0);
    assert s[0..|pat|] == s[..|pat|];
    CountSkipsPrefix(rep, ReplaceAll(rest, pat, rep));
    assert s[1..][|pat| - 1..] == rest;
    CountSuffixLe(s[1..], |pat| - 1);
  }

  /** The step of `CountReplace` where the first character is kept. */
  lemma CountReplacePastChar(s: string, pat: string, rep: string, p: int)
    requires IsRenaming(pat, rep) && |s| >= |pat| && s[..|pat|] != pat
    requires CountSelf(ReplaceAll(s[1..], pat, rep)) <= CountSelf(s[1..])
    requires 1 <= p && p + |pat| <= |s| && s[p..p + |pat|] == pat ==> CountSelf(ReplaceAll(s[1..], pat, rep)) < CountSelf(s[1..])
    ensures CountSelf(ReplaceAll(s, pat, rep)) <= CountSelf(s)
    ensures 0 <= p && p + |pat| <= |s| && s[p..p + |pat|] == pat ==> CountSelf(ReplaceAll(s, pat, rep)) < CountSelf(s)
  {
    var r := ReplaceAll(s, pat, rep);
    ReplaceAllUnfold(s, pat, rep);
    assert r[1..] == ReplaceAll(s[1..], pat, rep);
    PatternStartsSelf(s, pat, 0);
    KeptHeadSelf(s, pat, rep);
  }

  /** A `self.` at the head of the replaced text was already there. */
  lemma KeptHeadSelf(s: string, pat: string, rep: string)
    requires IsRenaming(pat, rep) && |s| >= |pat| && s[..|pat|] != pat
    ensures SelfAt(ReplaceAll(s, pat, rep), 0) ==> SelfAt(s, 0)
  {
    var t := s[1..];
    var rt := ReplaceAll(t, pat, rep);
    var r := ReplaceAll(s, pat, rep);
    if SelfAt(r, 0) {
      ReplaceAllUnfold(s, pat, rep);
      assert forall j :: 0 <= j < 4 ==> rt[j] == r[j + 1] && rt[j] != '_';
      ReplaceHead(t, pat, rep, 4);
    }
  }

  /** Replacing in `s` keeps its first `p` characters and replaces the `pat` at `p`. */
  predicate ReplacedAt(s: string, pat: string, rep: string, p: nat) {
    0 < |pat| && p + |pat| <= |s|
    && ReplaceAll(s, pat, rep) == s[..p] + rep + ReplaceAll(s[p + |pat|..], pat, rep)
  }

  /** Replacing from the first `self.` on leaves the text before it alone. */
  lemma {:induction false} ReplaceFromFirst(s: string, pat: string, rep: string, p: nat)
    requires |pat| >= 5 && pat[..5] == SelfDot
    requires p + |pat| <= |s| && s[p..p + |pat|] == pat
    requires forall j :: 0 <= j < p ==> !SelfAt(s, j)
    ensures ReplacedAt(s, pat, rep, p)
    decreases p
  {
    if p == 0 {
      ReplaceAtStart(s, pat, rep);
    } else {
      assert !SelfAt(s, 0);
      SkipFirstPremises(s, pat, p);
      ReplaceFromFirst(s[1..], pat, rep, p - 1);
      ReplaceFromSecond(s, pat, rep, p);
    }
  }

  /** The step of `ReplaceFromFirst`: a first character that starts no `self.` is kept in front. */
  lemma ReplaceFromSecond(s: string, pat: string, rep: string, p: nat)
    requires |pat| >= 5 && pat[..5] == SelfDot && 0 < p
    requires p + |pat| <= |s| && !SelfAt(s, 0)
    requires ReplacedAt(s[1..], pat, rep, p - 1)
    ensures ReplacedAt(s, pat, rep, p)
  {
    var tail := ReplaceAll(s[p + |pat|..], pat, rep);
    assert s[1..][p - 1 + |pat|..] == s[p + |pat|..];
    ReplaceSkipsFirst(s, pat, rep);
    ConsPrefix(s, p, rep, tail);
  }

  /** The premises of `ReplaceFromFirst` carry over to the text after its first character. */
  lemma SkipFirstPremises(s: string, pat: string, p: nat)
    requires |pat| >= 5 && pat[..5] == SelfDot && 0 < p
    requires p + |pat| <= |s| && s[p..p + |pat|] == pat
    requires forall j :: 0 <= j < p ==> !SelfAt(s, j)
    ensures p - 1 + |pat| <= |s[1..]| && s[1..][p - 1..p - 1 + |pat|] == pat
    ensures s[1..][p - 1 + |pat|..] == s[p + |pat|..]
    ensures forall j :: 0 <= j < p - 1 ==> !SelfAt(s[1..], j)
  {
    var t := s[1..];
    forall j | 0 <= j < p - 1
      ensures !SelfAt(t, j)
    {
      assert !SelfAt(s, j + 1);
    }
    assert t[p - 1..p - 1 + |pat|] == s[p..p + |pat|];
  }

  lemma ConsPrefix(s: string, p: nat, rep: string, tail: string)
    requires 0 < p <= |s|
    ensures [s[0]] + (s[1..][..p - 1] + rep + tail) == s[..p] + rep + tail
  {
    assert [s[0]] + s[1..][..p - 1] == s[..p];
  }

  lemma ReplaceAtStart(s: string, pat: string, rep: string)
    requires |pat| > 0 && |pat| <= |s| && s[0..|pat|] == pat
    ensures ReplaceAll(s, pat, rep) == s[..0] + rep + ReplaceAll(s[0 + |pat|..], pat, rep)
  {
    assert s[..|pat|] == pat;
    ReplaceAllUnfold(s, pat, rep);
    assert s[..0] == [];
  }

  lemma ReplaceSkipsFirst(s: string, pat: string, rep: string)
    requires |pat| >= 5 && pat[..5] == SelfDot && |s| >= |pat|
    requires !SelfAt(s, 0)
    ensures ReplaceAll(s, pat, rep) == [s[0]] + ReplaceAll(s[1..], pat, rep)
  {
    PatternStartsSelf(s, pat, 0);
    assert s[0..|pat|] == s[..|pat|];
    ReplaceAllUnfold(s, pat, rep);
  }

  lemma Assoc(p: string, a: string, m: string, b: string)
    ensures p + (a + m + b) == (p + a) + m + b
  {
  }

  /** After the replacement, no `self.` starts before the end of the inserted name. */
  lemma NoSelfBeforeEnd(s: string, p: nat, rep: string, tail: string)
    requires p <= |s|
    requires forall j :: 0 <= j < p ==> !SelfAt(s, j)
    requires |rep| > 0 && rep[0] == '_' && '.' !in rep && rep[|rep| - 1] !in "self"
    ensures forall j :: 0 <= j < p + |rep| ==> !SelfAt(s[..p] + rep + tail, j)
  {
    var n := s[..p] + rep + tail;
    assert forall k :: 0 <= k < p ==> n[k] == s[k];
    assert forall k :: p <= k < p + |rep| ==> n[k] == rep[k - p] && n[k] != '.';
    assert n[p] == '_';
    assert n[p + |rep| - 1] == rep[|rep| - 1];
    forall j | 0 <= j < p + |rep|
      ensures !SelfAt(n, j)
    {
      if j + 5 <= p {
        assert !SelfAt(s, j);
      }
    }
  }

  /** One rewrite step: the field read at `p` renamed everywhere; it removes at least one `self.`. */
  function RewriteFieldAt(s: string, p: nat): (r: string)
    requires SelfAt(s, p)
    ensures CountSelf(r) < CountSelf(s)
  {
    var name := FieldNameAt(s, p);
    var pat := SelfDot + name;
    var rep := Renamed(name);
    assert pat[..5] == SelfDot;
    assert s[p..p + |pat|] == pat by {
      assert s[p + 5..][..|name|] == name;
    }
    assert '.' !in rep by {
      assert forall k :: 0 <= k < |name| ==> IsFieldChar(name[k]);
    }
    CountReplace(s, pat, rep, p);
    ReplaceAll(s, pat, rep)
  }

  /**
    The rewrite as a whole: rename the field at the first `self.` until none
    is left. The result holds no `self.`, and a text without one is returned
    unchanged.
   */
  function RewriteAllFields(s: string): (r: string)
    ensures forall j :: !SelfAt(r, j)
    ensures (forall j :: !SelfAt(s, j)) ==> r == s
    decreases CountSelf(s)
  {
    match FindSelf(s)
    case None => s
    case Some(p) => RewriteAllFields(RewriteFieldAt(s, p))
  }

  lemma FindFromCursor(r: string, start: nat, pos: nat)
    requires start <= |r|
    requires forall j :: 0 <= j < start ==> !SelfAt(r, j)
    requires FindSelf(r[start..]) == Some(pos)
    ensures SelfAt(r, start + pos)
    ensures forall j :: 0 <= j < start + pos ==> !SelfAt(r, j)
    ensures FindSelf(r) == Some(start + pos)
  {
    SelfAtSlice(r, start);
    forall j | start <= j < start + pos
      ensures !SelfAt(r, j)
    {
      assert !SelfAt(r[start..], j - start);
    }
    var q := FindSelf(r);
    assert q.Some?;
    assert !(q.value < start + pos);
    assert !(start + pos < q.value);
  }

  /** The text after one loop pass that renames the field at the `self.` at `p`. */
  function RenameAt(r: string, p: nat): string
    requires p + 5 <= |r|
  {
    var name := FieldNameAt(r, p);
    ReplaceAll(r, SelfDot + name, Renamed(name))
  }

  /** One pass of the loop body: the whole-text rewrite is unchanged and a `self.` is gone. */
  lemma RewriteStep(r: string, start: nat, pos: nat)
    requires start <= |r|
    requires forall j :: 0 <= j < start ==> !SelfAt(r, j)
    requires FindSelf(r[start..]) == Some(pos)
    ensures start + pos + 5 <= |r|
    ensures RewriteAllFields(RenameAt(r, start + pos)) == RewriteAllFields(r)
    ensures CountSelf(RenameAt(r, start + pos)) < CountSelf(r)
  {
    FoundFromCursor(r, start, pos);
    RewriteAllFieldsFirst(r, start + pos);
  }

  /** The `self.` found from the cursor is the first one in the whole text. */
  lemma FoundFromCursor(r: string, start: nat, pos: nat)
    requires start <= |r|
    requires forall j :: 0 <= j < start ==> !SelfAt(r, j)
    requires FindSelf(r[start..]) == Some(pos)
    ensures FindSelf(r) == Some(start + pos)
  {
    FindFromCursor(r, start, pos);
  }

  /** One pass of the loop body moves the cursor past the inserted name, and no `self.` starts before it. */
  lemma RewriteStepCursor(r: string, start: nat, pos: nat)
    requires start <= |r|
    requires forall j :: 0 <= j < start ==> !SelfAt(r, j)
    requires FindSelf(r[start..]) == Some(pos)
    ensures start + pos + 5 <= |r|
    ensures start + pos + 5 + |FieldNameAt(r, start + pos)| <= |RenameAt(r, start + pos)|
    ensures var p := start + pos; forall j :: 0 <= j < p + 5 + |FieldNameAt(r, p)| ==> !SelfAt(RenameAt(r, p), j)
  {
    FoundFromCursor(r, start, pos);
    RenamedAfterFirst(r, start + pos);
  }

  /** The whole-text rewrite begins by renaming the field at the first `self.`. */
  lemma RewriteAllFieldsFirst(s: string, p: nat)
    requires FindSelf(s) == Some(p)
    ensures p + 5 <= |s|
    ensures RewriteAllFields(RenameAt(s, p)) == RewriteAllFields(s)
    ensures CountSelf(RenameAt(s, p)) < CountSelf(s)
  {
    var name := FieldNameAt(s, p);
    assert RewriteFieldAt(s, p) == ReplaceAll(s, SelfDot + name, Renamed(name));
  }

  /** Renaming the field at the first `self.` leaves no `self.` up to the end of the inserted name. */
  lemma RenamedAfterFirst(r: string, p: nat)
    requires FindSelf(r) == Some(p)
    ensures p + 5 + |FieldNameAt(r, p)| <= |RenameAt(r, p)|
    ensures forall j :: 0 <= j < p + 5 + |FieldNameAt(r, p)| ==> !SelfAt(RenameAt(r, p), j)
  {
    var name := FieldNameAt(r, p);
    var pat := SelfDot + name;
    var rep := Renamed(name);
    PatternAtSelf(r, p);
    assert pat[..5] == SelfDot;
    ReplaceFromFirst(r, pat, rep, p);
    assert IsFieldName(name);
    FieldNameHasNoDot(name);
    assert '.' !in rep;
    NoSelfBeforeEnd(r, p, rep, ReplaceAll(r[p + |pat|..], pat, rep));
  }

  /** The `self.` at `p` and the field name after it spell the pattern that pass replaces. */
  lemma PatternAtSelf(r: string, p: nat)
    requires SelfAt(r, p)
    ensures p + 5 + |FieldNameAt(r, p)| <= |r|
    ensures r[p..p + 5 + |FieldNameAt(r, p)|] == SelfDot + FieldNameAt(r, p)
  {
    var name := FieldNameAt(r, p);
    assert r[p..p + 5] == SelfDot;
    assert r[p + 5..][..|name|] == r[p + 5..p + 5 + |name|];
    assert r[p..p + 5 + |name|] == r[p..p + 5] + r[p + 5..p + 5 + |name|];
  }

  lemma NoneFromCursor(r: string, start: nat)
    requires start <= |r|
    requires forall j :: 0 <= j < start ==> !SelfAt(r, j)
    requires FindSelf(r[start..]).None?
    ensures forall j :: !SelfAt(r, j)
  {
    SelfAtSlice(r, start);
    forall j | start <= j
      ensures !SelfAt(r, j)
    {
      assert !SelfAt(r[start..], j - start);
    }
  }

  /**
    The loop of the clone-upfront rewrite as written: its result is the
    whole-text rewrite, so no `self.` is left in it.
   */
  method RewriteSelfFields(expr: string) returns (r: string)
    ensures r == RewriteAllFields(expr)
    ensures forall j :: !SelfAt(r, j)
  {
    r := expr;
    var start := 0;
    var found := FindSelf(r[start..]);
    while found.Some?
      invariant start <= |r|
      invariant forall j :: 0 <= j < start ==> !SelfAt(r, j)
      invariant found == FindSelf(r[start..])
      invariant RewriteAllFields(r) == RewriteAllFields(expr)
      decreases CountSelf(r)
    {
      var pos := found.value;
      RewriteStep(r, start, pos);
      RewriteStepCursor(r, start, pos);
      var fieldStart := start + pos + 5;
      var remaining := r[fieldStart..];
      var fieldEnd := FieldEnd(remaining);
      var fieldName := remaining[..fieldEnd];
      var replacement := Renamed(fieldName);
      var oldExpr := SelfDot + fieldName;
      r := ReplaceAll(r, oldExpr, replacement);
      start := fieldStart + fieldEnd;
      found := FindSelf(r[start..]);
    }
    NoneFromCursor(r, start);
  }

  lemma NoDotNoSelf(s: string)
    requires '.' !in s
    ensures forall j :: !SelfAt(s, j)
  {
    forall j | 0 <= j && j + 5 <= |s|
      ensures !SelfAt(s, j)
    {
      assert s[j + 4] in s;
    }
  }

  /** Every character of `name` can continue a field name. */
  predicate IsFieldName(name: string) {
    forall k :: 0 <= k < |name| ==> IsFieldChar(name[k])
  }

  lemma FieldNameHasNoDot(name: string)
    requires IsFieldName(name)
    ensures '.' !in name
  {
    forall k | 0 <= k < |name|
      ensures name[k] != '.'
    {
      assert IsFieldChar(name[k]);
    }
  }

  /** The field name read from `name + t` is `name` when `t` does not continue it. */
  lemma {:induction false} FieldEndStops(name: string, t: string)
    requires IsFieldName(name)
    requires |t| == 0 || !IsFieldChar(t[0])
    ensures FieldEnd(name + t) == |name|
    decreases |name|
  {
    if |name| == 0 {
      assert name + t == t;
    } else {
      assert IsFieldChar((name + t)[0]);
      assert (name + t)[1..] == name[1..] + t;
      FieldEndStops(name[1..], t);
    }
  }

  /** A text without `.` holds no occurrence of a pattern that has one. */
  lemma {:induction false} ReplaceAbsent(x: string, pat: string, rep: string)
    requires |pat| >= 5 && pat[4] == '.'
    requires '.' !in x
    ensures ReplaceAll(x, pat, rep) == x
    decreases |x|
  {
    if |x| >= |pat| {
      assert x[4] != '.';
      assert x[..|pat|][4] == x[4];
      assert x[..|pat|] != pat;
      assert forall c :: c in x[1..] ==> c in x;
      ReplaceAbsent(x[1..], pat, rep);
    }
  }

  /** `self.<a> + self.<a><x>`: a field reference, then one to a field whose name extends it. */
  function ExtendedPair(a: string, x: string): string {
    SelfDot + a + " + " + SelfDot + (a + x)
  }

  lemma ExtendedPairFirst(a: string, x: string)
    requires IsFieldName(a)
    ensures SelfAt(ExtendedPair(a, x), 0)
    ensures FindSelf(ExtendedPair(a, x)) == Some(0)
    ensures FieldNameAt(ExtendedPair(a, x), 0) == a
  {
    var s := ExtendedPair(a, x);
    assert s[5..] == a + (" + " + SelfDot + (a + x));
    FieldEndStops(a, " + " + SelfDot + (a + x));
    assert s[5..][..|a|] == a;
  }

  lemma ExtendedPairTail(a: string, x: string)
    requires IsFieldName(a) && IsFieldName(x)
    ensures ReplaceAll(" + " + (SelfDot + a) + x, SelfDot + a, Renamed(a)) == " + " + Renamed(a) + x
  {
    var pat := SelfDot + a;
    var rep := Renamed(a);
    var u := " + " + pat + x;
    assert pat[..5] == SelfDot;
    assert u[3..3 + |pat|] == pat;
    assert u[3 + |pat|..] == x;
    assert u[..3] == " + ";
    ReplaceFromFirst(u, pat, rep, 3);
    FieldNameHasNoDot(x);
    ReplaceAbsent(x, pat, rep);
  }

  lemma ExtendedPairReplaced(a: string, x: string)
    requires IsFieldName(a) && IsFieldName(x)
    ensures ReplaceAll(ExtendedPair(a, x), SelfDot + a, Renamed(a)) == Renamed(a) + " + " + Renamed(a) + x
  {
    var s := ExtendedPair(a, x);
    var pat := SelfDot + a;
    var rep := Renamed(a);
    var u := " + " + pat + x;
    assert s == pat + u;
    assert pat[..5] == SelfDot;
    ReplaceAtStart(s, pat, rep);
    assert s[0 + |pat|..] == u;
    assert s[..0] == [];
    ExtendedPairTail(a, x);
  }

  /**
    As written, the field extending another one is renamed after it:
    `self.<a> + self.<a><x>` becomes `__<a>_for_macro + __<a>_for_macro<x>`,
    because the replacement built for `a` also hits the start of `self.<a><x>`
    (`self.a + self.ab` becomes `__a_for_macro + __a_for_macrob`).
   */
  lemma ExtendedFieldIsMisnamed(a: string, x: string)
    requires IsFieldName(a) && IsFieldName(x)
    ensures RewriteAllFields(ExtendedPair(a, x)) == Renamed(a) + " + " + Renamed(a) + x
  {
    var r := Renamed(a) + " + " + Renamed(a) + x;
    ExtendedPairFirst(a, x);
    ExtendedPairReplaced(a, x);
    assert RewriteFieldAt(ExtendedPair(a, x), 0) == r;
    FieldNameHasNoDot(a);
    FieldNameHasNoDot(x);
    assert '.' !in r;
    NoDotNoSelf(r);
  }

  /** Up to the first `_` it shows, `r` reads the same as `s`. */
  ghost predicate HeadAgrees(r: string, s: string) {
    forall j :: 0 <= j < |r| && NoUnderscoreThrough(r, j) ==> j < |s| && r[j] == s[j]
  }

  /** None of `r[0]`, ..., `r[j]` is `_`. */
  ghost predicate NoUnderscoreThrough(r: string, j: int) {
    forall i :: 0 <= i <= j && i < |r| ==> r[i] != '_'
  }

  lemma UnderscoreFirst(r: string, s: string)
    requires |r| > 0 && r[0] == '_'
    ensures HeadAgrees(r, s)
  {
  }

  lemma ConsHeadAgrees(c: char, t: string, rest: string)
    requires HeadAgrees(rest, t)
    ensures HeadAgrees([c] + rest, [c] + t)
  {
    var r := [c] + rest;
    forall j | 1 <= j < |r| && NoUnderscoreThrough(r, j)
      ensures j < |[c] + t| && r[j] == ([c] + t)[j]
    {
      assert forall i :: 0 <= i < |rest| ==> rest[i] == r[i + 1];
      assert NoUnderscoreThrough(rest, j - 1);
    }
  }

  lemma HeadSelf(c: char, t: string, rest: string)
    requires HeadAgrees(rest, t)
    ensures SelfAt([c] + rest, 0) ==> SelfAt([c] + t, 0)
  {
    if SelfAt([c] + rest, 0) {
      assert rest[0] == 'e' && rest[1] == 'l' && rest[2] == 'f' && rest[3] == '.';
      assert NoUnderscoreThrough(rest, 0) && NoUnderscoreThrough(rest, 1);
      assert NoUnderscoreThrough(rest, 2) && NoUnderscoreThrough(rest, 3);
    }
  }

  /** `[c]` in front of a text with no `self.` adds none, unless the original text started one. */
  lemma ConsNoSelf(c: char, t: string, rest: string)
    requires forall j :: !SelfAt(rest, j)
    requires HeadAgrees(rest, t)
    requires !SelfAt([c] + t, 0)
    ensures forall j :: !SelfAt([c] + rest, j)
  {
    HeadSelf(c, t, rest);
    assert ([c] + rest)[1..] == rest;
    SelfAtShift([c] + rest);
  }

  /** A renamed field followed by a text without `self.` holds none. */
  lemma RenamedNoSelf(name: string, rest: string)
    requires IsFieldName(name)
    requires forall j :: !SelfAt(rest, j)
    ensures forall j :: !SelfAt(Renamed(name) + rest, j)
  {
    FieldNameHasNoDot(name);
    var rep := Renamed(name);
    assert '.' !in rep;
    CountSkipsPrefix(rep, rest);
    CountZero(rest);
    CountZero(rep + rest);
  }

  /**
    The evidently intended rewrite: every `self.` together with the whole
    field name after it becomes that field's `__<field>_for_macro`, each
    occurrence on its own; other characters are copied. A renaming is longer
    than the reference it replaces, so the text never gets shorter.
   */
  function RewriteEachField(s: string): (r: string)
    ensures |r| >= |s|
    decreases |s|
  {
    if |s| == 0 then ""
    else if SelfAt(s, 0) then
      var name := FieldNameAt(s, 0);
      Renamed(name) + RewriteEachField(s[5 + |name|..])
    else
      [s[0]] + RewriteEachField(s[1..])
  }

  /** The corrected rewrite leaves no `self.`, and reads as its input up to the first `_` it shows. */
  lemma {:induction false} RewriteEachFieldClean(s: string)
    ensures forall j :: !SelfAt(RewriteEachField(s), j)
    ensures HeadAgrees(RewriteEachField(s), s)
    decreases |s|
  {
    if |s| > 0 {
      if SelfAt(s, 0) {
        var name := FieldNameAt(s, 0);
        var rest := RewriteEachField(s[5 + |name|..]);
        RewriteEachFieldClean(s[5 + |name|..]);
        RenamedNoSelf(name, rest);
        UnderscoreFirst(Renamed(name) + rest, s);
      } else {
        var rest := RewriteEachField(s[1..]);
        RewriteEachFieldClean(s[1..]);
        assert [s[0]] + s[1..] == s;
        ConsNoSelf(s[0], s[1..], rest);
        ConsHeadAgrees(s[0], s[1..], rest);
      }
    }
  }

  /** A text without `self.` is left as it is. */
  lemma {:induction false} RewriteEachFieldKeepsPlain(s: string)
    requires forall j :: !SelfAt(s, j)
    ensures RewriteEachField(s) == s
    decreases |s|
  {
    if |s| > 0 {
      SelfAtShift(s);
      RewriteEachFieldKeepsPlain(s[1..]);
    }
  }

  /** A character that ends a field name and cannot be part of `self.`. */
  predicate IsSeparator(c: char) {
    !IsFieldChar(c) && c != '.'
  }

  /** Reading a field name never looks past its end. */
  lemma {:induction false} FieldEndPrefix(u: string, v: string)
    requires FieldEnd(u) < |u| || |v| == 0 || !IsFieldChar(v[0])
    ensures FieldEnd(u + v) == FieldEnd(u)
    decreases |u|
  {
    if |u| == 0 {
      assert u + v == v;
    } else {
      assert (u + v)[0] == u[0];
      assert (u + v)[1..] == u[1..] + v;
      if IsFieldChar(u[0]) {
        FieldEndPrefix(u[1..], v);
      }
    }
  }

  lemma SelfAtBeforeSeparator(x: string, c: char, y: string)
    requires IsSeparator(c)
    ensures SelfAt(x + [c] + y, 0) <==> SelfAt(x, 0)
  {
    var s := x + [c] + y;
    if |x| >= 5 {
      assert forall k :: 0 <= k < 5 ==> s[k] == x[k];
    } else {
      assert s[|x|] == c;
    }
  }

  lemma SplitsAtSelf(x: string, c: char, y: string)
    requires IsSeparator(c) && SelfAt(x, 0)
    ensures
      var n := FieldEnd(x[5..]);
      && 5 + n <= |x|
      && RewriteEachField(x) == Renamed(FieldNameAt(x, 0)) + RewriteEachField(x[5 + n..])
      && RewriteEachField(x + [c] + y) == Renamed(FieldNameAt(x, 0)) + RewriteEachField(x[5 + n..] + [c] + y)
  {
    var s := x + [c] + y;
    SelfAtBeforeSeparator(x, c, y);
    assert s[5..] == x[5..] + ([c] + y);
    FieldEndPrefix(x[5..], [c] + y);
    var n := FieldEnd(x[5..]);
    assert FieldNameAt(s, 0) == FieldNameAt(x, 0) by {
      assert s[5..][..n] == x[5..][..n];
    }
    assert s[5 + n..] == x[5 + n..] + [c] + y;
    UnfoldAtSelf(x);
    UnfoldAtSelf(s);
  }

  /** One step of the corrected rewrite at a `self.`. */
  lemma UnfoldAtSelf(s: string)
    requires SelfAt(s, 0)
    ensures 5 + FieldEnd(s[5..]) <= |s|
    ensures RewriteEachField(s) == Renamed(FieldNameAt(s, 0)) + RewriteEachField(s[5 + FieldEnd(s[5..])..])
  {
  }

  lemma SplitsAtOther(x: string, c: char, y: string)
    requires IsSeparator(c) && |x| > 0 && !SelfAt(x, 0)
    ensures RewriteEachField(x) == [x[0]] + RewriteEachField(x[1..])
    ensures RewriteEachField(x + [c] + y) == [x[0]] + RewriteEachField(x[1..] + [c] + y)
  {
    var s := x + [c] + y;
    SelfAtBeforeSeparator(x, c, y);
    assert s[1..] == x[1..] + [c] + y;
  }

  lemma SplitsAtEmpty(c: char, y: string)
    requires IsSeparator(c)
    ensures RewriteEachField([c] + y) == [c] + RewriteEachField(y)
  {
    var s := [c] + y;
    assert !SelfAt(s, 0);
    assert s[1..] == y;
  }

  /**
    The intended property the as-written loop breaks: around a separator the
    rewrite works on each side on its own, so no field reference influences
    how another one is renamed.
   */
  lemma {:induction false} SeparatorSplits(x: string, c: char, y: string)
    requires IsSeparator(c)
    ensures RewriteEachField(x + [c] + y) == RewriteEachField(x) + [c] + RewriteEachField(y)
    decreases |x|
  {
    if |x| == 0 {
      SplitsAtEmpty(c, y);
      assert x + [c] + y == [c] + y;
    } else if SelfAt(x, 0) {
      SplitsAtSelf(x, c, y);
      var n := FieldEnd(x[5..]);
      SeparatorSplits(x[5 + n..], c, y);
      Assoc(Renamed(FieldNameAt(x, 0)), RewriteEachField(x[5 + n..]), [c], RewriteEachField(y));
    } else {
      SplitsAtOther(x, c, y);
      SeparatorSplits(x[1..], c, y);
      Assoc([x[0]], RewriteEachField(x[1..]), [c], RewriteEachField(y));
    }
  }

  lemma RenameOne(name: string, t: string)
    requires IsFieldName(name)
    requires |t| == 0 || !IsFieldChar(t[0])
    ensures RewriteEachField(SelfDot + name + t) == Renamed(name) + RewriteEachField(t)
  {
    var s := SelfDot + name + t;
    assert s == SelfDot + (name + t);
    assert SelfAt(s, 0);
    assert s[5..] == name + t;
    FieldEndStops(name, t);
    assert FieldNameAt(s, 0) == name;
    assert s[5 + |name|..] == t;
  }

  /** Separators in front of a text are kept as they are. */
  lemma {:induction false} SeparatorsKept(u: string, tail: string)
    requires forall k :: 0 <= k < |u| ==> IsSeparator(u[k])
    ensures RewriteEachField(u + tail) == u + RewriteEachField(tail)
    decreases |u|
  {
    if |u| == 0 {
      assert u + tail == tail;
    } else {
      SplitsAtEmpty(u[0], u[1..] + tail);
      assert [u[0]] + (u[1..] + tail) == u + tail;
      SeparatorsKept(u[1..], tail);
      assert [u[0]] + (u[1..] + RewriteEachField(tail)) == u + RewriteEachField(tail);
    }
  }

  /** Corrected, `self.<a> + self.<a><x>` becomes `__<a>_for_macro + __<a><x>_for_macro`. */
  lemma ExtendedFieldRenamedWhole(a: string, x: string)
    requires IsFieldName(a) && IsFieldName(x)
    ensures RewriteEachField(ExtendedPair(a, x)) == Renamed(a) + " + " + Renamed(a + x)
  {
    var ax := a + x;
    assert IsFieldName(ax);
    var tail := SelfDot + ax;
    assert ExtendedPair(a, x) == SelfDot + a + (" + " + tail);
    RenameOne(a, " + " + tail);
    SeparatorsKept(" + ", tail);
    RenameOne(ax, "");
    assert tail + "" == tail;
  }
}
