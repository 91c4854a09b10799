/**
  The function-name formatters of the log_args macro crate: four case
  converters for snake_case function names and the feature-precedence
  selector. Cargo features are passed in as a `Features` record.
 */
module FunctionNames {
  import opened Base

  /** `char::to_ascii_uppercase`: `a`..`z` map to `A`..`Z`, every other character is kept. */
  function AsciiUpper(c: char): char {
    if 'a' <= c <= 'z' then (c as int - 32) as char else c
  }

  predicate IsAsciiLower(c: char) {
    'a' <= c <= 'z'
  }

  /**
    The loop shared by `to_camel_case` and `to_pascal_case`: `_` is dropped and
    sets the flag, any other character is pushed, uppercased when the flag is
    set, and clears the flag. `capitalize` is the flag's initial value.
   */
  function Capitalize(s: string, capitalize: bool): string
    decreases |s|
  {
    if |s| == 0 then ""
    else if s[0] == '_' then Capitalize(s[1..], true)
    else [if capitalize then AsciiUpper(s[0]) else s[0]] + Capitalize(s[1..], false)
  }

  /** Where character `i` of `s` lands once the underscores before it are dropped. */
  function KeptBefore(s: string, i: nat): nat
    requires i <= |s|
  {
    i - CountChar(s[..i], '_')
  }

  /** Character `i` is uppercased: it follows `_`, or it is the first and the flag starts set. */
  predicate FollowsUnderscore(s: string, i: nat, capitalize: bool)
    requires i < |s|
  {
    if i == 0 then capitalize else s[i - 1] == '_'
  }

  lemma {:induction false} CapitalizeSpec(s: string, capitalize: bool)
    ensures |Capitalize(s, capitalize)| == |s| - CountChar(s, '_')
    ensures '_' !in Capitalize(s, capitalize)
    ensures forall i :: 0 <= i < |s| && s[i] != '_' ==>
              KeptBefore(s, i) < |Capitalize(s, capitalize)|
              && Capitalize(s, capitalize)[KeptBefore(s, i)]
                 == (if FollowsUnderscore(s, i, capitalize) then AsciiUpper(s[i]) else s[i])
    decreases |s|
  {
    if |s| > 0 {
      var t := s[1..];
      var flag := s[0] == '_';
      CapitalizeSpec(t, flag);
      var r := Capitalize(s, capitalize);
      var rt := Capitalize(t, flag);
      forall i | 0 <= i < |s| && s[i] != '_'
        ensures KeptBefore(s, i) < |r| && r[KeptBefore(s, i)] == (if FollowsUnderscore(s, i, capitalize) then AsciiUpper(s[i]) else s[i])
      {
        if i > 0 {
          KeptBeforeShift(s, capitalize, i);
        } else {
          assert s[..0] == [];
        }
      }
    }
  }

  /** Past the first character, positions and flags are those of the rest of the name. */
  lemma KeptBeforeShift(s: string, capitalize: bool, i: nat)
    requires 0 < i < |s| && s[i] != '_'
    ensures KeptBefore(s, i) == (if s[0] == '_' then 0 else 1) + KeptBefore(s[1..], i - 1)
    ensures s[1..][i - 1] == s[i]
    ensures FollowsUnderscore(s, i, capitalize) == FollowsUnderscore(s[1..], i - 1, s[0] == '_')
  {
    var t := s[1..];
    assert s[..i] == [s[0]] + t[..i - 1];
    assert s[..i][1..] == t[..i - 1];
  }

  /**
    `to_camel_case`: every `_` is removed, the character right after a run of
    `_` is ASCII-uppercased, every other character is kept in order; a name
    without `_` comes back unchanged.
   */
  function ToCamelCase(s: string): (r: string)
    ensures |r| == |s| - CountChar(s, '_')
    ensures '_' !in r
    ensures forall i :: 0 <= i < |s| && s[i] != '_' ==>
              KeptBefore(s, i) < |r|
              && r[KeptBefore(s, i)] == (if i > 0 && s[i - 1] == '_' then AsciiUpper(s[i]) else s[i])
    ensures '_' !in s ==> r == s
  {
    CapitalizeSpec(s, false);
    var r := Capitalize(s, false);
    if '_' !in s then
      CountCharAbsent(s, '_');
      CountCharPrefixesAbsent(s, '_');
      assert forall i :: 0 <= i < |s| ==> KeptBefore(s, i) == i;
      r
    else r
  }

  lemma CountCharPrefixesAbsent(s: string, c: char)
    requires c !in s
    ensures forall i :: 0 <= i <= |s| ==> CountChar(s[..i], c) == 0
  {
    forall i | 0 <= i <= |s|
      ensures CountChar(s[..i], c) == 0
    {
      CountCharAbsent(s[..i], c);
    }
  }

  /** `to_pascal_case`: the camel-case form with its first character ASCII-uppercased. */
  function ToPascalCase(s: string): (r: string)
    ensures r == if ToCamelCase(s) == "" then "" else [AsciiUpper(ToCamelCase(s)[0])] + ToCamelCase(s)[1..]
  {
    PascalIsCapitalizedCamel(s);
    Capitalize(s, true)
  }

  lemma {:induction false} PascalIsCapitalizedCamel(s: string)
    ensures Capitalize(s, true) ==
              if Capitalize(s, false) == "" then "" else [AsciiUpper(Capitalize(s, false)[0])] + Capitalize(s, false)[1..]
    decreases |s|
  {
    if |s| > 0 && s[0] == '_' {
      LeadingCapitalized(s[1..]);
    }
  }

  /** A run started with the flag set begins with an uppercased character, so uppercasing it again changes nothing. */
  lemma {:induction false} LeadingCapitalized(s: string)
    ensures Capitalize(s, true) != "" ==> AsciiUpper(Capitalize(s, true)[0]) == Capitalize(s, true)[0]
    decreases |s|
  {
    if |s| > 0 && s[0] == '_' {
      LeadingCapitalized(s[1..]);
    }
  }

  /**
    `to_screaming_snake_case` (`str::to_ascii_uppercase`): same length, no
    ASCII lowercase letter left, each such letter shifted to its uppercase
    code point and every other character kept.
   */
  function ToScreamingSnakeCase(s: string): (r: string)
    ensures |r| == |s|
    ensures forall i :: 0 <= i < |r| ==> !IsAsciiLower(r[i])
    ensures forall i :: 0 <= i < |s| && !IsAsciiLower(s[i]) ==> r[i] == s[i]
    ensures forall i :: 0 <= i < |s| && IsAsciiLower(s[i]) ==> r[i] as int == s[i] as int - 32
  {
    seq(|s|, i requires 0 <= i < |s| => AsciiUpper(s[i]))
  }

  lemma ScreamingIsIdempotent(s: string)
    ensures ToScreamingSnakeCase(ToScreamingSnakeCase(s)) == ToScreamingSnakeCase(s)
  {
  }

  /** `to_kebab_case` (`replace('_', "-")`): same length, each `_` becomes `-`, everything else is kept. */
  function ToKebabCase(s: string): (r: string)
    ensures |r| == |s|
    ensures '_' !in r
    ensures forall i :: 0 <= i < |s| ==> r[i] == if s[i] == '_' then '-' else s[i]
  {
    seq(|s|, i requires 0 <= i < |s| => if s[i] == '_' then '-' else s[i])
  }

  /** Camel case is a normal form: converting its result again changes nothing. */
  lemma CamelIsIdempotent(s: string)
    ensures ToCamelCase(ToCamelCase(s)) == ToCamelCase(s)
  {
  }

  /** Kebab case loses nothing on a name without `-`: mapping every `-` back to `_` recovers the name. */
  lemma KebabRoundTrip(s: string)
    requires '-' !in s
    ensures var r := ToKebabCase(s);
            seq(|r|, i requires 0 <= i < |r| => if r[i] == '-' then '_' else r[i]) == s
  {
  }

  /** The `function-names-*` Cargo features. */
  datatype Features = Features(
    camel: bool,
    pascal: bool,
    functionNames: bool,
    screaming: bool,
    kebab: bool,
    snake: bool)

  /**
    `get_formatted_function_name`: the first enabled block returns, so camel
    wins over pascal (`function-names-pascal` or `function-names`), pascal over
    screaming, screaming over kebab; snake and no feature keep the name.
   */
  function GetFormattedFunctionName(f: Features, name: string): (r: string)
    ensures f.camel ==> r == ToCamelCase(name)
    ensures !f.camel && (f.pascal || f.functionNames) ==> r == ToPascalCase(name)
    ensures !f.camel && !f.pascal && !f.functionNames && f.screaming ==> r == ToScreamingSnakeCase(name)
    ensures !f.camel && !f.pascal && !f.functionNames && !f.screaming && f.kebab ==> r == ToKebabCase(name)
    ensures !f.camel && !f.pascal && !f.functionNames && !f.screaming && !f.kebab ==> r == name
  {
    if f.camel then ToCamelCase(name)
    else if f.pascal || f.functionNames then ToPascalCase(name)
    else if f.screaming then ToScreamingSnakeCase(name)
    else if f.kebab then ToKebabCase(name)
    else name
  }
}
