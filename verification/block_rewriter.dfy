/**
  `BlockRewriter::visit_macro_mut` of the log_args macro: a macro call whose
  path is `tracing::<level>` loses its first segment, so that the bare
  `<level>!` macro defined by the crate is invoked instead.
 */
module BlockRewriter {

  /** A `syn::Path`: an optional leading `::` and its identifier segments. */
  datatype Path = Path(leadingColon: bool, segments: seq<string>)

  /** The five level macros whose `tracing::` prefix is stripped. */
  const LevelMacros: set<string> := {"info", "warn", "error", "debug", "trace"}

  /** The path names a level macro through `tracing`: the last segment is a level and the first is `tracing`. */
  predicate IsTracingLevelPath(p: Path) {
    |p.segments| > 0 && p.segments[|p.segments| - 1] in LevelMacros && p.segments[0] == "tracing"
  }

  /**
    The path rewrite of `visit_macro_mut`: exactly the `tracing::<level>`
    paths change, and they lose only their first segment; the macro name and
    the leading `::` are kept.
   */
  function VisitMacroPath(p: Path): (r: Path)
    ensures r.leadingColon == p.leadingColon
    ensures r != p <==> IsTracingLevelPath(p)
    ensures IsTracingLevelPath(p) ==> r.segments == p.segments[1..] && |r.segments| > 0
    ensures |p.segments| > 0 ==> |r.segments| > 0 && r.segments[|r.segments| - 1] == p.segments[|p.segments| - 1]
  {
    if IsTracingLevelPath(p) then p.(segments := p.segments[1..]) else p
  }

  /**
    Only one segment goes per visit: `tracing::tracing::info` becomes
    `tracing::info`. And `::tracing::warn` keeps its `::`, so it becomes the
    crate path `::warn`, where the intended rewrite gives the bare `warn`.
   */
  lemma StripsOnlyOnce()
    ensures VisitMacroPath(Path(false, ["tracing", "tracing", "info"])) == Path(false, ["tracing", "info"])
    ensures VisitMacroPath(Path(true, ["tracing", "warn"])) == Path(true, ["warn"])
    ensures VisitMacroPathIntended(Path(true, ["tracing", "warn"])) == Path(false, ["warn"])
    ensures VisitMacroPath(Path(false, ["log", "info"])) == Path(false, ["log", "info"])
    ensures VisitMacroPath(Path(false, ["tracing", "span"])) == Path(false, ["tracing", "span"])
  {
    assert "info" in LevelMacros;
    assert "warn" in LevelMacros;
    assert "span" !in LevelMacros;
  }

  /**
    The rewrite as its own comment intends it: `tracing::<level>` becomes the
    bare `<level>`, so a leading `::` goes together with `tracing`. Under Rust
    2018 a path that starts with `::` names an extern crate, so `::warn` does
    not reach the `warn!` macro defined in scope. Every other path is left
    alone, leading `::` and all.
   */
  function VisitMacroPathIntended(p: Path): (r: Path)
    ensures r != p <==> IsTracingLevelPath(p)
    ensures IsTracingLevelPath(p) ==> !r.leadingColon && r.segments == p.segments[1..]
    ensures IsTracingLevelPath(p) && |p.segments| == 2 ==> r == Path(false, [p.segments[1]]) && r.segments[0] in LevelMacros
    ensures r == VisitMacroPath(p).(leadingColon := p.leadingColon && !IsTracingLevelPath(p))
  {
    if IsTracingLevelPath(p) then Path(false, p.segments[1..]) else p
  }
}
