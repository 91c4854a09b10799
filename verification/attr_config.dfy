/**
  The `#[params(...)]` attribute list of the log_args macro and the
  configuration it folds into. Expressions and `key = value` pairs are kept as
  opaque token text: the fold only collects them.
 */
module AttrConfig {

  /** A `syn::Expr` argument, kept as its token text. */
  datatype Expr = Expr(text: string)

  /** One `key = value` pair of `custom(...)`. */
  datatype NameValue = NameValue(path: string, value: Expr)

  /** One parsed attribute: `fields(..)`, `custom(..)`, `current(..)`, `clone_upfront`, `span` / `span(..)`, `all`, `auto_capture`. */
  datatype Attribute =
    | Fields(fields: seq<Expr>)
    | Custom(custom: seq<NameValue>)
    | Current(current: seq<Expr>)
    | CloneUpfront
    | Span(spanFields: seq<Expr>)
    | All
    | AutoCapture

  /** `AttrConfig`. */
  datatype Config = Config(
    fields: seq<Expr>,
    custom: seq<NameValue>,
    current: seq<Expr>,
    cloneUpfront: bool,
    span: bool,
    spanFields: seq<Expr>,
    allParams: bool,
    autoCapture: bool)

  /** `AttrConfig::default`: nothing collected, clone-upfront on, every other switch off. */
  const Default: Config := Config([], [], [], true, false, [], false, false)

  /** One iteration of the `for attr in attrs` loop of `from_attributes`. */
  function Apply(c: Config, a: Attribute): Config {
    match a
    case Fields(fs) => c.(fields := c.fields + fs)
    case Custom(cs) => c.(custom := c.custom + cs)
    case Current(cs) => c.(current := c.current + cs)
    case CloneUpfront => c.(cloneUpfront := true)
    case Span(fs) => c.(span := true, cloneUpfront := true, spanFields := c.spanFields + fs)
    case All => c.(allParams := true)
    case AutoCapture => c.(autoCapture := true)
  }

  /** The loop itself: the attributes applied to the default in source order. */
  function Fold(attrs: seq<Attribute>): Config
    decreases |attrs|
  {
    if |attrs| == 0 then Default else Apply(Fold(attrs[..|attrs| - 1]), attrs[|attrs| - 1])
  }

  /** Everything one projection picks out of the attributes, concatenated in order. */
  function Collect<T>(attrs: seq<Attribute>, pick: Attribute -> seq<T>): seq<T>
    decreases |attrs|
  {
    if |attrs| == 0 then [] else pick(attrs[0]) + Collect(attrs[1..], pick)
  }

  function FieldsOf(a: Attribute): seq<Expr> { if a.Fields? then a.fields else [] }
  function CustomOf(a: Attribute): seq<NameValue> { if a.Custom? then a.custom else [] }
  function CurrentOf(a: Attribute): seq<Expr> { if a.Current? then a.current else [] }
  function SpanFieldsOf(a: Attribute): seq<Expr> { if a.Span? then a.spanFields else [] }

  lemma {:induction false} CollectSnoc<T>(attrs: seq<Attribute>, a: Attribute, pick: Attribute -> seq<T>)
    ensures Collect(attrs + [a], pick) == Collect(attrs, pick) + pick(a)
    decreases |attrs|
  {
    if |attrs| == 0 {
      assert attrs + [a] == [a];
      assert [a][1..] == [];
    } else {
      assert (attrs + [a])[1..] == attrs[1..] + [a];
      CollectSnoc(attrs[1..], a, pick);
    }
  }

  /** One step moves each list by what this attribute carries of it. */
  lemma ApplyLists(c: Config, a: Attribute)
    ensures Apply(c, a).fields == c.fields + FieldsOf(a)
    ensures Apply(c, a).custom == c.custom + CustomOf(a)
    ensures Apply(c, a).current == c.current + CurrentOf(a)
    ensures Apply(c, a).spanFields == c.spanFields + SpanFieldsOf(a)
  {
  }

  /** One step only ever switches flags on, each by its own attribute kind. */
  lemma ApplyFlags(c: Config, a: Attribute)
    ensures Apply(c, a).cloneUpfront == (c.cloneUpfront || a.CloneUpfront? || a.Span?)
    ensures Apply(c, a).span == (c.span || a.Span?)
    ensures Apply(c, a).allParams == (c.allParams || a.All?)
    ensures Apply(c, a).autoCapture == (c.autoCapture || a.AutoCapture?)
  {
  }

  lemma {:induction false} FoldLists(attrs: seq<Attribute>)
    ensures Fold(attrs).fields == Collect(attrs, FieldsOf)
    ensures Fold(attrs).custom == Collect(attrs, CustomOf)
    ensures Fold(attrs).current == Collect(attrs, CurrentOf)
    ensures Fold(attrs).spanFields == Collect(attrs, SpanFieldsOf)
    decreases |attrs|
  {
    if |attrs| > 0 {
      var init := attrs[..|attrs| - 1];
      var last := attrs[|attrs| - 1];
      assert init + [last] == attrs;
      FoldLists(init);
      ApplyLists(Fold(init), last);
      CollectSnoc(init, last, FieldsOf);
      CollectSnoc(init, last, CustomOf);
      CollectSnoc(init, last, CurrentOf);
      CollectSnoc(init, last, SpanFieldsOf);
    }
  }

  lemma {:induction false} FoldFlags(attrs: seq<Attribute>)
    ensures Fold(attrs).cloneUpfront
    ensures Fold(attrs).span <==> exists a :: a in attrs && a.Span?
    ensures Fold(attrs).allParams <==> exists a :: a in attrs && a.All?
    ensures Fold(attrs).autoCapture <==> exists a :: a in attrs && a.AutoCapture?
    decreases |attrs|
  {
    if |attrs| > 0 {
      var init := attrs[..|attrs| - 1];
      var last := attrs[|attrs| - 1];
      assert init + [last] == attrs;
      assert forall a :: a in attrs <==> a in init || a == last;
      FoldFlags(init);
      ApplyFlags(Fold(init), last);
    }
  }

  /**
    `AttrConfig::from_attributes`: each list is the concatenation, in source
    order, of the lists its attribute kind carried; clone-upfront always ends
    up on; `span`, `all` and `auto_capture` are on exactly when such an
    attribute is present.
   */
  function FromAttributes(attrs: seq<Attribute>): (c: Config)
    ensures c.fields == Collect(attrs, FieldsOf)
    ensures c.custom == Collect(attrs, CustomOf)
    ensures c.current == Collect(attrs, CurrentOf)
    ensures c.spanFields == Collect(attrs, SpanFieldsOf)
    ensures c.cloneUpfront
    ensures c.span <==> exists a :: a in attrs && a.Span?
    ensures c.allParams <==> exists a :: a in attrs && a.All?
    ensures c.autoCapture <==> exists a :: a in attrs && a.AutoCapture?
  {
    FoldLists(attrs);
    FoldFlags(attrs);
    Fold(attrs)
  }

  /** An empty attribute list yields the default configuration. */
  lemma EmptyIsDefault()
    ensures FromAttributes([]) == Default
    ensures Default.cloneUpfront && !Default.span && !Default.allParams && !Default.autoCapture
  {
  }
}
