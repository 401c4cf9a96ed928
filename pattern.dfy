/** The pattern refinement: strings matched by a regular expression. Distinct
    patterns never merge; folding a pattern into an intersection appends it
    to the accumulated list unless it is already there. */
module Pattern {
  import opened Wrappers
  import opened Sorting

  datatype PatternInner = PatternInner(source: string, flags: Option<string>)

  /** A pattern schema: a source string, a RegExp (its source and its flags,
      possibly empty), or the normalised object form. */
  datatype PatternSchema =
    | SourceString(s: string)
    | RegExpSchema(regexSource: string, regexFlags: string)
    | PatternObject(inner: PatternInner)

  /** `normalize`: a string s becomes `{source: s}`; a RegExp keeps its
      source and carries its flags only when they are non-empty; an object
      passes through. */
  function Normalize(schema: PatternSchema): (inner: PatternInner)
    ensures schema.SourceString? ==> inner == PatternInner(schema.s, None)
    ensures schema.RegExpSchema? ==> inner.source == schema.regexSource
    ensures schema.RegExpSchema? ==> (inner.flags.Some? <==> schema.regexFlags != "")
    ensures schema.RegExpSchema? && inner.flags.Some? ==> inner.flags.value == schema.regexFlags
    ensures schema.PatternObject? ==> inner == schema.inner
  {
    match schema
    case SourceString(s) => PatternInner(s, None)
    case RegExpSchema(source, flags) =>
      if flags != "" then PatternInner(source, Some(flags)) else PatternInner(source, None)
    case PatternObject(inner) => inner
  }

  /** A RegExp and the pattern built from it print the same literal. */
  lemma NormalizeKeepsRegExpLiteral(source: string, flags: string, dataArg: string)
    ensures CompiledCondition(Normalize(RegExpSchema(source, flags)), dataArg)
         == "/" + source + "/" + flags + ".test(" + dataArg + ")"
  {
  }

  /** The description: "matched by " followed by the source. */
  function Description(inner: PatternInner): (s: string)
    ensures |s| == 11 + |inner.source|
    ensures s[..11] == "matched by " && s[11..] == inner.source
  {
    "matched by " + inner.source
  }

  /** `compiledCondition`: the regex literal `/source/flags` applied to the data. */
  function CompiledCondition(inner: PatternInner, dataArg: string): string
  {
    var flags := match inner.flags case Some(f) => f case None => "";
    "/" + inner.source + "/" + flags + ".test(" + dataArg + ")"
  }

  /** `compiledNegation`: "!" followed by the compiled condition. */
  function CompiledNegation(inner: PatternInner, dataArg: string): (s: string)
    ensures |s| >= 1 && s[0] == '!' && s[1..] == CompiledCondition(inner, dataArg)
  {
    "!" + CompiledCondition(inner, dataArg)
  }

  /** `intersectOwnInner`: two patterns never merge into one. */
  function IntersectOwnInner(l: PatternInner, r: PatternInner): (merged: Option<PatternInner>)
    ensures merged.None?
  {
    None
  }

  // ------------------------------------------------------- foldIntersection

  /** `appendUnique` (not part of this model): the list with the pattern at
      its end unless it already holds it. An absent list is the empty one. */
  function AppendUnique(patterns: seq<PatternInner>, p: PatternInner): (r: seq<PatternInner>)
    ensures p in r
    ensures p in patterns ==> r == patterns
    ensures p !in patterns ==> r == patterns + [p]
  {
    if p in patterns then patterns else patterns + [p]
  }

  /** Appending keeps a list free of repeats, and appending twice is
      appending once. */
  lemma AppendUniqueKeepsDistinct(patterns: seq<PatternInner>, p: PatternInner)
    requires Distinct(patterns)
    ensures Distinct(AppendUnique(patterns, p))
    ensures AppendUnique(AppendUnique(patterns, p), p) == AppendUnique(patterns, p)
    ensures forall q :: q in AppendUnique(patterns, p) <==> q in patterns || q == p
  {
  }

  /** The slot of the accumulator that the pattern fold touches. */
  class PatternFoldInput {
    var pattern: seq<PatternInner>

    constructor (pattern: seq<PatternInner>)
      ensures this.pattern == pattern
    {
      this.pattern := pattern;
    }
  }

  /** `foldIntersection`: `into.pattern = appendUnique(into.pattern, this)`. */
  method FoldIntersection(node: PatternInner, into: PatternFoldInput) returns (r: PatternFoldInput)
    modifies into`pattern
    ensures r == into
    ensures into.pattern == AppendUnique(old(into.pattern), node)
  {
    into.pattern := AppendUnique(into.pattern, node);
    r := into;
  }

  /** Folding two distinct patterns into an empty accumulator keeps both, in
      fold order: neither absorbs the other. */
  method FoldTwoDistinct(a: PatternInner, b: PatternInner) returns (patterns: seq<PatternInner>)
    requires a != b
    ensures patterns == [a, b]
  {
    var into := new PatternFoldInput([]);
    var _ := FoldIntersection(a, into);
    var _ := FoldIntersection(b, into);
    patterns := into.pattern;
  }
}
