/** Helpers of the code generator (ark/schema/io/compile.ts): the compilation
    context, the failure result of a check, the check itself with its
    elision by discriminants already checked, serialised values and
    property access. */
module IoCompile {
  import opened Wrappers
  import opened JsValue
  import opened JsText

  /** The name of the data argument in emitted code. */
  const In: string := "$arkRoot"

  datatype SuccessKind = SuccessTrue | SuccessIn | SuccessOut
  datatype FailureKind = FailureFalse | FailureProblems

  /** A path segment: a literal key, or the name of an index variable that
      holds the key at run time (`i`, `k`, `i1`, ...). */
  datatype PathSegment = KeySegment(key: string) | IndexVariable(name: string)

  /** A discriminant already checked by the caller: the path it checked and
      whether it checked a domain or an exact value (discriminate.js is not
      part of this model; only these two kinds are consulted here). */
  datatype DiscriminantKind = DomainDiscriminant | ValueDiscriminant
  datatype Discriminant = Discriminant(path: seq<string>, kind: DiscriminantKind)

  datatype CompilationContext = CompilationContext(
    successKind: SuccessKind,
    failureKind: FailureKind,
    path: seq<PathSegment>,
    discriminants: seq<Discriminant>,
    bases: seq<Domain>)

  /** `createCompilationContext`: the given kinds, with an empty path, no
      discriminants and no bases. */
  function CreateCompilationContext(successKind: SuccessKind, failureKind: FailureKind): (ctx: CompilationContext)
    ensures ctx.successKind == successKind && ctx.failureKind == failureKind
    ensures ctx.path == [] && ctx.discriminants == [] && ctx.bases == []
  {
    CompilationContext(successKind, failureKind, [], [], [])
  }

  // ---------------------------------------------------------- serialised values

  /** `compileSerializedValue`: objects, functions and symbols are registered
      and referred to by the reference `register` returns; every other value
      is written by `serializePrimitive` (neither is part of this model). */
  function CompileSerializedValue(v: Value, register: Value -> string, serializePrimitive: Value -> string): (s: string)
    ensures v.Obj? || v.Fn? || v.Sym? ==> s == register(v)
    ensures !(v.Obj? || v.Fn? || v.Sym?) ==> s == serializePrimitive(v)
  {
    if DomainOf(v) == DObject || v.Sym? then register(v) else serializePrimitive(v)
  }

  // ---------------------------------------------------------- problems

  /** How a path segment is written in the emitted path list: a key as a
      JSON string, an index variable bare. */
  function SegmentCode(segment: PathSegment): string
  {
    match segment
    case KeySegment(k) => JsonQuote(k)
    case IndexVariable(name) => name
  }

  function PathListCode(path: seq<PathSegment>): (codes: seq<string>)
    ensures |codes| == |path|
    ensures forall i :: 0 <= i < |path| ==> codes[i] == SegmentCode(path[i])
  {
    seq(|path|, i requires 0 <= i < |path| => SegmentCode(path[i]))
  }

  /** Every key segment can be read back from the emitted path list, and an
      index variable with an identifier name is never mistaken for a key. */
  lemma PathListCodeDecodes(path: seq<PathSegment>, i: int)
    requires 0 <= i < |path|
    ensures path[i].KeySegment? ==> Unquote(PathListCode(path)[i]) == Some(path[i].key)
    ensures path[i].IndexVariable? && IsDotAccessible(path[i].name) ==> PathListCode(path)[i][0] != '"'
  {
    if path[i].KeySegment? {
      JsonQuoteRoundTrip(path[i].key);
    }
  }

  /** `compileAddProblem`: a call adding a problem with the code, the
      serialised rule, the data argument and the current path. */
  function CompileAddProblem(code: string, serializedRule: string, ctx: CompilationContext): (s: string)
    ensures s == "state.addProblem(\"" + code + "\", " + serializedRule + ", " + In + ", ["
                 + Join(PathListCode(ctx.path), ",") + "])"
  {
    "state.addProblem(\"" + code + "\", " + serializedRule + ", " + In + ", ["
    + Join(PathListCode(ctx.path), ",") + "])"
  }

  /** `compileFailureResult`: `return false` when failures are booleans,
      else a problem is added. */
  function CompileFailureResult(code: string, serializedRule: string, ctx: CompilationContext): (s: string)
    ensures ctx.failureKind == FailureFalse ==> s == "return false"
    ensures ctx.failureKind == FailureProblems ==> s == CompileAddProblem(code, serializedRule, ctx)
  {
    if ctx.failureKind == FailureFalse then "return false" else CompileAddProblem(code, serializedRule, ctx)
  }

  // ---------------------------------------------------------- compileCheck

  /** How a path segment is written by `path.join()`: a key as itself, an
      index variable by its name. */
  function SegmentText(segment: PathSegment): string
  {
    match segment
    case KeySegment(k) => k
    case IndexVariable(name) => name
  }

  function PathTexts(path: seq<PathSegment>): (texts: seq<string>)
    ensures |texts| == |path|
    ensures forall i :: 0 <= i < |path| ==> texts[i] == SegmentText(path[i])
  {
    seq(|path|, i requires 0 <= i < |path| => SegmentText(path[i]))
  }

  /** The emitted check: run the failure result unless the condition holds. */
  function GuardedFailure(condition: string, failure: string): string
  {
    "if (!(" + condition + ")) {\n        " + failure + "\n}"
  }

  /** Whether a discriminant at the exact path already settles the check:
      a domain check is settled by a domain or value discriminant, a value
      check only by a value discriminant. */
  predicate SettledBy(code: string, d: Discriminant)
  {
    if code == "domain" then d.kind == DomainDiscriminant || d.kind == ValueDiscriminant
    else d.kind == ValueDiscriminant
  }

  /** `compileCheck` as written: the current path and the discriminants'
      paths are compared as comma-joined strings, and the object-domain
      check is dropped when some discriminant's joined path merely starts
      with the joined current path. */
  function CompileCheckAsWritten(code: string, rule: Value, serializedRule: string, condition: string,
                                 ctx: CompilationContext): (s: string)
    ensures s == "" || s == GuardedFailure(condition, CompileFailureResult(code, serializedRule, ctx))
  {
    var pathString := Join(PathTexts(ctx.path), ",");
    if code == "domain" && rule == Str("object")
       && exists d :: d in ctx.discriminants && pathString <= Join(d.path, ",")
    then ""
    else if (code == "domain" || code == "value")
            && exists d :: d in ctx.discriminants && Join(d.path, ",") == pathString && SettledBy(code, d)
    then ""
    else GuardedFailure(condition, CompileFailureResult(code, serializedRule, ctx))
  }

  /** The current path, segment by segment, is a prefix of `path`. */
  predicate PathPrefix(current: seq<string>, path: seq<string>)
  {
    |current| <= |path| && path[..|current|] == current
  }

  /** `compileCheck` as its comment intends: the object-domain check is
      dropped only when a discriminant checked a path that extends the
      current one segment by segment, and a domain or value check only when
      a discriminant checked exactly the current path. */
  function CompileCheck(code: string, rule: Value, serializedRule: string, condition: string,
                        ctx: CompilationContext): (s: string)
    ensures s == "" <==>
      (code == "domain" && rule == Str("object")
       && exists d :: d in ctx.discriminants && PathPrefix(PathTexts(ctx.path), d.path))
      || ((code == "domain" || code == "value")
          && exists d :: d in ctx.discriminants && d.path == PathTexts(ctx.path) && SettledBy(code, d))
    ensures s != "" ==> s == GuardedFailure(condition, CompileFailureResult(code, serializedRule, ctx))
  {
    var current := PathTexts(ctx.path);
    if code == "domain" && rule == Str("object")
       && exists d :: d in ctx.discriminants && PathPrefix(current, d.path)
    then ""
    else if (code == "domain" || code == "value")
            && exists d :: d in ctx.discriminants && d.path == current && SettledBy(code, d)
    then ""
    else GuardedFailure(condition, CompileFailureResult(code, serializedRule, ctx))
  }

  /** Joining a prefix of a list gives a prefix of the joined list. */
  lemma {:induction false} JoinPrefix(current: seq<string>, path: seq<string>, sep: string)
    requires PathPrefix(current, path)
    ensures Join(current, sep) <= Join(path, sep)
    decreases |current|
  {
    if |current| == 1 {
      assert current[0] == path[0];
    } else if |current| > 1 {
      assert current[1..] == path[1..][..|current| - 1];
      JoinPrefix(current[1..], path[1..], sep);
      assert Join(current, sep) == current[0] + sep + Join(current[1..], sep);
      assert Join(path, sep) == path[0] + sep + Join(path[1..], sep);
    }
  }

  /** The correction only keeps checks: whatever the corrected
      `compileCheck` drops, the one as written drops too. */
  lemma CorrectedCheckDropsLess(code: string, rule: Value, serializedRule: string, condition: string,
                                ctx: CompilationContext)
    requires CompileCheck(code, rule, serializedRule, condition, ctx) == ""
    ensures CompileCheckAsWritten(code, rule, serializedRule, condition, ctx) == ""
  {
    var current := PathTexts(ctx.path);
    if code == "domain" && rule == Str("object")
       && exists d :: d in ctx.discriminants && PathPrefix(current, d.path) {
      var d :| d in ctx.discriminants && PathPrefix(current, d.path);
      JoinPrefix(current, d.path, ",");
    }
  }

  /** The discrepancy: inside the property "a", a discriminant at the
      sibling property "ab" makes the check as written drop the test that
      `data.a` is an object, while the corrected check keeps it. */
  lemma SiblingPathDropsObjectCheck(condition: string)
    ensures CompileCheckAsWritten("domain", Str("object"), "\"object\"", condition,
              CompilationContext(SuccessTrue, FailureFalse, [KeySegment("a")],
                                 [Discriminant(["ab"], DomainDiscriminant)], [])) == ""
    ensures CompileCheck("domain", Str("object"), "\"object\"", condition,
              CompilationContext(SuccessTrue, FailureFalse, [KeySegment("a")],
                                 [Discriminant(["ab"], DomainDiscriminant)], []))
         == GuardedFailure(condition, "return false")
  {
    var ctx := CompilationContext(SuccessTrue, FailureFalse, [KeySegment("a")],
                                  [Discriminant(["ab"], DomainDiscriminant)], []);
    assert PathTexts(ctx.path) == ["a"];
    assert Join(["a"], ",") == "a";
    assert Join(["ab"], ",") == "ab";
    assert "a" <= "ab";
    assert !PathPrefix(["a"], ["ab"]);
  }

  /** The second discrepancy: joined with ",", the path ["a", "b"] and the
      one-segment path ["a,b"] coincide, so as written a value discriminant
      at ["a,b"] settles the value check at ["a", "b"]; the corrected check,
      comparing segments, keeps it. */
  lemma JoinedPathsCoincideAsWritten(rule: Value, serializedRule: string, condition: string)
    ensures CompileCheckAsWritten("value", rule, serializedRule, condition,
              CompilationContext(SuccessTrue, FailureFalse, [KeySegment("a"), KeySegment("b")],
                                 [Discriminant(["a,b"], ValueDiscriminant)], [])) == ""
    ensures CompileCheck("value", rule, serializedRule, condition,
              CompilationContext(SuccessTrue, FailureFalse, [KeySegment("a"), KeySegment("b")],
                                 [Discriminant(["a,b"], ValueDiscriminant)], []))
         == GuardedFailure(condition, "return false")
  {
    var ctx := CompilationContext(SuccessTrue, FailureFalse, [KeySegment("a"), KeySegment("b")],
                                  [Discriminant(["a,b"], ValueDiscriminant)], []);
    assert PathTexts(ctx.path) == ["a", "b"];
    assert Join(["b"], ",") == "b";
    assert Join(["a", "b"], ",") == "a,b";
    assert Join(["a,b"], ",") == "a,b";
    assert ["a,b"] != ["a", "b"];
  }

  // ---------------------------------------------------------- property access

  /** `compilePropAccess`: `.name` for a dot-accessible name, else a
      bracketed JSON string; optional access adds `?` before the dot and
      `?.` before the bracket. */
  function CompilePropAccess(name: string, optional: bool): (s: string)
    ensures IsDotAccessible(name) ==> s == (if optional then "?" else "") + "." + name
    ensures !IsDotAccessible(name) ==> s == (if optional then "?." else "") + "[" + JsonQuote(name) + "]"
  {
    if IsDotAccessible(name) then (if optional then "?" else "") + "." + name
    else (if optional then "?." else "") + "[" + JsonQuote(name) + "]"
  }

  /** Different names never produce the same access. */
  lemma PropAccessInjective(a: string, b: string, optional: bool)
    requires CompilePropAccess(a, optional) == CompilePropAccess(b, optional)
    ensures a == b
  {
    var sa, sb := CompilePropAccess(a, optional), CompilePropAccess(b, optional);
    var dotA, dotB := IsDotAccessible(a), IsDotAccessible(b);
    if dotA && dotB {
      var p := if optional then 1 else 0;
      assert a == sa[p + 1..] == sb[p + 1..] == b;
    } else if !dotA && !dotB {
      var pre := if optional then "?." else "";
      var qa, qb := JsonQuote(a), JsonQuote(b);
      assert sa == (pre + "[") + qa + "]";
      assert sb == (pre + "[") + qb + "]";
      assert qa == sa[|pre| + 1..|sa| - 1];
      assert qb == sb[|pre| + 1..|sb| - 1];
      JsonQuoteInjective(a, b);
    } else if dotA {
      DotAndBracketAccessDiffer(a, b, optional);
    } else {
      DotAndBracketAccessDiffer(b, a, optional);
    }
  }

  lemma DotAndBracketAccessDiffer(a: string, b: string, optional: bool)
    requires IsDotAccessible(a) && !IsDotAccessible(b)
    ensures CompilePropAccess(a, optional) != CompilePropAccess(b, optional)
  {
    var sa, sb := CompilePropAccess(a, optional), CompilePropAccess(b, optional);
    if optional {
      assert sa[2] == a[0] && sb[2] == '[';
    } else {
      assert sa[0] == '.' && sb[0] == '[';
    }
  }
}
