/** The code generator of the src/nodes snapshot (src/nodes/compile.ts): a
    `Compilation` carries the current data path and the stacks of traversal
    configuration, and emits JavaScript checks as text. Path rendering
    (`toPropChain`, `json`) and `compilePredicate` belong to files that are
    not part of this model; they are parameters. */
module NodesCompile {
  import opened Wrappers
  import opened JsValue
  import opened JsText
  import opened JsExpr

  // ------------------------------------------------------------ domain conditions

  /** The condition `compileDomainCondition` emits, as an expression tree. */
  function DomainConditionExpr(domain: Domain): Expr
  {
    if domain == DObject then Or(And(TypeofIs("object"), IsNotLiteral(NullLiteral)), TypeofIs("function"))
    else if domain == DNull then IsLiteral(NullLiteral)
    else if domain == DUndefined then IsLiteral(UndefinedLiteral)
    else TypeofIs(DomainName(domain))
  }

  /** `compileDomainCondition(domain, data)`: for "object", `typeof` "object"
      but not null, or "function"; for null and undefined, `===`; for the
      rest, `typeof` against the domain's name. */
  function CompileDomainCondition(domain: Domain, data: string): string
  {
    if domain == DObject then
      "(" + ("typeof " + data + " === \"object\"") + " && " + (data + " !== null") + ")"
      + " || " + ("typeof " + data + " === \"function\"")
    else if domain == DNull || domain == DUndefined then data + " === " + DomainName(domain)
    else "typeof " + data + " === \"" + DomainName(domain) + "\""
  }

  /** The emitted condition is the printed form of the expression tree. */
  lemma CompileDomainConditionPrints(domain: Domain, data: string)
    ensures CompileDomainCondition(domain, data) == PrintBare(DomainConditionExpr(domain), data)
  {
    match domain
    case DNull => assert LiteralText(NullLiteral) == DomainName(DNull);
    case DUndefined => assert LiteralText(UndefinedLiteral) == DomainName(DUndefined);
    case DObject =>
      TypeofText(data, "object", " === \"object\"");
      TypeofText(data, "function", " === \"function\"");
      Reassociate(data, " !== ", "null", " !== null");
      assert Print(TypeofIs("object"), data) == "typeof " + data + " === \"object\"";
      assert Print(IsNotLiteral(NullLiteral), data) == data + " !== null";
      assert Print(TypeofIs("function"), data) == "typeof " + data + " === \"function\"";
    case _ =>
  }

  lemma TypeofText(data: string, t: string, test: string)
    requires test == " === \"" + t + "\""
    ensures Print(TypeofIs(t), data) == "typeof " + data + test
  {
  }

  lemma Reassociate(a: string, b: string, c: string, bc: string)
    requires bc == b + c
    ensures a + b + c == a + bc
  {
  }

  /** The emitted condition holds of exactly the values of the domain. */
  lemma DomainConditionMeaning(domain: Domain, v: Value)
    ensures Eval(DomainConditionExpr(domain), v) <==> DomainOf(v) == domain
  {
    if domain !in {DObject, DNull, DUndefined} {
      if DomainOf(v) !in {DObject, DNull} {
        TypeofAgreesWithDomain(v);
        if Typeof(v) == DomainName(domain) {
          DomainNameInjective(DomainOf(v), domain);
        }
      } else {
        assert Typeof(v) in {"object", "function"};
        var named := DomainNamed(Typeof(v));
        assert DomainName(domain) != Typeof(v);
      }
    } else if domain == DObject {
      assert Eval(DomainConditionExpr(domain), v)
        == ((Eval(TypeofIs("object"), v) && Eval(IsNotLiteral(NullLiteral), v)) || Eval(TypeofIs("function"), v));
      if !(v.Obj? || v.Fn? || v.Null?) {
        assert Typeof(v)[0] != 'o' && "object"[0] == 'o';
      }
    }
  }

  // ------------------------------------------------------------ implied domains

  /** The rules of a branch, as far as `hasImpliedDomain` reads them: whether
      the key "value" is present, and the `instance` constructor, if any. */
  datatype Rules<K> = Rules(hasValueKey: bool, instance: Option<K>)

  /** A branch: plain rules, or a transformation branch holding its rules. */
  datatype Branch<K> = RulesBranch(rules: Rules<K>) | TransformationBranch(inner: Rules<K>)

  /** A predicate: `true`, one branch, or a list of branches. */
  datatype Predicate<K> = TruePredicate | OneBranch(branch: Branch<K>) | BranchList(branches: seq<Branch<K>>)

  /** `listFrom(predicate)`. */
  function ListFrom<K>(p: Predicate<K>): seq<Branch<K>>
  {
    match p
    case TruePredicate => []
    case OneBranch(b) => [b]
    case BranchList(bs) => bs
  }

  /** The rules a branch is judged by. */
  function BranchRules<K>(b: Branch<K>): Rules<K>
  {
    match b
    case RulesBranch(r) => r
    case TransformationBranch(r) => r
  }

  /** A branch fixes its domain by a value or an instance constructor. */
  predicate ImpliesDomain<K>(b: Branch<K>)
  {
    BranchRules(b).hasValueKey || BranchRules(b).instance.Some?
  }

  /** `hasImpliedDomain`: the predicate is not `true` and every branch fixes
      its domain. */
  function HasImpliedDomain<K>(p: Predicate<K>): (b: bool)
    ensures b <==> !p.TruePredicate? && forall i :: 0 <= i < |ListFrom(p)| ==> ImpliesDomain(ListFrom(p)[i])
  {
    !p.TruePredicate? && AllImply(ListFrom(p))
  }

  /** `every` over the branches, first to last. */
  function AllImply<K>(bs: seq<Branch<K>>): (b: bool)
    ensures b <==> forall i :: 0 <= i < |bs| ==> ImpliesDomain(bs[i])
  {
    if |bs| == 0 then true else ImpliesDomain(bs[0]) && AllImply(bs[1..])
  }

  /** A single branch list implies its domain exactly when each of its parts
      does. */
  lemma {:induction false} HasImpliedDomainSplits<K>(a: seq<Branch<K>>, b: seq<Branch<K>>)
    ensures HasImpliedDomain(BranchList(a + b)) == (HasImpliedDomain(BranchList(a)) && HasImpliedDomain(BranchList(b)))
  {
    if |a| > 0 {
      assert (a + b)[1..] == a[1..] + b;
      HasImpliedDomainSplits(a[1..], b);
    } else {
      assert a + b == b;
    }
  }

  // ------------------------------------------------------------ the compilation state

  /** The keys of `TypeConfig`. */
  datatype ConfigKey = MustBe | Keys

  /** `TraversalConfig`: a stack of values per configuration key, innermost
      first. */
  datatype TraversalConfig = TraversalConfig(mustBe: seq<string>, keys: seq<string>)
  {
    function Get(k: ConfigKey): seq<string>
    {
      match k
      case MustBe => mustBe
      case Keys => keys
    }

    function Set(k: ConfigKey, values: seq<string>): (c: TraversalConfig)
      ensures c.Get(k) == values
      ensures forall k' :: k' != k ==> c.Get(k') == Get(k')
    {
      match k
      case MustBe => this.(mustBe := values)
      case Keys => this.(keys := values)
    }
  }

  /** What a rule is written as in a problem call: a function by its name, any
      other rule as its JSON text. */
  datatype ProblemRule = FunctionRule(name: string) | JsonRule(json: Json)

  function RuleText(rule: ProblemRule): string
  {
    match rule
    case FunctionRule(name) => name
    case JsonRule(j) => Stringify(j)
  }

  /** A config node: configuration entries over a domains node. */
  datatype ConfigNode<K> = ConfigNode(config: seq<(ConfigKey, string)>, node: seq<(Domain, Predicate<K>)>)

  /** The entries of a `TypeConfig` object: each key at most once. */
  predicate DistinctKeys(es: seq<(ConfigKey, string)>)
  {
    forall i, j :: 0 <= i < j < |es| ==> es[i].0 != es[j].0
  }

  /** The configuration after `unshift`ing each entry's value onto its key's
      stack, in entry order. */
  function Unshifted(c: TraversalConfig, es: seq<(ConfigKey, string)>): TraversalConfig
  {
    if |es| == 0 then c
    else
      var prev := Unshifted(c, es[..|es| - 1]);
      var e := es[|es| - 1];
      prev.Set(e.0, [e.1] + prev.Get(e.0))
  }

  /** `shift` removes the first value; on an empty stack it changes nothing. */
  function Shift(s: seq<string>): seq<string>
  {
    if |s| == 0 then s else s[1..]
  }

  /** The configuration after `shift`ing once per entry's key, in entry order. */
  function Shifted(c: TraversalConfig, es: seq<(ConfigKey, string)>): TraversalConfig
  {
    if |es| == 0 then c
    else
      var prev := Shifted(c, es[..|es| - 1]);
      prev.Set(es[|es| - 1].0, Shift(prev.Get(es[|es| - 1].0)))
  }

  /** With distinct keys, each key's stack gets the entry's value on top, and
      keys without an entry are untouched. */
  lemma {:induction false} UnshiftedGet(c: TraversalConfig, es: seq<(ConfigKey, string)>, k: ConfigKey)
    requires DistinctKeys(es)
    ensures (exists i :: 0 <= i < |es| && es[i].0 == k) ==> Unshifted(c, es).Get(k) == [ValueFor(es, k)] + c.Get(k)
    ensures (forall i :: 0 <= i < |es| ==> es[i].0 != k) ==> Unshifted(c, es).Get(k) == c.Get(k)
  {
    if |es| > 0 {
      var init := es[..|es| - 1];
      assert DistinctKeys(init);
      UnshiftedGet(c, init, k);
      if es[|es| - 1].0 != k {
        assert (exists i :: 0 <= i < |es| && es[i].0 == k) ==> exists i :: 0 <= i < |init| && init[i].0 == k;
        ValueForInit(es, k);
      } else {
        assert forall i :: 0 <= i < |init| ==> init[i].0 != k;
      }
    }
  }

  /** The value an entry list gives a key (the last such entry). */
  function ValueFor(es: seq<(ConfigKey, string)>, k: ConfigKey): string
  {
    if |es| == 0 then "" else if es[|es| - 1].0 == k then es[|es| - 1].1 else ValueFor(es[..|es| - 1], k)
  }

  lemma ValueForInit(es: seq<(ConfigKey, string)>, k: ConfigKey)
    requires |es| > 0 && es[|es| - 1].0 != k
    ensures ValueFor(es, k) == ValueFor(es[..|es| - 1], k)
  {
  }

  /** Shifting once per key of distinct entries drops the top of exactly those
      stacks. */
  lemma {:induction false} ShiftedGet(c: TraversalConfig, es: seq<(ConfigKey, string)>, k: ConfigKey)
    requires DistinctKeys(es)
    ensures (exists i :: 0 <= i < |es| && es[i].0 == k) ==> Shifted(c, es).Get(k) == Shift(c.Get(k))
    ensures (forall i :: 0 <= i < |es| ==> es[i].0 != k) ==> Shifted(c, es).Get(k) == c.Get(k)
  {
    if |es| > 0 {
      var init := es[..|es| - 1];
      assert DistinctKeys(init);
      ShiftedGet(c, init, k);
      if es[|es| - 1].0 != k {
        assert (exists i :: 0 <= i < |es| && es[i].0 == k) ==> exists i :: 0 <= i < |init| && init[i].0 == k;
      } else {
        assert forall i :: 0 <= i < |init| ==> init[i].0 != k;
      }
    }
  }

  /** Shifting what was unshifted restores every stack. */
  lemma ShiftUndoesUnshift(c: TraversalConfig, es: seq<(ConfigKey, string)>)
    requires DistinctKeys(es)
    ensures Shifted(Unshifted(c, es), es) == c
  {
    UnshiftedGet(c, es, MustBe);
    UnshiftedGet(c, es, Keys);
    ShiftedGet(Unshifted(c, es), es, MustBe);
    ShiftedGet(Unshifted(c, es), es, Keys);
  }

  /** The compilation state. `type` and `rootScope` are not modelled: nothing
      modelled here reads them. */
  class Compilation {
    var path: seq<string>
    var lastDomain: Domain
    var failFast: bool
    var traversalConfig: TraversalConfig

    constructor()
      ensures path == [] && lastDomain == DUndefined && !failFast
      ensures traversalConfig == TraversalConfig([], [])
    {
      path := [];
      lastDomain := DUndefined;
      failFast := false;
      traversalConfig := TraversalConfig([], []);
    }

    /** `data`: the property chain of the current path. */
    function Data(propChain: seq<string> -> string): string
      reads this
    {
      propChain(path)
    }

    /** `problem(code, rule)`: a `state.reject` call with the code, the rule,
        the data and the path's json. */
    function Problem(code: string, rule: ProblemRule, propChain: seq<string> -> string, pathJson: seq<string> -> string): string
      reads this
    {
      ProblemText(code, RuleText(rule), Data(propChain), pathJson(path))
    }

    /** `check(code, condition, rule)`: the condition, or else the problem. */
    function Check(code: string, condition: string, rule: ProblemRule,
                   propChain: seq<string> -> string, pathJson: seq<string> -> string): string
      reads this
    {
      CheckText(code, condition, RuleText(rule), Data(propChain), pathJson(path))
    }

    /** `getConfigKey(k)`: the innermost value of the key, if any. */
    function GetConfigKey(k: ConfigKey): (v: Option<string>)
      reads this
      ensures v.Some? <==> |traversalConfig.Get(k)| > 0
      ensures v.Some? ==> v.value == traversalConfig.Get(k)[0]
    {
      var stack := traversalConfig.Get(k);
      if |stack| == 0 then None else Some(stack[0])
    }

    /** `rebasePathAndCompile(compile)`: with an empty path, what `compile`
        emits; otherwise `compile` runs under a fresh empty path, the previous
        path is restored, and its result is wrapped in code that pushes the
        previous path onto `state.basePath` and truncates it afterwards.
        `compile` is taken as the code emitted for the path it runs under. */
    method RebasePathAndCompile(compile: seq<string> -> string, pathJson: seq<string> -> string) returns (s: string)
      modifies this
      ensures path == old(path) && traversalConfig == old(traversalConfig)
      ensures lastDomain == old(lastDomain) && failFast == old(failFast)
      ensures |path| == 0 ==> s == compile([])
      ensures |path| > 0 ==> s == RebasedCode(JsSlice(pathJson(path), 1, -1), compile([]))
    {
      if |path| == 0 {
        return compile(path);
      }
      var lastPath := path;
      path := [];
      var result := compile(path);
      path := lastPath;
      s := RebasedCode(JsSlice(pathJson(lastPath), 1, -1), result);
    }

    /** `compileConfigNode(node)`: each configuration value is put on top of
        its key's stack, the inner domains node is compiled, and each value is
        taken off again. */
    method CompileConfigNode<K>(node: ConfigNode<K>, propChain: seq<string> -> string, pathJson: seq<string> -> string,
                                compilePredicate: (Predicate<K>, seq<string>, TraversalConfig) -> string) returns (result: string)
      requires DistinctKeys(node.config)
      modifies this
      ensures traversalConfig == old(traversalConfig) && path == old(path)
      ensures lastDomain == old(lastDomain) && failFast == old(failFast)
      ensures result == CompileTypeNode(node.node, path, Unshifted(traversalConfig, node.config), propChain, pathJson, compilePredicate)
    {
      var configEntries := node.config;
      var i := 0;
      while i < |configEntries|
        invariant i <= |configEntries|
        invariant traversalConfig == Unshifted(old(traversalConfig), configEntries[..i])
        invariant path == old(path) && lastDomain == old(lastDomain) && failFast == old(failFast)
      {
        var entry := configEntries[i];
        assert configEntries[..i + 1][..i] == configEntries[..i];
        traversalConfig := traversalConfig.Set(entry.0, [entry.1] + traversalConfig.Get(entry.0));
        i := i + 1;
      }
      assert configEntries[..i] == configEntries;
      result := CompileTypeNode(node.node, path, traversalConfig, propChain, pathJson, compilePredicate);
      ghost var pushed := traversalConfig;
      i := 0;
      while i < |configEntries|
        invariant i <= |configEntries|
        invariant traversalConfig == Shifted(pushed, configEntries[..i])
        invariant path == old(path) && lastDomain == old(lastDomain) && failFast == old(failFast)
      {
        var entry := configEntries[i];
        assert configEntries[..i + 1][..i] == configEntries[..i];
        traversalConfig := traversalConfig.Set(entry.0, Shift(traversalConfig.Get(entry.0)));
        i := i + 1;
      }
      assert configEntries[..i] == configEntries;
      ShiftUndoesUnshift(old(traversalConfig), configEntries);
    }
  }

  /** The text of a `state.reject` call. */
  function ProblemText(code: string, ruleText: string, data: string, json: string): string
  {
    "state.reject(\"" + code + "\", " + ruleText + ", " + data + ", " + json + ")"
  }

  /** The text of a check: the condition, or else the problem. */
  function CheckText(code: string, condition: string, ruleText: string, data: string, json: string): string
  {
    "(" + condition + " || " + ProblemText(code, ruleText, data, json) + ")"
  }

  /** A problem code is read back from the emitted call: two calls at
      the same text name the same code, as long as no code holds a quote. */
  lemma ProblemNamesCode(code1: string, code2: string, rule1: string, rule2: string,
                         data1: string, data2: string, json1: string, json2: string)
    requires '"' !in code1 && '"' !in code2
    requires ProblemText(code1, rule1, data1, json1) == ProblemText(code2, rule2, data2, json2)
    ensures code1 == code2
  {
    var pre := "state.reject(\"";
    var t1 := "\", " + rule1 + ", " + data1 + ", " + json1 + ")";
    var t2 := "\", " + rule2 + ", " + data2 + ", " + json2 + ")";
    assert ProblemText(code1, rule1, data1, json1) == pre + (code1 + t1);
    assert ProblemText(code2, rule2, data2, json2) == pre + (code2 + t2);
    SameAfterPrefix(pre, code1 + t1, code2 + t2);
    QuoteDelimited(code1, t1, code2, t2);
  }

  lemma SameAfterPrefix(pre: string, x: string, y: string)
    requires pre + x == pre + y
    ensures x == y
  {
    assert x == (pre + x)[|pre|..];
    assert y == (pre + y)[|pre|..];
  }

  /** A quote-free word followed by a quote is determined by the text. */
  lemma QuoteDelimited(c1: string, t1: string, c2: string, t2: string)
    requires '"' !in c1 && '"' !in c2
    requires |t1| > 0 && t1[0] == '"' && |t2| > 0 && t2[0] == '"'
    requires c1 + t1 == c2 + t2
    ensures c1 == c2
  {
    FirstQuoteAfter(c1, t1);
    FirstQuoteAfter(c2, t2);
    assert c1 == (c1 + t1)[..|c1|];
    assert c2 == (c2 + t2)[..|c2|];
  }

  /** The first quote of a quote-free word followed by a quote ends the word. */
  lemma {:induction false} FirstQuoteAfter(c: string, t: string)
    requires '"' !in c && |t| > 0 && t[0] == '"'
    ensures IndexOf(c + t, '"') == |c|
  {
    if |c| > 0 {
      assert (c + t)[1..] == c[1..] + t;
      FirstQuoteAfter(c[1..], t);
    }
  }

  /** The code `rebasePathAndCompile` wraps around the rebased result. */
  function RebasedCode(pushed: string, result: string): string
  {
    "(() => {\n"
    + "            const lastLength = state.basePath.length;\n"
    + "            state.basePath.push(" + pushed + ");\n"
    + "            const isValid = " + result + ";\n"
    + "            state.basePath.length = lastLength;\n"
    + "            return isValid\n"
    + "})()"
  }

  /** While a config node compiles, the innermost value of each key it sets
      is the node's own, above the enclosing values. */
  lemma ConfigNodeValuesAreInnermost(c: TraversalConfig, es: seq<(ConfigKey, string)>, k: ConfigKey, i: nat)
    requires DistinctKeys(es) && i < |es| && es[i].0 == k
    ensures Unshifted(c, es).Get(k) == [es[i].1] + c.Get(k)
  {
    UnshiftedGet(c, es, k);
    ValueForDistinct(es, i);
  }

  lemma {:induction false} ValueForDistinct(es: seq<(ConfigKey, string)>, i: nat)
    requires DistinctKeys(es) && i < |es|
    ensures ValueFor(es, es[i].0) == es[i].1
  {
    if i < |es| - 1 {
      assert es[..|es| - 1][i] == es[i];
      assert DistinctKeys(es[..|es| - 1]);
      ValueForDistinct(es[..|es| - 1], i);
    }
  }

  // ------------------------------------------------------------ compileTypeNode

  /** The domain check of `compileTypeNode`: `check("domain", condition, domain)`
      at the current path, the rule being the domain's name as JSON. */
  function DomainCheck(domain: Domain, path: seq<string>, propChain: seq<string> -> string, pathJson: seq<string> -> string): string
  {
    CheckText("domain", CompileDomainCondition(domain, propChain(path)), RuleText(JsonRule(JStr(DomainName(domain)))),
              propChain(path), pathJson(path))
  }

  /** `compileTypeNode(node, c)`: for a single domain, its check — alone when
      the predicate is `true`, dropped when every branch fixes its domain by
      a value or an instance, else followed by the predicate's checks; for
      any other number of domains, a placeholder. */
  function CompileTypeNode<K>(node: seq<(Domain, Predicate<K>)>, path: seq<string>, config: TraversalConfig,
                              propChain: seq<string> -> string, pathJson: seq<string> -> string,
                              compilePredicate: (Predicate<K>, seq<string>, TraversalConfig) -> string): (s: string)
    ensures |node| == 1 && node[0].1.TruePredicate? ==> s == DomainCheck(node[0].0, path, propChain, pathJson)
    ensures |node| == 1 && !node[0].1.TruePredicate? && HasImpliedDomain(node[0].1) ==>
      s == compilePredicate(node[0].1, path, config)
    ensures |node| == 1 && !HasImpliedDomain(node[0].1) && !node[0].1.TruePredicate? ==>
      s == DomainCheck(node[0].0, path, propChain, pathJson) + compilePredicate(node[0].1, path, config)
    ensures |node| != 1 ==> s == "console.log(\"unimplemented!\")"
  {
    if |node| == 1 then
      var domain := node[0].0;
      var pred := node[0].1;
      var domainCheck := DomainCheck(domain, path, propChain, pathJson);
      if pred.TruePredicate? then domainCheck
      else
        var checks := compilePredicate(pred, path, config);
        if !HasImpliedDomain(pred) then domainCheck + checks else checks
    else "console.log(\"unimplemented!\")"
  }
}
