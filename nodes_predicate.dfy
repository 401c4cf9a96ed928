/** The predicate node of the src/nodes snapshot (src/nodes/predicate.ts): a
    rule list whose head is the domain rule and whose tail is the constraint
    rules, each an instance of one of the six constraint classes. The
    constraint nodes themselves (range, divisibility, regex, props, filter,
    morph) are payloads of an abstract type; their `intersect` and `key` are
    parameters. */
module NodesPredicate {
  import opened Wrappers
  import opened JsText

  /** The keys of `constraintKinds`, in their declared order. */
  datatype ConstraintKind = Range | Divisor | Regex | Props | Filter | Morph

  /** A constraint node: the class it is an instance of, and its contents. */
  datatype Constraint<N> = Constraint(kind: ConstraintKind, node: N)

  /** An element of `RuleNodes`: the domain node or a constraint node. */
  datatype Rule<D, N> = DomainRule(domain: D) | ConstraintRule(constraint: Constraint<N>)

  /** The shape `RuleNodes` demands: a domain node, then constraint nodes. */
  predicate IsRuleNodes<D, N>(rules: seq<Rule<D, N>>)
  {
    |rules| >= 1 && rules[0].DomainRule? && forall i :: 1 <= i < |rules| ==> rules[i].ConstraintRule?
  }

  /** The three fields of a predicate node. */
  datatype PredicateNode<D, N> = PredicateNode(rules: seq<Rule<D, N>>, domain: D, constraints: seq<Constraint<N>>)

  /** The constructor: `domain` is the first rule and `constraints` the rest.
      Before assigning them it calls `validateRuleKeys`, which looks up a
      divisor constraint with `getConstraint` (a `find` over `constraints`)
      and does nothing with the answer; the model takes that lookup to
      succeed, which needs the base `Node` constructor to have set
      `constraints` already. */
  function New<D, N>(rules: seq<Rule<D, N>>): (node: PredicateNode<D, N>)
    requires IsRuleNodes(rules)
    ensures node.rules == rules && node.domain == rules[0].domain
    ensures |node.constraints| == |rules| - 1
    ensures forall i :: 0 <= i < |node.constraints| ==> rules[i + 1] == ConstraintRule(node.constraints[i])
  {
    PredicateNode(rules, rules[0].domain, seq(|rules| - 1, i requires 0 <= i < |rules| - 1 => rules[i + 1].constraint))
  }

  // ------------------------------------------------------------ getConstraint

  /** The position of the first constraint of kind `k`, or -1. */
  function FirstOfKind<N>(cs: seq<Constraint<N>>, k: ConstraintKind): (i: int)
    ensures -1 <= i < |cs|
    ensures i >= 0 ==> cs[i].kind == k && forall j :: 0 <= j < i ==> cs[j].kind != k
    ensures i == -1 <==> forall j :: 0 <= j < |cs| ==> cs[j].kind != k
  {
    if |cs| == 0 then -1
    else if cs[0].kind == k then 0
    else
      var j := FirstOfKind(cs[1..], k);
      if j == -1 then -1 else j + 1
  }

  /** `getConstraint(k)`: the first constraint of kind `k`, if there is one. */
  function GetConstraint<N>(cs: seq<Constraint<N>>, k: ConstraintKind): (r: Option<Constraint<N>>)
    ensures r.None? <==> forall j :: 0 <= j < |cs| ==> cs[j].kind != k
    ensures r.Some? ==> r.value.kind == k && r.value == cs[FirstOfKind(cs, k)]
  {
    if |cs| == 0 then None
    else if cs[0].kind == k then Some(cs[0])
    else GetConstraint(cs[1..], k)
  }

  // ------------------------------------------------------------ from

  /** The input of `from`: a domain and the optional constraint inputs. */
  datatype Definition<D, B, P> = Definition(domain: D, divisor: Option<int>, range: Option<B>,
                                            regex: Option<seq<string>>, props: Option<P>)

  /** The constructors of the four constraint classes `from` uses. */
  datatype Builders<!B, !P, N> = Builders(divisor: int -> N, range: B -> N, regex: seq<string> -> N, props: P -> N)

  /** `if (def.divisor)`: a divisor of 0 is falsy and is not given. */
  predicate DivisorGiven<D, B, P>(def: Definition<D, B, P>)
  {
    def.divisor.Some? && def.divisor.value != 0
  }

  /** The constraints `from` builds, in the order it pushes them. */
  function GivenConstraints<D, B, P, N>(def: Definition<D, B, P>, build: Builders<B, P, N>): seq<Constraint<N>>
  {
    (if DivisorGiven(def) then [Constraint(Divisor, build.divisor(def.divisor.value))] else [])
    + (if def.range.Some? then [Constraint(Range, build.range(def.range.value))] else [])
    + (if def.regex.Some? then [Constraint(Regex, build.regex(def.regex.value))] else [])
    + (if def.props.Some? then [Constraint(Props, build.props(def.props.value))] else [])
  }

  /** The constraints as rules. */
  function AsRules<D, N>(cs: seq<Constraint<N>>): (rules: seq<Rule<D, N>>)
    ensures |rules| == |cs| && forall i :: 0 <= i < |cs| ==> rules[i] == ConstraintRule(cs[i])
  {
    seq(|cs|, i requires 0 <= i < |cs| => ConstraintRule(cs[i]))
  }

  /** A rule list made of the domain rule and the given constraints. */
  ghost predicate Tracks<D, N>(rules: seq<Rule<D, N>>, domain: D, given: seq<Constraint<N>>)
  {
    rules == [DomainRule(domain)] + AsRules(given)
  }

  /** One optional push of `from`: the rule list grows by the constraint's rule. */
  method Push<D, N>(rules: seq<Rule<D, N>>, ghost domain: D, ghost given: seq<Constraint<N>>, c: Constraint<N>)
    returns (next: seq<Rule<D, N>>)
    requires Tracks(rules, domain, given)
    ensures Tracks(next, domain, given + [c])
  {
    next := rules + [ConstraintRule(c)];
    assert AsRules<D, N>(given + [c]) == AsRules(given) + [ConstraintRule(c)];
  }

  /** The node built from such a list has exactly the given constraints. */
  lemma NewTracked<D, N>(rules: seq<Rule<D, N>>, domain: D, given: seq<Constraint<N>>)
    requires Tracks(rules, domain, given)
    ensures IsRuleNodes(rules) && New(rules).domain == domain && New(rules).constraints == given
  {
  }

  /** `from`: the domain rule, then the divisor, range, regex and props rules,
      each pushed only when the definition gives it. */
  method From<D, B, P, N>(def: Definition<D, B, P>, build: Builders<B, P, N>) returns (node: PredicateNode<D, N>)
    ensures node.rules == [DomainRule(def.domain)] + AsRules(GivenConstraints(def, build))
    ensures node.domain == def.domain && node.constraints == GivenConstraints(def, build)
  {
    ghost var a := if DivisorGiven(def) then [Constraint(Divisor, build.divisor(def.divisor.value))] else [];
    ghost var b := if def.range.Some? then [Constraint(Range, build.range(def.range.value))] else [];
    ghost var c := if def.regex.Some? then [Constraint(Regex, build.regex(def.regex.value))] else [];
    ghost var d := if def.props.Some? then [Constraint(Props, build.props(def.props.value))] else [];
    var rules: seq<Rule<D, N>> := [DomainRule(def.domain)];
    ghost var given: seq<Constraint<N>> := [];
    if DivisorGiven(def) {
      var c := Constraint(Divisor, build.divisor(def.divisor.value));
      rules := Push(rules, def.domain, given, c);
      given := given + [c];
    }
    assert given == a && Tracks(rules, def.domain, given);
    if def.range.Some? {
      var c := Constraint(Range, build.range(def.range.value));
      rules := Push(rules, def.domain, given, c);
      given := given + [c];
    }
    assert given == a + b && Tracks(rules, def.domain, given);
    if def.regex.Some? {
      var c := Constraint(Regex, build.regex(def.regex.value));
      rules := Push(rules, def.domain, given, c);
      given := given + [c];
    }
    assert given == a + b + c && Tracks(rules, def.domain, given);
    if def.props.Some? {
      var c := Constraint(Props, build.props(def.props.value));
      rules := Push(rules, def.domain, given, c);
      given := given + [c];
    }
    assert given == a + b + c + d == GivenConstraints(def, build);
    NewTracked(rules, def.domain, given);
    node := New(rules);
  }

  /** `getConstraint` on a concatenation: the first list's find, else the
      second's. */
  lemma {:induction false} GetConstraintAppend<N>(x: seq<Constraint<N>>, y: seq<Constraint<N>>, k: ConstraintKind)
    ensures GetConstraint(x + y, k) == if GetConstraint(x, k).Some? then GetConstraint(x, k) else GetConstraint(y, k)
  {
    if |x| > 0 {
      assert (x + y)[0] == x[0] && (x + y)[1..] == x[1..] + y;
      GetConstraintAppend(x[1..], y, k);
    } else {
      assert x + y == y;
    }
  }

  /** What `from` gives, read back through `getConstraint`: each of the four
      kinds is found exactly when the definition gives it, as the node built
      from that input; filters and morphs are never present. */
  lemma FromGetConstraint<D, B, P, N>(def: Definition<D, B, P>, build: Builders<B, P, N>, k: ConstraintKind)
    ensures GetConstraint(GivenConstraints(def, build), k)
         == match k
            case Divisor => if DivisorGiven(def) then Some(Constraint(Divisor, build.divisor(def.divisor.value))) else None
            case Range => if def.range.Some? then Some(Constraint(Range, build.range(def.range.value))) else None
            case Regex => if def.regex.Some? then Some(Constraint(Regex, build.regex(def.regex.value))) else None
            case Props => if def.props.Some? then Some(Constraint(Props, build.props(def.props.value))) else None
            case Filter => None
            case Morph => None
  {
    var a := if DivisorGiven(def) then [Constraint(Divisor, build.divisor(def.divisor.value))] else [];
    var b := if def.range.Some? then [Constraint(Range, build.range(def.range.value))] else [];
    var c := if def.regex.Some? then [Constraint(Regex, build.regex(def.regex.value))] else [];
    var d := if def.props.Some? then [Constraint(Props, build.props(def.props.value))] else [];
    assert GivenConstraints(def, build) == a + b + c + d;
    GetConstraintAppend(a + b + c, d, k);
    GetConstraintAppend(a + b, c, k);
    GetConstraintAppend(a, b, k);
    GetConstraintOne(a, k);
    GetConstraintOne(b, k);
    GetConstraintOne(c, k);
    GetConstraintOne(d, k);
  }

  lemma GetConstraintOne<N>(a: seq<Constraint<N>>, k: ConstraintKind)
    requires |a| <= 1
    ensures GetConstraint(a, k) == if a != [] && a[0].kind == k then Some(a[0]) else None
  {
  }

  // ------------------------------------------------------------ compile

  /** The static `compile`: the rules' keys joined with " && ". */
  function Compile<D, N>(rules: seq<Rule<D, N>>, key: Rule<D, N> -> string): string
  {
    Join(seq(|rules|, i requires 0 <= i < |rules| => key(rules[i])), " && ")
  }

  /** A single rule compiles to its own key, and the compiled code of a list
      is the code of any split of it, joined by " && ": so the conjuncts come
      in rule order, one per rule. */
  lemma CompileConjoins<D, N>(a: seq<Rule<D, N>>, b: seq<Rule<D, N>>, key: Rule<D, N> -> string)
    ensures |a| == 1 ==> Compile(a, key) == key(a[0])
    ensures |a| > 0 && |b| > 0 ==> Compile(a + b, key) == Compile(a, key) + " && " + Compile(b, key)
  {
    if |a| > 0 && |b| > 0 {
      var ka := seq(|a|, i requires 0 <= i < |a| => key(a[i]));
      var kb := seq(|b|, i requires 0 <= i < |b| => key(b[i]));
      assert seq(|a + b|, i requires 0 <= i < |a + b| => key((a + b)[i])) == ka + kb;
      JoinAppend(ka, kb, " && ");
    }
  }

  // ------------------------------------------------------------ keyed objects

  /** A plain object keyed by constraint kind: its entries in insertion order
      (kind names are not integer-like, so that is the host's key order). */
  type Entries<V> = seq<(ConstraintKind, V)>

  predicate DistinctKinds<V>(es: Entries<V>)
  {
    forall i, j :: 0 <= i < j < |es| ==> es[i].0 != es[j].0
  }

  /** The position of key `k`, or -1. */
  function KeyIndex<V>(es: Entries<V>, k: ConstraintKind): (i: int)
    ensures -1 <= i < |es|
    ensures i >= 0 ==> es[i].0 == k
    ensures i == -1 <==> forall j :: 0 <= j < |es| ==> es[j].0 != k
  {
    if |es| == 0 then -1
    else if es[|es| - 1].0 == k then |es| - 1
    else KeyIndex(es[..|es| - 1], k)
  }

  /** `obj[k]`. */
  function Lookup<V>(es: Entries<V>, k: ConstraintKind): Option<V>
  {
    var i := KeyIndex(es, k);
    if i == -1 then None else Some(es[i].1)
  }

  /** `obj[k] = v`: an existing key keeps its place and takes the new value,
      a new key goes last. */
  function Assign<V>(es: Entries<V>, k: ConstraintKind, v: V): (r: Entries<V>)
    requires DistinctKinds(es)
    ensures DistinctKinds(r)
    ensures |r| >= |es| && forall i :: 0 <= i < |es| ==> r[i].0 == es[i].0
    ensures Lookup(r, k) == Some(v)
    ensures forall k' :: k' != k ==> Lookup(r, k') == Lookup(es, k')
  {
    var i := KeyIndex(es, k);
    if i == -1 then
      var r := es + [(k, v)];
      assert r[..|r| - 1] == es;
      r
    else
      var r := es[i := (k, v)];
      LookupDistinct(r, i);
      forall k' | k' != k ensures Lookup(r, k') == Lookup(es, k')
      {
        LookupUpdate(es, i, (k, v), k');
      }
      r
  }

  /** In distinct entries, the value at position i is the one found for its key. */
  lemma {:induction false} LookupDistinct<V>(es: Entries<V>, i: nat)
    requires DistinctKinds(es) && i < |es|
    ensures KeyIndex(es, es[i].0) == i
  {
    if i < |es| - 1 {
      assert es[..|es| - 1][i] == es[i];
      LookupDistinct(es[..|es| - 1], i);
    }
  }

  /** Overwriting the entry of one key leaves the lookups of the others alone. */
  lemma LookupUpdate<V>(es: Entries<V>, i: nat, e: (ConstraintKind, V), k: ConstraintKind)
    requires i < |es| && e.0 == es[i].0 && k != e.0
    ensures Lookup(es[i := e], k) == Lookup(es, k)
  {
    KeyIndexUpdate(es, i, e, k);
  }

  lemma {:induction false} KeyIndexUpdate<V>(es: Entries<V>, i: nat, e: (ConstraintKind, V), k: ConstraintKind)
    requires i < |es| && e.0 == es[i].0 && k != e.0
    ensures KeyIndex(es[i := e], k) == KeyIndex(es, k)
  {
    var n := |es| - 1;
    if es[n].0 != k {
      if i < n {
        assert es[i := e][..n] == es[..n][i := e];
        KeyIndexUpdate(es[..n], i, e, k);
      } else {
        assert es[i := e][..n] == es[..n];
      }
    }
  }

  /** The entries `[c.kind, c]` of `getEntries`. */
  function EntriesOf<N>(cs: seq<Constraint<N>>): (es: Entries<Constraint<N>>)
    ensures |es| == |cs| && forall i :: 0 <= i < |cs| ==> es[i] == (cs[i].kind, cs[i])
  {
    seq(|cs|, i requires 0 <= i < |cs| => (cs[i].kind, cs[i]))
  }

  /** `Object.fromEntries(es)`: the entries assigned one after another. */
  function FromEntries<V>(es: Entries<V>): (r: Entries<V>)
    ensures DistinctKinds(r)
  {
    if |es| == 0 then [] else Assign(FromEntries(es[..|es| - 1]), es[|es| - 1].0, es[|es| - 1].1)
  }

  /** The last constraint of kind `k`, if there is one. */
  function LastOfKind<N>(cs: seq<Constraint<N>>, k: ConstraintKind): (r: Option<Constraint<N>>)
    ensures r.Some? <==> exists j :: 0 <= j < |cs| && cs[j].kind == k
    ensures r.Some? ==> r.value.kind == k
  {
    if |cs| == 0 then None
    else if cs[|cs| - 1].kind == k then Some(cs[|cs| - 1])
    else
      var r := LastOfKind(cs[..|cs| - 1], k);
      assert forall j :: 0 <= j < |cs| - 1 ==> cs[..|cs| - 1][j] == cs[j];
      r
  }

  /** `Object.fromEntries(this.getEntries())` holds, under each kind, the last
      constraint of that kind. */
  lemma {:induction false} FromEntriesLookup<N>(cs: seq<Constraint<N>>, k: ConstraintKind)
    ensures Lookup(FromEntries(EntriesOf(cs)), k) == LastOfKind(cs, k)
  {
    if |cs| > 0 {
      assert EntriesOf(cs)[..|cs| - 1] == EntriesOf(cs[..|cs| - 1]);
      FromEntriesLookup(cs[..|cs| - 1], k);
    }
  }

  // ------------------------------------------------------------ intersect, constrain

  /** What is written under a rule's kind: the intersection with this node's
      first constraint of that kind, or the rule itself. */
  function Merged<N>(self: seq<Constraint<N>>, rule: Constraint<N>, meet: (Constraint<N>, Constraint<N>) -> Constraint<N>): Constraint<N>
  {
    match GetConstraint(self, rule.kind)
    case Some(matching) => meet(matching, rule)
    case None => rule
  }

  /** The result object after merging `rules` one by one into `init`. */
  function MergeAll<N>(self: seq<Constraint<N>>, init: Entries<Constraint<N>>, rules: seq<Constraint<N>>,
                       meet: (Constraint<N>, Constraint<N>) -> Constraint<N>): (r: Entries<Constraint<N>>)
    requires DistinctKinds(init)
    ensures DistinctKinds(r)
  {
    if |rules| == 0 then init
    else
      var last := rules[|rules| - 1];
      Assign(MergeAll(self, init, rules[..|rules| - 1], meet), last.kind, Merged(self, last, meet))
  }

  /** After the merge, each kind holds: the merged last rule of that kind when
      some rule has it, else what `init` held. The keys of `init` keep their
      places at the front. */
  lemma {:induction false} MergeAllLookup<N>(self: seq<Constraint<N>>, init: Entries<Constraint<N>>, rules: seq<Constraint<N>>,
                                             meet: (Constraint<N>, Constraint<N>) -> Constraint<N>, k: ConstraintKind)
    requires DistinctKinds(init)
    ensures Lookup(MergeAll(self, init, rules, meet), k)
         == match LastOfKind(rules, k)
            case Some(rule) => Some(Merged(self, rule, meet))
            case None => Lookup(init, k)
    ensures |MergeAll(self, init, rules, meet)| >= |init|
    ensures forall i :: 0 <= i < |init| ==> MergeAll(self, init, rules, meet)[i].0 == init[i].0
  {
    if |rules| > 0 {
      MergeAllLookup(self, init, rules[..|rules| - 1], meet, k);
    }
  }

  /** `intersect` and `constrain` both merge into the entries of this node:
      a kind both sides have becomes the intersection of this node's first
      constraint of that kind with the other side's last one, a kind only
      the other side has is copied in, a kind only this node has keeps this
      node's (last) constraint, and no other kind appears. */
  lemma MergeIntoSelf<N>(self: seq<Constraint<N>>, rules: seq<Constraint<N>>,
                         meet: (Constraint<N>, Constraint<N>) -> Constraint<N>, k: ConstraintKind)
    ensures var r := Lookup(MergeAll(self, FromEntries(EntriesOf(self)), rules, meet), k);
            && (GetConstraint(self, k).Some? && LastOfKind(rules, k).Some? ==>
                  r == Some(meet(GetConstraint(self, k).value, LastOfKind(rules, k).value)))
            && (GetConstraint(self, k).None? && LastOfKind(rules, k).Some? ==> r == LastOfKind(rules, k))
            && (LastOfKind(rules, k).None? ==> r == LastOfKind(self, k))
            && (r.Some? <==> GetConstraint(self, k).Some? || LastOfKind(rules, k).Some?)
  {
    MergeAllLookup(self, FromEntries(EntriesOf(self)), rules, meet, k);
    FromEntriesLookup(self, k);
  }

  /** The loop of `intersect`: each rule of the other node is merged into
      `resultInput` in turn. */
  method MergeRules<N>(self: seq<Constraint<N>>, init: Entries<Constraint<N>>, rules: seq<Constraint<N>>,
                       meet: (Constraint<N>, Constraint<N>) -> Constraint<N>) returns (resultInput: Entries<Constraint<N>>)
    requires DistinctKinds(init)
    ensures resultInput == MergeAll(self, init, rules, meet)
  {
    resultInput := init;
    var i := 0;
    while i < |rules|
      invariant i <= |rules|
      invariant resultInput == MergeAll(self, init, rules[..i], meet)
    {
      var rule := rules[i];
      var matching := GetConstraint(self, rule.kind);
      var value := if matching.Some? then meet(matching.value, rule) else rule;
      assert rules[..i + 1][..i] == rules[..i];
      resultInput := Assign(resultInput, rule.kind, value);
      i := i + 1;
    }
    assert rules[..|rules|] == rules;
  }

  /** `intersect`: the entries of this node, merged with each constraint of
      the other. */
  method Intersect<D, N>(self: PredicateNode<D, N>, other: PredicateNode<D, N>,
                         meet: (Constraint<N>, Constraint<N>) -> Constraint<N>) returns (resultInput: Entries<Constraint<N>>)
    ensures resultInput == MergeAll(self.constraints, FromEntries(EntriesOf(self.constraints)), other.constraints, meet)
  {
    resultInput := FromEntries(EntriesOf(self.constraints));
    resultInput := MergeRules(self.constraints, resultInput, other.constraints, meet);
  }

  /** Merging one more rule assigns its merged value under its kind. */
  lemma MergeAllStep<N>(self: seq<Constraint<N>>, init: Entries<Constraint<N>>, rules: seq<Constraint<N>>, rule: Constraint<N>,
                        meet: (Constraint<N>, Constraint<N>) -> Constraint<N>)
    requires DistinctKinds(init)
    ensures MergeAll(self, init, rules + [rule], meet)
         == Assign(MergeAll(self, init, rules, meet), rule.kind, Merged(self, rule, meet))
  {
    assert (rules + [rule])[..|rules|] == rules;
  }

  /** The constraint nodes `constrain` builds from its input object, one per
      entry, in the object's order. */
  function Built<I, N>(input: Entries<I>, build: (ConstraintKind, I) -> N): seq<Constraint<N>>
  {
    if |input| == 0 then []
    else
      var last := input[|input| - 1];
      Built(input[..|input| - 1], build) + [Constraint(last.0, build(last.0, last.1))]
  }

  /** `constrain`: for each key of the input object, a node of that kind is
      built from its value and merged into the entries of this node. */
  method Constrain<D, I, N>(self: PredicateNode<D, N>, input: Entries<I>, build: (ConstraintKind, I) -> N,
                            meet: (Constraint<N>, Constraint<N>) -> Constraint<N>) returns (resultInput: Entries<Constraint<N>>)
    ensures resultInput == MergeAll(self.constraints, FromEntries(EntriesOf(self.constraints)), Built(input, build), meet)
  {
    var init := FromEntries(EntriesOf(self.constraints));
    resultInput := init;
    var i := 0;
    while i < |input|
      invariant i <= |input|
      invariant resultInput == MergeAll(self.constraints, init, Built(input[..i], build), meet)
    {
      var kind := input[i].0;
      var constraintNode := Constraint(kind, build(kind, input[i].1));
      var matching := GetConstraint(self.constraints, kind);
      var value := if matching.Some? then meet(matching.value, constraintNode) else constraintNode;
      assert input[..i + 1][..i] == input[..i];
      assert Built(input[..i + 1], build) == Built(input[..i], build) + [constraintNode];
      MergeAllStep(self.constraints, init, Built(input[..i], build), constraintNode, meet);
      resultInput := Assign(resultInput, kind, value);
      i := i + 1;
    }
    assert input[..|input|] == input;
  }
}
