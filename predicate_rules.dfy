/** The predicate node of the later src/nodes snapshot
    (src/nodes/predicate/predicate.ts): constraint groups keyed by kind — one
    basis, bounds, one divisor, regexes, one properties node, narrows. The
    constraint nodes are of an abstract type; their descriptions, their
    rules, the basis intersection and the node's `allows` are parameters. */
module PredicateRules {
  import opened Wrappers
  import opened JsText
  import opened Disjoints

  /** The keys of `Constraints`. */
  datatype ConstraintKind = Basis | Bound | Divisor | Regex | Properties | Narrow

  /** `constraintKindNames`: every kind but the basis, in declared order. */
  const KindNames: seq<ConstraintKind> := [Bound, Divisor, Regex, Properties, Narrow]

  /** A constraint group: a single node (basis, divisor, properties) or a
      list of nodes (bound, regex, narrow). */
  datatype Group<C> = One(node: C) | Many(nodes: seq<C>)

  /** Whether a kind holds a single node or a list. */
  predicate Single(k: ConstraintKind)
  {
    k == Basis || k == Divisor || k == Properties
  }

  /** What the constructor is given: a `Constraints` object (its entries in
      insertion order), or — as `intersect` and `constrain` pass it — a list
      of groups. */
  datatype ConstraintsArg<C> = Keyed(entries: seq<(ConstraintKind, Group<C>)>) | Listed(items: seq<Group<C>>)

  /** A predicate node: the constructor's argument (`meta` is not modelled). */
  datatype PredicateNode<C> = PredicateNode(constraints: ConstraintsArg<C>)

  /** The entry of kind `k` in a keyed object, if there is one. */
  function EntryOf<C>(entries: seq<(ConstraintKind, Group<C>)>, k: ConstraintKind): (g: Option<Group<C>>)
    ensures g.Some? ==> (k, g.value) in entries
    ensures g.None? <==> forall i :: 0 <= i < |entries| ==> entries[i].0 != k
  {
    if |entries| == 0 then None
    else if entries[0].0 == k then Some(entries[0].1)
    else EntryOf(entries[1..], k)
  }

  /** The field `this[k]` after `Object.assign(this, constraints)`: a keyed
      object sets its own keys; a list sets only the index keys "0", "1", …,
      so every named field stays unset. `getConstraints(k)` (defined outside
      this file) is taken to read this field. */
  function Field<C>(node: PredicateNode<C>, k: ConstraintKind): (g: Option<Group<C>>)
    ensures node.constraints.Listed? ==> g.None?
    ensures node.constraints.Keyed? ==> g == EntryOf(node.constraints.entries, k)
  {
    match node.constraints
    case Keyed(entries) => EntryOf(entries, k)
    case Listed(_) => None
  }

  /** The `basis` field. */
  function BasisOf<C>(node: PredicateNode<C>): (b: Option<C>)
    ensures b.Some? <==> Field(node, Basis).Some? && Field(node, Basis).value.One?
    ensures b.Some? ==> Field(node, Basis) == Some(One(b.value))
  {
    match Field(node, Basis)
    case Some(One(b)) => Some(b)
    case _ => None
  }

  // ------------------------------------------------------------ children

  /** The nodes of one group. */
  function Members<C>(g: Group<C>): seq<C>
  {
    match g
    case One(c) => [c]
    case Many(cs) => cs
  }

  /** `.flat()` over a list of groups. */
  function Flatten<C>(gs: seq<Group<C>>): (cs: seq<C>)
    ensures forall g, c :: g in gs && c in Members(g) ==> c in cs
    ensures forall c :: c in cs ==> exists g :: g in gs && c in Members(g)
  {
    if |gs| == 0 then []
    else
      var init := gs[..|gs| - 1];
      assert forall g :: g in gs ==> g in init || g == gs[|gs| - 1];
      Flatten(init) + Members(gs[|gs| - 1])
  }

  /** `Object.values(this.constraints)`. */
  function Values<C>(arg: ConstraintsArg<C>): (gs: seq<Group<C>>)
    ensures arg.Keyed? ==> |gs| == |arg.entries| && forall i :: 0 <= i < |gs| ==> gs[i] == arg.entries[i].1
    ensures arg.Listed? ==> gs == arg.items
  {
    match arg
    case Keyed(entries) => seq(|entries|, i requires 0 <= i < |entries| => entries[i].1)
    case Listed(items) => items
  }

  /** `children`: every constraint node, group after group. */
  function Children<C>(node: PredicateNode<C>): seq<C>
  {
    Flatten(Values(node.constraints))
  }

  /** Every node of a field's group is a child. */
  lemma FieldMembersAreChildren<C>(node: PredicateNode<C>, k: ConstraintKind, c: C)
    requires Field(node, k).Some? && c in Members(Field(node, k).value)
    ensures c in Children(node)
  {
    var i :| 0 <= i < |node.constraints.entries| && node.constraints.entries[i] == (k, Field(node, k).value);
    assert Values(node.constraints)[i] == Field(node, k).value;
  }

  // ------------------------------------------------------------ unit

  /** The `unit` rule: the basis, when it is a unit and the node's only child. */
  function UnitOf<C>(basis: Option<C>, children: seq<C>, isUnit: C -> bool): Option<C>
  {
    if basis.Some? && isUnit(basis.value) && |children| == 1 then basis else None
  }

  /** `unit` as written: its initialiser runs when the constructor's `super()`
      returns, before `Object.assign` has set `basis`, so it reads an unset
      basis. */
  function UnitAsWritten<C>(node: PredicateNode<C>, isUnit: C -> bool): (u: Option<C>)
    ensures u.None?
  {
    UnitOf(None, Children(node), isUnit)
  }

  /** `unit` read over the assigned `basis` field: set exactly when the basis
      is a unit and is the node's only child. */
  function Unit<C>(node: PredicateNode<C>, isUnit: C -> bool): (u: Option<C>)
    ensures u.Some? <==> BasisOf(node).Some? && isUnit(BasisOf(node).value) && |Children(node)| == 1
    ensures u.Some? ==> u == BasisOf(node) && Children(node) == [u.value]
  {
    if BasisOf(node).Some? && isUnit(BasisOf(node).value) && |Children(node)| == 1 then
      FieldMembersAreChildren(node, Basis, BasisOf(node).value);
      BasisOf(node)
    else None
  }

  /** A node whose only constraint is a unit basis: the initialiser leaves
      `unit` unset, although the basis is a unit and the only child. */
  lemma UnitNeverSetAsWritten<C>(u: C, isUnit: C -> bool)
    requires isUnit(u)
    ensures var node := PredicateNode(Keyed([(Basis, One(u))]));
            UnitAsWritten(node, isUnit) == None && Unit(node, isUnit) == Some(u)
  {
    var node := PredicateNode(Keyed([(Basis, One(u))]));
    assert Values(node.constraints) == [One(u)];
    assert Children(node) == Flatten([One(u)][..0]) + [u];
  }

  // ------------------------------------------------------------ describe

  /** The descriptions of the children, in order. */
  function Descriptions<C>(cs: seq<C>, show: C -> string): (ds: seq<string>)
    ensures |ds| == |cs| && forall i :: 0 <= i < |cs| ==> ds[i] == show(cs[i])
  {
    seq(|cs|, i requires 0 <= i < |cs| => show(cs[i]))
  }

  /** `describe` as written: "unknown" with no children, the template string
      of `basis` with one child (the text "undefined" when the field is
      unset), else the children's descriptions joined by " and " in
      parentheses. */
  function DescribeAsWritten<C>(node: PredicateNode<C>, show: C -> string): string
  {
    var cs := Children(node);
    if |cs| == 0 then "unknown"
    else if |cs| == 1 then (match BasisOf(node) case Some(b) => show(b) case None => "undefined")
    else "(" + Join(Descriptions(cs, show), " and ") + ")"
  }

  /** `describe` as evidently intended: with one child, that child's
      description. */
  function Describe<C>(node: PredicateNode<C>, show: C -> string): (d: string)
    ensures |Children(node)| == 0 ==> d == "unknown"
    ensures |Children(node)| == 1 ==> d == show(Children(node)[0])
    ensures |Children(node)| >= 2 ==> |d| >= 2 && d[0] == '(' && d[|d| - 1] == ')'
  {
    var cs := Children(node);
    if |cs| == 0 then "unknown"
    else if |cs| == 1 then show(cs[0])
    else "(" + Join(Descriptions(cs, show), " and ") + ")"
  }

  /** The intended description depends on the children alone. */
  lemma DescribeDependsOnChildren<C>(a: PredicateNode<C>, b: PredicateNode<C>, show: C -> string)
    requires Children(a) == Children(b)
    ensures Describe(a, show) == Describe(b, show)
  {
  }

  /** The two agree everywhere except on a one-child node whose child is not
      its basis field. */
  lemma DescribeAsWrittenAgrees<C>(node: PredicateNode<C>, show: C -> string)
    requires |Children(node)| != 1 || BasisOf(node) == Some(Children(node)[0])
    ensures DescribeAsWritten(node, show) == Describe(node, show)
  {
  }

  /** A node whose only constraint is a divisor is described as "undefined". */
  lemma DescribeAsWrittenUndefined<C>(d: C, show: C -> string)
    ensures var node := PredicateNode(Keyed([(Divisor, One(d))]));
            DescribeAsWritten(node, show) == "undefined" && Describe(node, show) == show(d)
  {
    var node := PredicateNode(Keyed([(Divisor, One(d))]));
    assert Values(node.constraints) == [One(d)];
    assert Children(node) == Flatten([One(d)][..0]) + [d];
  }

  // ------------------------------------------------------------ keyof

  /** `keyof`: `never` without a basis; else the basis's keys, joined with the
      properties' keys when there are properties. */
  function KeyOf<C, T>(node: PredicateNode<C>, keyofNode: C -> T, or: (T, T) -> T, never: T): (t: T)
    ensures BasisOf(node).None? ==> t == never
    ensures BasisOf(node).Some? && Field(node, Properties).Some? && Field(node, Properties).value.One? ==>
      t == or(keyofNode(Field(node, Properties).value.node), keyofNode(BasisOf(node).value))
    ensures BasisOf(node).Some? && !(Field(node, Properties).Some? && Field(node, Properties).value.One?) ==>
      t == keyofNode(BasisOf(node).value)
  {
    match BasisOf(node)
    case None => never
    case Some(b) =>
      match Field(node, Properties)
      case Some(One(p)) => or(keyofNode(p), keyofNode(b))
      case _ => keyofNode(b)
  }

  // ------------------------------------------------------------ intersect

  /** What `intersect` returns: a node, the Disjoint of the two bases, or an
      "assignability" Disjoint between a node and the other side's unit basis. */
  datatype PredicateMeet<C> =
    | Intersected(node: PredicateNode<C>)
    | BasisDisjoint(disjoint: Disjoint<C, C>)
    | Unassignable(unassignable: Disjoint<PredicateNode<C>, C>)

  /** The group `intersect` keeps for one kind: this node's when it has one
      (the pairwise intersection is not applied), else the other's. */
  function Pick<C>(self: PredicateNode<C>, other: PredicateNode<C>, k: ConstraintKind): seq<Group<C>>
  {
    match Field(self, k)
    case Some(l) => [l]
    case None => match Field(other, k) case Some(r) => [r] case None => []
  }

  /** The groups kept for a list of kinds, in that order. */
  function KindRules<C>(self: PredicateNode<C>, other: PredicateNode<C>, kinds: seq<ConstraintKind>): seq<Group<C>>
  {
    if |kinds| == 0 then [] else KindRules(self, other, kinds[..|kinds| - 1]) + Pick(self, other, kinds[|kinds| - 1])
  }

  /** The basis of the result: the intersection of both, else whichever exists. */
  function MeetBases<C>(self: PredicateNode<C>, other: PredicateNode<C>, basisMeet: (C, C) -> Meet<C>): (m: Meet<Option<C>>)
    ensures m.Clash? <==> BasisOf(self).Some? && BasisOf(other).Some? && basisMeet(BasisOf(self).value, BasisOf(other).value).Clash?
  {
    match (BasisOf(self), BasisOf(other))
    case (Some(l), Some(r)) =>
      (match basisMeet(l, r)
       case Met(n) => Met(Some(n))
       case Clash(d) => Clash(Disjoint(d.kind, Some(d.l), Some(d.r))))
    case (Some(l), None) => Met(Some(l))
    case (None, r) => Met(r)
  }

  /** The rule list of the result: the basis first, then one group per kind. */
  function ResultRules<C>(basis: Option<C>, self: PredicateNode<C>, other: PredicateNode<C>): seq<Group<C>>
  {
    (if basis.Some? then [One(basis.value)] else []) + KindRules(self, other, KindNames)
  }

  /** `intersect`, as a function of the two nodes. */
  function IntersectResult<C, V>(self: PredicateNode<C>, other: PredicateNode<C>, basisMeet: (C, C) -> Meet<C>,
                                 isUnit: C -> bool, rule: C -> V, allows: (PredicateNode<C>, V) -> bool): (m: PredicateMeet<C>)
    ensures m.BasisDisjoint? <==> MeetBases(self, other, basisMeet).Clash?
    ensures m.BasisDisjoint? ==> m.disjoint == basisMeet(BasisOf(self).value, BasisOf(other).value).disjoint
    ensures m.Unassignable? ==>
      (BasisOf(self).Some? && isUnit(BasisOf(self).value) && !allows(other, rule(BasisOf(self).value))
       && m.unassignable == Disjoint(AssignabilityKind, other, BasisOf(self).value))
      || (!(BasisOf(self).Some? && isUnit(BasisOf(self).value))
          && BasisOf(other).Some? && isUnit(BasisOf(other).value) && !allows(self, rule(BasisOf(other).value))
          && m.unassignable == Disjoint(AssignabilityKind, self, BasisOf(other).value))
    ensures m.Intersected? ==>
      && (BasisOf(self).Some? && isUnit(BasisOf(self).value) ==> allows(other, rule(BasisOf(self).value)))
      && (BasisOf(other).Some? && isUnit(BasisOf(other).value) && !(BasisOf(self).Some? && isUnit(BasisOf(self).value))
          ==> allows(self, rule(BasisOf(other).value)))
      && m.node == PredicateNode(Listed(ResultRules(MeetBases(self, other, basisMeet).node, self, other)))
  {
    match MeetBases(self, other, basisMeet)
    case Clash(_) => BasisDisjoint(basisMeet(BasisOf(self).value, BasisOf(other).value).disjoint)
    case Met(basis) =>
      if BasisOf(self).Some? && isUnit(BasisOf(self).value) then
        if !allows(other, rule(BasisOf(self).value)) then Unassignable(Disjoint(AssignabilityKind, other, BasisOf(self).value))
        else Intersected(PredicateNode(Listed(ResultRules(basis, self, other))))
      else if BasisOf(other).Some? && isUnit(BasisOf(other).value) && !allows(self, rule(BasisOf(other).value)) then
        Unassignable(Disjoint(AssignabilityKind, self, BasisOf(other).value))
      else Intersected(PredicateNode(Listed(ResultRules(basis, self, other))))
  }

  /** The loop of `intersect`: one push per kind that either side has. */
  method CollectRules<C>(basis: Option<C>, self: PredicateNode<C>, other: PredicateNode<C>) returns (rules: seq<Group<C>>)
    ensures rules == ResultRules(basis, self, other)
  {
    rules := if basis.Some? then [One(basis.value)] else [];
    rules := PushKinds(rules, self, other, KindNames);
  }

  /** `for (const kind of kinds)`: this node's group of each kind, else the
      other's, pushed in kind order. */
  method PushKinds<C>(start: seq<Group<C>>, self: PredicateNode<C>, other: PredicateNode<C>, kinds: seq<ConstraintKind>)
    returns (rules: seq<Group<C>>)
    ensures rules == start + KindRules(self, other, kinds)
  {
    rules := start;
    var i := 0;
    while i < |kinds|
      invariant i <= |kinds|
      invariant rules == start + KindRules(self, other, kinds[..i])
    {
      var kind := kinds[i];
      var lNode := Field(self, kind);
      var rNode := Field(other, kind);
      KindRulesStep(self, other, kinds, i);
      if lNode.Some? {
        rules := rules + [lNode.value];
      } else if rNode.Some? {
        rules := rules + [rNode.value];
      }
      i := i + 1;
    }
    assert kinds[..|kinds|] == kinds;
  }

  lemma KindRulesStep<C>(self: PredicateNode<C>, other: PredicateNode<C>, kinds: seq<ConstraintKind>, i: nat)
    requires i < |kinds|
    ensures KindRules(self, other, kinds[..i + 1]) == KindRules(self, other, kinds[..i]) + Pick(self, other, kinds[i])
  {
    assert kinds[..i + 1][..i] == kinds[..i];
  }

  /** `intersect`. */
  method Intersect<C, V>(self: PredicateNode<C>, other: PredicateNode<C>, basisMeet: (C, C) -> Meet<C>,
                         isUnit: C -> bool, rule: C -> V, allows: (PredicateNode<C>, V) -> bool) returns (m: PredicateMeet<C>)
    ensures m == IntersectResult(self, other, basisMeet, isUnit, rule, allows)
  {
    var bases := MeetBases(self, other, basisMeet);
    if bases.Clash? {
      return BasisDisjoint(basisMeet(BasisOf(self).value, BasisOf(other).value).disjoint);
    }
    var basis := bases.node;
    if BasisOf(self).Some? && isUnit(BasisOf(self).value) {
      if !allows(other, rule(BasisOf(self).value)) {
        return Unassignable(Disjoint(AssignabilityKind, other, BasisOf(self).value));
      }
    } else if BasisOf(other).Some? && isUnit(BasisOf(other).value) {
      if !allows(self, rule(BasisOf(other).value)) {
        return Unassignable(Disjoint(AssignabilityKind, self, BasisOf(other).value));
      }
    }
    var rules := CollectRules(basis, self, other);
    m := Intersected(PredicateNode(Listed(rules)));
  }

  /** Every group `intersect` keeps for a list of kinds is this node's or the
      other's group of one of those kinds. */
  lemma {:induction false} KindRulesFromFields<C>(self: PredicateNode<C>, other: PredicateNode<C>, kinds: seq<ConstraintKind>, g: Group<C>)
    returns (k: ConstraintKind)
    requires g in KindRules(self, other, kinds)
    ensures k in kinds && (Field(self, k) == Some(g) || (Field(self, k).None? && Field(other, k) == Some(g)))
  {
    var init := kinds[..|kinds| - 1];
    if g in KindRules(self, other, init) {
      k := KindRulesFromFields(self, other, init, g);
    } else {
      k := kinds[|kinds| - 1];
    }
  }

  /** For every kind of the list, the group `Pick` chooses is kept. */
  lemma {:induction false} KindRulesKeepPick<C>(self: PredicateNode<C>, other: PredicateNode<C>, kinds: seq<ConstraintKind>, k: ConstraintKind)
    requires k in kinds
    ensures forall g :: g in Pick(self, other, k) ==> g in KindRules(self, other, kinds)
  {
    var init := kinds[..|kinds| - 1];
    if k != kinds[|kinds| - 1] {
      assert k in init by { assert kinds == init + [kinds[|kinds| - 1]]; }
      KindRulesKeepPick(self, other, init, k);
    }
  }

  /** The children of an intersection: its basis, children of this node, and
      children of the other; and every child this node holds under a kind
      other than the basis is kept, as is every child of the other node under
      a kind this node lacks. */
  lemma ResultChildren<C>(basis: Option<C>, self: PredicateNode<C>, other: PredicateNode<C>, c: C)
    ensures c in Flatten(ResultRules(basis, self, other)) ==>
      (basis.Some? && c == basis.value) || c in Children(self) || c in Children(other)
    ensures forall k :: k != Basis && Field(self, k).Some? && c in Members(Field(self, k).value) ==>
      c in Flatten(ResultRules(basis, self, other))
    ensures forall k :: k != Basis && Field(self, k).None? && Field(other, k).Some? && c in Members(Field(other, k).value) ==>
      c in Flatten(ResultRules(basis, self, other))
  {
    var rules := ResultRules(basis, self, other);
    var head: seq<Group<C>> := if basis.Some? then [One(basis.value)] else [];
    if c in Flatten(rules) {
      var g :| g in rules && c in Members(g);
      if g in KindRules(self, other, KindNames) {
        var k := KindRulesFromFields(self, other, KindNames, g);
        if Field(self, k) == Some(g) {
          FieldMembersAreChildren(self, k, c);
        } else {
          FieldMembersAreChildren(other, k, c);
        }
      }
    }
    forall k | k != Basis && (Field(self, k).Some? || Field(other, k).Some?)
      ensures forall g :: g in Pick(self, other, k) ==> g in rules
    {
      assert k in KindNames;
      KindRulesKeepPick(self, other, KindNames, k);
    }
  }

  /** A successful intersection keeps every child this node holds under a
      kind other than the basis; what the other node holds under such a kind
      is kept only where this node has no group of that kind. Every child of
      the result is the basis of the result or a child of one operand. */
  lemma IntersectKeepsThisSide<C, V>(self: PredicateNode<C>, other: PredicateNode<C>, basisMeet: (C, C) -> Meet<C>,
                                     isUnit: C -> bool, rule: C -> V, allows: (PredicateNode<C>, V) -> bool, c: C)
    ensures var m := IntersectResult(self, other, basisMeet, isUnit, rule, allows);
            m.Intersected? ==>
              && (forall k :: k != Basis && Field(self, k).Some? && c in Members(Field(self, k).value) ==> c in Children(m.node))
              && (forall k :: k != Basis && Field(self, k).None? && Field(other, k).Some? && c in Members(Field(other, k).value)
                    ==> c in Children(m.node))
              && (c in Children(m.node) ==>
                    (MeetBases(self, other, basisMeet).node.Some? && c == MeetBases(self, other, basisMeet).node.value)
                    || c in Children(self) || c in Children(other))
  {
    var m := IntersectResult(self, other, basisMeet, isUnit, rule, allows);
    if m.Intersected? {
      ResultChildren(MeetBases(self, other, basisMeet).node, self, other, c);
    }
  }

  /** The result of `intersect` is built from a list, so none of its named
      fields is set: it has no basis and no `unit`. */
  lemma IntersectResultHasNoFields<C, V>(self: PredicateNode<C>, other: PredicateNode<C>, basisMeet: (C, C) -> Meet<C>,
                                         isUnit: C -> bool, rule: C -> V, allows: (PredicateNode<C>, V) -> bool, k: ConstraintKind)
    ensures var m := IntersectResult(self, other, basisMeet, isUnit, rule, allows);
            m.Intersected? ==> Field(m.node, k).None? && BasisOf(m.node).None? && Unit(m.node, isUnit).None?
  {
  }

  // ------------------------------------------------------------ constrain

  /** `constrain(kind, input)`: the node built from the input is checked
      against the basis (`assertAllowsConstraint`, which may throw), then
      intersected with a node made from the list `[constraint]`; a Disjoint
      is thrown (`throwDisjoint` stands for `Disjoint.throw`). */
  method Constrain<C, I, V>(self: PredicateNode<C>, kind: ConstraintKind, input: I, create: (ConstraintKind, I) -> C,
                            assertAllows: (Option<C>, C) -> Option<Thrown>, basisMeet: (C, C) -> Meet<C>,
                            isUnit: C -> bool, rule: C -> V, allows: (PredicateNode<C>, V) -> bool,
                            throwDisjoint: PredicateMeet<C> -> Thrown) returns (r: Result<PredicateNode<C>>)
    ensures var c := create(kind, input);
            && (assertAllows(BasisOf(self), c).Some? ==> r == Err(assertAllows(BasisOf(self), c).value))
            && (assertAllows(BasisOf(self), c).None? ==>
                  var m := IntersectResult(self, PredicateNode(Listed([One(c)])), basisMeet, isUnit, rule, allows);
                  r == if m.Intersected? then Ok(m.node) else Err(throwDisjoint(m)))
  {
    var constraint := create(kind, input);
    var failure := assertAllows(BasisOf(self), constraint);
    if failure.Some? {
      return Err(failure.value);
    }
    var result := Intersect(self, PredicateNode(Listed([One(constraint)])), basisMeet, isUnit, rule, allows);
    if !result.Intersected? {
      return Err(throwDisjoint(result));
    }
    r := Ok(result.node);
  }

  /** Against a node built from a list, the intersection keeps only this
      node's basis and groups: whatever `constrain` returns holds no child
      that this node did not already hold. */
  lemma ConstrainAddsNothing<C, V>(self: PredicateNode<C>, c: C, basisMeet: (C, C) -> Meet<C>,
                                   isUnit: C -> bool, rule: C -> V, allows: (PredicateNode<C>, V) -> bool, x: C)
    ensures var m := IntersectResult(self, PredicateNode(Listed([One(c)])), basisMeet, isUnit, rule, allows);
            m.Intersected? && x in Children(m.node) ==> x in Children(self)
  {
    var other := PredicateNode(Listed([One(c)]));
    var m := IntersectResult(self, other, basisMeet, isUnit, rule, allows);
    var basis := MeetBases(self, other, basisMeet).node;
    if m.Intersected? && x in Children(m.node) {
      var g :| g in ResultRules(basis, self, other) && x in Members(g);
      if g in KindRules(self, other, KindNames) {
        var k := KindRulesFromFields(self, other, KindNames, g);
        FieldMembersAreChildren(self, k, x);
      } else {
        FieldMembersAreChildren(self, Basis, x);
      }
    }
  }

  /** On a node with no constraints, `constrain` returns an empty node, with
      the new constraint nowhere in it. */
  lemma ConstrainDropsConstraint<C, V>(c: C, basisMeet: (C, C) -> Meet<C>,
                                       isUnit: C -> bool, rule: C -> V, allows: (PredicateNode<C>, V) -> bool)
    ensures var m := IntersectResult(PredicateNode(Keyed([])), PredicateNode(Listed([One(c)])), basisMeet, isUnit, rule, allows);
            m == Intersected(PredicateNode(Listed([]))) && Children(m.node) == []
  {
    var self: PredicateNode<C> := PredicateNode(Keyed([]));
    var other := PredicateNode(Listed([One(c)]));
    KindRulesEmpty(self, other, KindNames);
  }

  /** Two operands with no fields keep no group. */
  lemma {:induction false} KindRulesEmpty<C>(self: PredicateNode<C>, other: PredicateNode<C>, kinds: seq<ConstraintKind>)
    requires forall k :: Field(self, k).None? && Field(other, k).None?
    ensures KindRules(self, other, kinds) == []
  {
    if |kinds| > 0 {
      KindRulesEmpty(self, other, kinds[..|kinds| - 1]);
    }
  }

  /** The group a new constraint of a kind forms. */
  function GroupOf<C>(kind: ConstraintKind, c: C): (g: Group<C>)
    ensures g.One? <==> Single(kind)
    ensures Members(g) == [c]
  {
    if Single(kind) then One(c) else Many([c])
  }

  /** `constrain` as evidently intended: the new constraint is passed as a
      `Constraints` object holding it under its kind. */
  function ConstrainIntended<C, I, V>(self: PredicateNode<C>, kind: ConstraintKind, input: I, create: (ConstraintKind, I) -> C,
                                      assertAllows: (Option<C>, C) -> Option<Thrown>, basisMeet: (C, C) -> Meet<C>,
                                      isUnit: C -> bool, rule: C -> V, allows: (PredicateNode<C>, V) -> bool,
                                      throwDisjoint: PredicateMeet<C> -> Thrown): (r: Result<PredicateNode<C>>)
    ensures assertAllows(BasisOf(self), create(kind, input)).Some? ==> r.Err?
  {
    var c := create(kind, input);
    match assertAllows(BasisOf(self), c)
    case Some(e) => Err(e)
    case None =>
      var m := IntersectResult(self, PredicateNode(Keyed([(kind, GroupOf(kind, c))])), basisMeet, isUnit, rule, allows);
      if m.Intersected? then Ok(m.node) else Err(throwDisjoint(m))
  }

  /** With the keyed operand, a constraint of a kind other than the basis that
      this node lacks is in the result whenever `constrain` succeeds. */
  lemma ConstrainIntendedAdds<C, I, V>(self: PredicateNode<C>, kind: ConstraintKind, input: I, create: (ConstraintKind, I) -> C,
                                       assertAllows: (Option<C>, C) -> Option<Thrown>, basisMeet: (C, C) -> Meet<C>,
                                       isUnit: C -> bool, rule: C -> V, allows: (PredicateNode<C>, V) -> bool,
                                       throwDisjoint: PredicateMeet<C> -> Thrown)
    requires kind != Basis && Field(self, kind).None?
    ensures var r := ConstrainIntended(self, kind, input, create, assertAllows, basisMeet, isUnit, rule, allows, throwDisjoint);
            r.Ok? ==> create(kind, input) in Children(r.value)
  {
    var c := create(kind, input);
    var other := PredicateNode(Keyed([(kind, GroupOf(kind, c))]));
    assert Field(other, kind) == Some(GroupOf(kind, c));
    assert c in Members(GroupOf(kind, c));
    IntersectKeepsThisSide(self, other, basisMeet, isUnit, rule, allows, c);
  }
}
