/** The intersection node of ark/schema/types/type.ts: the ordering of its
    constraints and the choice of its basis (its constructor), the check
    that every refinement applies to the basis (`assertValidRefinements`),
    the merge of one more constraint (`addConstraint`) and the parsing of
    an intersection schema into children (`parseIntersectionChildren`). */
module TypeIntersection {
  import opened Wrappers
  import opened JsValue
  import opened JsText
  import opened Define
  import opened Disjoints
  import opened Sorting

  /** A constraint node, identified by its kind and its reference id (which
      the source derives from all of its contents). */
  datatype Constraint = Constraint(kind: NodeKind, reference: string)

  /** A value of an intersection node's children record: one constraint, a
      list of constraints, or a base attribute such as a description. */
  datatype ChildValue<V> = Single(node: Constraint) | Several(nodes: seq<Constraint>) | Attribute(value: V)

  /** `c` is one of the constraints held by a child value. */
  predicate HeldBy<V>(c: Constraint, v: ChildValue<V>)
  {
    v == Single(c) || (v.Several? && c in v.nodes)
  }

  /** `Object.values(children).flat()`, keeping only constraint nodes. */
  function ConstraintsOf<V>(children: seq<(string, ChildValue<V>)>): (cs: seq<Constraint>)
    ensures forall c :: c in cs <==> exists i :: 0 <= i < |children| && HeldBy(c, children[i].1)
  {
    if |children| == 0 then []
    else
      var first := match children[0].1
        case Single(c) => [c]
        case Several(nodes) => nodes
        case Attribute(_) => [];
      var rest := ConstraintsOf(children[1..]);
      assert forall i :: 1 <= i < |children| ==> children[i] == children[1..][i - 1];
      first + rest
  }

  // --------------------------------------------------------------- ordering

  /** The constructor's sort order: by precedence of the kind, then by kind
      name, then by reference id. */
  predicate Precedes(precedence: NodeKind -> int, a: Constraint, b: Constraint)
  {
    || precedence(a.kind) < precedence(b.kind)
    || (precedence(a.kind) == precedence(b.kind) && StrLt(KindName(a.kind), KindName(b.kind)))
    || (precedence(a.kind) == precedence(b.kind) && a.kind == b.kind && StrLt(a.reference, b.reference))
  }

  function Order(precedence: NodeKind -> int): (Constraint, Constraint) -> bool
  {
    (a, b) => Precedes(precedence, a, b)
  }

  /** The order is a strict total order on constraints. */
  lemma PrecedesStrictTotal(precedence: NodeKind -> int, s: seq<Constraint>)
    ensures StrictTotalOn(s, Order(precedence))
  {
    var lt := Order(precedence);
    forall a, b | a != b ensures Precedes(precedence, a, b) || Precedes(precedence, b, a) {
      if a.kind != b.kind {
        if KindName(a.kind) == KindName(b.kind) { KindNameInjective(a.kind, b.kind); }
        StrLtTotal(KindName(a.kind), KindName(b.kind));
      } else {
        StrLtTotal(a.reference, b.reference);
      }
    }
    forall a, b | Precedes(precedence, a, b) ensures !Precedes(precedence, b, a) {
      StrLtIrreflexive(KindName(a.kind));
      if StrLt(KindName(a.kind), KindName(b.kind)) { StrLtAsymmetric(KindName(a.kind), KindName(b.kind)); }
      if StrLt(a.reference, b.reference) { StrLtAsymmetric(a.reference, b.reference); }
    }
    forall a, b, c | Precedes(precedence, a, b) && Precedes(precedence, b, c) ensures Precedes(precedence, a, c) {
      var ka, kb, kc := KindName(a.kind), KindName(b.kind), KindName(c.kind);
      if precedence(a.kind) == precedence(b.kind) == precedence(c.kind) {
        if StrLt(ka, kb) && StrLt(kb, kc) { StrLtTransitive(ka, kb, kc); }
        if StrLt(a.reference, b.reference) && StrLt(b.reference, c.reference) {
          StrLtTransitive(a.reference, b.reference, c.reference);
        }
      }
    }
  }

  /** The constructor's `sort` of the constraints. */
  function SortConstraints(precedence: NodeKind -> int, cs: seq<Constraint>): (sorted: seq<Constraint>)
    ensures multiset(sorted) == multiset(cs)
    ensures SortedBy(sorted, Order(precedence))
  {
    PrecedesStrictTotal(precedence, cs);
    InsertionSortSorted(cs, Order(precedence));
    InsertionSort(cs, Order(precedence))
  }

  /** Every basis kind comes before every refinement kind. */
  predicate BasesComeFirst(precedence: NodeKind -> int)
  {
    forall a, b :: IsBasis(a) && !IsBasis(b) ==> precedence(a) < precedence(b)
  }

  /** The sorted constraints, the basis (the first constraint when it is a
      basis) and the refinements (the rest). */
  datatype Ordered = Ordered(constraints: seq<Constraint>, basis: Option<Constraint>, refinements: seq<Constraint>)

  function OrderedConstraints(precedence: NodeKind -> int, cs: seq<Constraint>): (o: Ordered)
    ensures multiset(o.constraints) == multiset(cs) && SortedBy(o.constraints, Order(precedence))
    ensures o.constraints == (if o.basis.Some? then [o.basis.value] else []) + o.refinements
    ensures o.basis.Some? ==> IsBasis(o.basis.value.kind)
    ensures BasesComeFirst(precedence) ==>
              (o.basis.Some? <==> exists c :: c in cs && IsBasis(c.kind))
  {
    var sorted := SortConstraints(precedence, cs);
    if |sorted| > 0 && IsBasis(sorted[0].kind) then
      assert sorted == [sorted[0]] + sorted[1..];
      Ordered(sorted, Some(sorted[0]), sorted[1..])
    else
      assert BasesComeFirst(precedence) ==> forall c :: c in cs ==> !IsBasis(c.kind) by {
        if BasesComeFirst(precedence) {
          forall c | c in cs ensures !IsBasis(c.kind) {
            assert c in multiset(sorted);
            var j :| 0 <= j < |sorted| && sorted[j] == c;
            assert j == 0 || !Precedes(precedence, sorted[j], sorted[0]);
          }
        }
      }
      Ordered(sorted, None, sorted)
  }

  // ----------------------------------------------------------- refinements

  function RefinementMessage(refinement: Constraint, basis: Option<Constraint>, describe: Constraint -> string): string
  {
    "Refinement of kind " + KindName(refinement.kind) + " is not allowed by basis "
      + (if basis.Some? then describe(basis.value) else "undefined")
  }

  /** `assertValidRefinements`: the parse error for the first refinement that
      does not apply to the basis, if any. */
  function ValidateRefinements(basis: Option<Constraint>, refinements: seq<Constraint>,
                               applicableTo: (Constraint, Option<Constraint>) -> bool,
                               describe: Constraint -> string): (r: Option<Thrown>)
    ensures r.None? <==> forall i :: 0 <= i < |refinements| ==> applicableTo(refinements[i], basis)
    ensures r.Some? ==> (exists i :: 0 <= i < |refinements| && !applicableTo(refinements[i], basis)
                           && (forall j :: 0 <= j < i ==> applicableTo(refinements[j], basis))
                           && r.value == ParseError(RefinementMessage(refinements[i], basis, describe)))
  {
    if |refinements| == 0 then None
    else if !applicableTo(refinements[0], basis) then Some(ParseError(RefinementMessage(refinements[0], basis, describe)))
    else
      var rest := ValidateRefinements(basis, refinements[1..], applicableTo, describe);
      if rest.Some? then
        var i :| 0 <= i < |refinements[1..]| && !applicableTo(refinements[1..][i], basis)
                 && (forall j :: 0 <= j < i ==> applicableTo(refinements[1..][j], basis))
                 && rest.value == ParseError(RefinementMessage(refinements[1..][i], basis, describe));
        assert forall j :: 0 <= j < i + 1 ==> applicableTo(refinements[j], basis) by {
          forall j | 1 <= j < i + 1 ensures applicableTo(refinements[j], basis) {
            assert refinements[j] == refinements[1..][j - 1];
          }
        }
        assert refinements[i + 1] == refinements[1..][i];
        rest
      else
        assert forall i :: 1 <= i < |refinements| ==> refinements[i] == refinements[1..][i - 1];
        None
  }

  /** A constructed intersection node. */
  datatype IntersectionNode = IntersectionNode(
    constraints: seq<Constraint>,
    basis: Option<Constraint>,
    refinements: seq<Constraint>,
    defaultDescription: string)

  /** The constraints' descriptions joined by " and ", or "a value" for an
      intersection without constraints. */
  function DefaultDescription(cs: seq<Constraint>, describe: Constraint -> string): (d: string)
    ensures cs == [] ==> d == "a value"
    ensures |cs| == 1 ==> d == describe(cs[0])
  {
    if |cs| == 0 then "a value"
    else Join(seq(|cs|, i requires 0 <= i < |cs| => describe(cs[i])), " and ")
  }

  /** The `IntersectionNode` constructor. */
  function NewIntersection<V>(children: seq<(string, ChildValue<V>)>, precedence: NodeKind -> int,
                              applicableTo: (Constraint, Option<Constraint>) -> bool,
                              describe: Constraint -> string): (r: Result<IntersectionNode>)
    ensures r.Ok? <==> (var o := OrderedConstraints(precedence, ConstraintsOf(children));
                        forall i :: 0 <= i < |o.refinements| ==> applicableTo(o.refinements[i], o.basis))
    ensures r.Ok? ==> multiset(r.value.constraints) == multiset(ConstraintsOf(children))
    ensures r.Ok? ==> r.value.defaultDescription == DefaultDescription(r.value.constraints, describe)
    ensures r.Err? ==> r.error.ParseError?
  {
    var o := OrderedConstraints(precedence, ConstraintsOf(children));
    match ValidateRefinements(o.basis, o.refinements, applicableTo, describe)
    case Some(e) => Err(e)
    case None =>
      Ok(IntersectionNode(o.constraints, o.basis, o.refinements, DefaultDescription(o.constraints, describe)))
  }

  /** The children of a node holding one constraint under its kind's key. */
  function OnlyChild<V>(c: Constraint): (children: seq<(string, ChildValue<V>)>)
    ensures children == [(KindName(c.kind), Single(c))]
  {
    [(KindName(c.kind), Single(c))]
  }

  /** A bare basis is a valid intersection: with bases sorted first, a single
      basis is the node's basis and it has no refinements. */
  lemma SingleBasisNode<V>(c: Constraint, precedence: NodeKind -> int,
                           applicableTo: (Constraint, Option<Constraint>) -> bool, describe: Constraint -> string)
    requires IsBasis(c.kind) && BasesComeFirst(precedence)
    ensures var r := NewIntersection(OnlyChild<V>(c), precedence, applicableTo, describe);
      r.Ok? && r.value.basis == Some(c) && r.value.refinements == [] && r.value.constraints == [c]
  {
    var children := OnlyChild<V>(c);
    assert children[1..] == [];
    var cs := ConstraintsOf(children);
    assert cs == [c] + ConstraintsOf(children[1..]);
    var o := OrderedConstraints(precedence, cs);
    assert c in multiset(o.constraints);
  }

  // -------------------------------------------------------- addConstraint

  /** `constraint.intersectConstraint(other)`: no merge (null), a merged
      constraint, or a Disjoint. */
  datatype ConstraintMeet = Unmerged | Merged(node: Constraint) | Conflicting(disjoint: Disjoint<Constraint, Constraint>)

  /** An element of the list `addConstraint` builds: a constraint, or the
      intersection node itself (`this`), which the source appends when no
      element merged. */
  datatype Member = Member(node: Constraint) | Receiver

  datatype AddOutcome = Added(members: seq<Member>) | AddConflict(disjoint: Disjoint<Constraint, Constraint>)

  function MultipleResultsMessage(describe: Constraint -> string, node: Constraint): string
  {
    "Unexpectedly encountered multiple distinct intersection results for constraint " + describe(node)
  }

  /** The loop of `addConstraint` from index `i`, with the list built so far
      and the `includesConstraint` flag. */
  function AddFrom(c: Constraint, cs: seq<Constraint>, meet: (Constraint, Constraint) -> ConstraintMeet,
                   describe: Constraint -> string, i: nat, result: seq<Member>, includes: bool): Result<AddOutcome>
    requires i <= |cs|
    decreases |cs| - i
  {
    if i == |cs| then Ok(Added(if includes then result else result + [Receiver]))
    else match meet(c, cs[i])
      case Unmerged => AddFrom(c, cs, meet, describe, i + 1, result + [Member(cs[i])], includes)
      case Conflicting(d) => Ok(AddConflict(d))
      case Merged(x) =>
        if !includes then AddFrom(c, cs, meet, describe, i + 1, result + [Member(x)], true)
        else if Member(x) !in result then Err(InternalError(MultipleResultsMessage(describe, x)))
        else AddFrom(c, cs, meet, describe, i + 1, result, includes)
  }

  /** `addConstraint(c)` on an intersection node whose constraints are `cs`. */
  method AddConstraint(c: Constraint, cs: seq<Constraint>, meet: (Constraint, Constraint) -> ConstraintMeet,
                       describe: Constraint -> string) returns (r: Result<AddOutcome>)
    ensures r == AddFrom(c, cs, meet, describe, 0, [], false)
  {
    var result: seq<Member> := [];
    var includesConstraint := false;
    var i := 0;
    while i < |cs|
      invariant i <= |cs|
      invariant AddFrom(c, cs, meet, describe, i, result, includesConstraint) == AddFrom(c, cs, meet, describe, 0, [], false)
    {
      var elementResult := meet(c, cs[i]);
      if elementResult.Unmerged? {
        result := result + [Member(cs[i])];
      } else if elementResult.Conflicting? {
        return Ok(AddConflict(elementResult.disjoint));
      } else if !includesConstraint {
        result := result + [Member(elementResult.node)];
        includesConstraint := true;
      } else if Member(elementResult.node) !in result {
        return Err(InternalError(MultipleResultsMessage(describe, elementResult.node)));
      }
      i := i + 1;
    }
    if !includesConstraint {
      result := result + [Receiver];
    }
    return Ok(Added(result));
  }

  /** The merges before index `k` all agree on one constraint. */
  predicate MergesAgree(c: Constraint, cs: seq<Constraint>, meet: (Constraint, Constraint) -> ConstraintMeet, lo: nat, k: nat)
    requires lo <= k <= |cs|
  {
    forall p, q :: lo <= p < k && lo <= q < k && meet(c, cs[p]).Merged? && meet(c, cs[q]).Merged? ==>
      meet(c, cs[p]) == meet(c, cs[q])
  }

  lemma {:induction false} AddFromFirstConflict(c: Constraint, cs: seq<Constraint>, meet: (Constraint, Constraint) -> ConstraintMeet,
                                                describe: Constraint -> string, i: nat, k: nat, result: seq<Member>, includes: bool)
    requires i <= k < |cs| && meet(c, cs[k]).Conflicting?
    requires forall p :: i <= p < k ==> !meet(c, cs[p]).Conflicting?
    requires MergesAgree(c, cs, meet, i, k)
    requires includes ==> forall p :: i <= p < k && meet(c, cs[p]).Merged? ==> Member(meet(c, cs[p]).node) in result
    ensures AddFrom(c, cs, meet, describe, i, result, includes) == Ok(AddConflict(meet(c, cs[k]).disjoint))
    decreases k - i
  {
    if i < k {
      match meet(c, cs[i])
      case Unmerged =>
        AddFromFirstConflict(c, cs, meet, describe, i + 1, k, result + [Member(cs[i])], includes);
      case Merged(x) =>
        if !includes {
          AddFromFirstConflict(c, cs, meet, describe, i + 1, k, result + [Member(x)], true);
        } else {
          AddFromFirstConflict(c, cs, meet, describe, i + 1, k, result, includes);
        }
    }
  }

  /** `addConstraint` returns the first Disjoint an element yields, as long
      as the merges before it agree. */
  lemma AddConstraintFirstConflict(c: Constraint, cs: seq<Constraint>, meet: (Constraint, Constraint) -> ConstraintMeet,
                                   describe: Constraint -> string, k: nat)
    requires k < |cs| && meet(c, cs[k]).Conflicting?
    requires forall p :: 0 <= p < k ==> !meet(c, cs[p]).Conflicting?
    requires MergesAgree(c, cs, meet, 0, k)
    ensures AddFrom(c, cs, meet, describe, 0, [], false) == Ok(AddConflict(meet(c, cs[k]).disjoint))
  {
    AddFromFirstConflict(c, cs, meet, describe, 0, k, [], false);
  }

  lemma {:induction false} AddFromDistinctResults(c: Constraint, cs: seq<Constraint>, meet: (Constraint, Constraint) -> ConstraintMeet,
                                                  describe: Constraint -> string, i: nat, k: nat, x: Constraint,
                                                  result: seq<Member>, includes: bool)
    requires i <= k < |cs| && meet(c, cs[k]).Merged? && meet(c, cs[k]).node != x
    requires meet(c, cs[k]).node !in cs[..k]
    requires forall p :: i <= p < k ==> !meet(c, cs[p]).Conflicting?
    requires forall p :: i <= p < k && meet(c, cs[p]).Merged? ==> meet(c, cs[p]).node == x
    requires includes || exists p :: i <= p < k && meet(c, cs[p]).Merged?
    requires includes ==> Member(meet(c, cs[k]).node) !in result
    requires forall m :: m in result ==> m == Member(x) || exists p :: 0 <= p < i && m == Member(cs[p])
    ensures AddFrom(c, cs, meet, describe, i, result, includes).Err?
    ensures AddFrom(c, cs, meet, describe, i, result, includes).error.InternalError?
    decreases k - i
  {
    var y := meet(c, cs[k]).node;
    if i < k {
      var next := match meet(c, cs[i])
        case Unmerged => result + [Member(cs[i])]
        case _ => if !includes then result + [Member(x)] else result;
      assert Member(y) != Member(cs[i]) by { assert cs[i] in cs[..k]; }
      AddFromDistinctResults(c, cs, meet, describe, i + 1, k, x, next, includes || meet(c, cs[i]).Merged?);
    }
  }

  /** Two distinct merge results (the second being no constraint of the
      node) make `addConstraint` raise an internal error. */
  lemma AddConstraintDistinctResults(c: Constraint, cs: seq<Constraint>, meet: (Constraint, Constraint) -> ConstraintMeet,
                                     describe: Constraint -> string, j: nat, k: nat)
    requires j < k < |cs| && meet(c, cs[j]).Merged? && meet(c, cs[k]).Merged?
    requires meet(c, cs[j]) != meet(c, cs[k]) && meet(c, cs[k]).node !in cs[..k]
    requires forall p :: 0 <= p < k ==> !meet(c, cs[p]).Conflicting?
    requires forall p :: 0 <= p < k && p != j ==> !meet(c, cs[p]).Merged?
    ensures AddFrom(c, cs, meet, describe, 0, [], false).Err?
    ensures AddFrom(c, cs, meet, describe, 0, [], false).error.InternalError?
  {
    AddFromDistinctResults(c, cs, meet, describe, 0, k, meet(c, cs[j]).node, [], false);
  }

  /** The constraints as list members, in order. */
  function Members(cs: seq<Constraint>): (ms: seq<Member>)
    ensures |ms| == |cs| && forall k :: 0 <= k < |cs| ==> ms[k] == Member(cs[k])
  {
    if |cs| == 0 then [] else [Member(cs[0])] + Members(cs[1..])
  }

  lemma {:induction false} AddFromNoMerge(c: Constraint, cs: seq<Constraint>, meet: (Constraint, Constraint) -> ConstraintMeet,
                                          describe: Constraint -> string, i: nat, result: seq<Member>)
    requires i <= |cs|
    requires forall p :: i <= p < |cs| ==> meet(c, cs[p]).Unmerged?
    ensures AddFrom(c, cs, meet, describe, i, result, false) == Ok(Added(result + Members(cs[i..]) + [Receiver]))
    decreases |cs| - i
  {
    if i < |cs| {
      AddFromNoMerge(c, cs, meet, describe, i + 1, result + [Member(cs[i])]);
      assert cs[i..][1..] == cs[i + 1..];
      assert Members(cs[i..]) == [Member(cs[i])] + Members(cs[i + 1..]);
      assert result + [Member(cs[i])] + Members(cs[i + 1..]) == result + Members(cs[i..]);
    } else {
      assert Members(cs[i..]) == [];
      assert result + Members(cs[i..]) == result;
    }
  }

  /** When no element merges, every constraint is kept in order and, as the
      source is written, the intersection node itself is appended rather
      than the added constraint. */
  lemma AddConstraintNoMerge(c: Constraint, cs: seq<Constraint>, meet: (Constraint, Constraint) -> ConstraintMeet,
                             describe: Constraint -> string)
    requires forall p :: 0 <= p < |cs| ==> meet(c, cs[p]).Unmerged?
    ensures AddFrom(c, cs, meet, describe, 0, [], false) == Ok(Added(Members(cs) + [Receiver]))
  {
    AddFromNoMerge(c, cs, meet, describe, 0, []);
    assert [] + Members(cs[0..]) == Members(cs) by { assert cs[0..] == cs; }
  }

  lemma {:induction false} AddFromAgreeingMerges(c: Constraint, cs: seq<Constraint>, meet: (Constraint, Constraint) -> ConstraintMeet,
                                                 describe: Constraint -> string, m: Constraint, i: nat,
                                                 result: seq<Member>, includes: bool)
    requires i <= |cs|
    requires forall p :: i <= p < |cs| ==> meet(c, cs[p]).Unmerged? || meet(c, cs[p]) == Merged(m)
    requires includes ==> Member(m) in result
    requires includes || exists p :: i <= p < |cs| && meet(c, cs[p]) == Merged(m)
    requires Receiver !in result
    requires forall p :: 0 <= p < i && meet(c, cs[p]).Unmerged? ==> Member(cs[p]) in result
    ensures var r := AddFrom(c, cs, meet, describe, i, result, includes);
      && r.Ok? && r.value.Added? && Receiver !in r.value.members && Member(m) in r.value.members
      && forall p :: 0 <= p < |cs| && meet(c, cs[p]).Unmerged? ==> Member(cs[p]) in r.value.members
    decreases |cs| - i
  {
    if i < |cs| {
      if meet(c, cs[i]).Unmerged? {
        AddFromAgreeingMerges(c, cs, meet, describe, m, i + 1, result + [Member(cs[i])], includes);
      } else if !includes {
        AddFromAgreeingMerges(c, cs, meet, describe, m, i + 1, result + [Member(m)], true);
      } else {
        AddFromAgreeingMerges(c, cs, meet, describe, m, i + 1, result, includes);
      }
    }
  }

  /** When every merge yields the same constraint `m`, the result keeps every
      unmerged constraint, holds `m`, and does not hold the node itself. */
  lemma AddConstraintAgreeingMerges(c: Constraint, cs: seq<Constraint>, meet: (Constraint, Constraint) -> ConstraintMeet,
                                    describe: Constraint -> string, m: Constraint)
    requires forall p :: 0 <= p < |cs| ==> meet(c, cs[p]).Unmerged? || meet(c, cs[p]) == Merged(m)
    requires exists p :: 0 <= p < |cs| && meet(c, cs[p]) == Merged(m)
    ensures var r := AddFrom(c, cs, meet, describe, 0, [], false);
      && r.Ok? && r.value.Added? && Receiver !in r.value.members && Member(m) in r.value.members
      && forall p :: 0 <= p < |cs| && meet(c, cs[p]).Unmerged? ==> Member(cs[p]) in r.value.members
  {
    AddFromAgreeingMerges(c, cs, meet, describe, m, 0, [], false);
  }

  // ----------------------------------------------------- schema children

  /** How the key of an intersection schema is read: a base attribute, a key
      naming a reducible constraint kind (one node), an irreducible kind (a
      list of nodes), or none of these. */
  datatype KeyClass = BaseAttributeKey | ReducibleKey | IrreducibleKey | UnknownKey

  /** An intersection schema: a primitive or function, or an object with its
      own entries in order. */
  datatype IntersectionInput<V> = Primitive(value: Value) | Record(entries: seq<(string, V)>)

  /** The key tables and node constructors the parser consults. */
  datatype ChildParsers<!V> = ChildParsers(
    keyClass: string -> KeyClass,
    reducibleFrom: (string, V) -> Constraint,
    irreducibleFrom: (string, V) -> Constraint,
    listFrom: V -> seq<V>,
    domainFrom: string -> Constraint,
    protoFrom: Value -> Constraint)

  /** The child one entry of an object schema becomes, or the parse error for
      an unexpected key. */
  function ParseChild<V>(k: string, input: V, parsers: ChildParsers<V>): (r: Result<ChildValue<V>>)
    ensures r.Err? <==> parsers.keyClass(k) == UnknownKey
    ensures r.Err? ==> r.error == ParseError("Unexpected intersection schema key '" + k + "'")
    ensures parsers.keyClass(k) == BaseAttributeKey ==> r == Ok(Attribute(input))
    ensures parsers.keyClass(k) == ReducibleKey ==> r == Ok(Single(parsers.reducibleFrom(k, input)))
    ensures parsers.keyClass(k) == IrreducibleKey ==>
              (&& r.Ok? && r.value.Several?
               && |r.value.nodes| == |parsers.listFrom(input)|
               && forall i :: 0 <= i < |r.value.nodes| ==> r.value.nodes[i] == parsers.irreducibleFrom(k, parsers.listFrom(input)[i]))
  {
    match parsers.keyClass(k)
    case BaseAttributeKey => Ok(Attribute(input))
    case ReducibleKey => Ok(Single(parsers.reducibleFrom(k, input)))
    case IrreducibleKey =>
      var inputs := parsers.listFrom(input);
      Ok(Several(seq(|inputs|, i requires 0 <= i < |inputs| => parsers.irreducibleFrom(k, inputs[i]))))
    case UnknownKey => Err(ParseError("Unexpected intersection schema key '" + k + "'"))
  }

  /** `parseIntersectionObjectSchema`: each entry in order, stopping at the
      first unexpected key. */
  function ParseObjectChildren<V>(entries: seq<(string, V)>, parsers: ChildParsers<V>): (r: Result<seq<(string, ChildValue<V>)>>)
    ensures r.Ok? <==> forall i :: 0 <= i < |entries| ==> parsers.keyClass(entries[i].0) != UnknownKey
    ensures r.Ok? ==>
              (&& |r.value| == |entries|
               && forall i :: 0 <= i < |entries| ==>
                    r.value[i].0 == entries[i].0 && Ok(r.value[i].1) == ParseChild(entries[i].0, entries[i].1, parsers))
    ensures r.Err? ==>
              (exists i :: 0 <= i < |entries| && parsers.keyClass(entries[i].0) == UnknownKey
                 && (forall j :: 0 <= j < i ==> parsers.keyClass(entries[j].0) != UnknownKey)
                 && r.error == ParseError("Unexpected intersection schema key '" + entries[i].0 + "'"))
  {
    if |entries| == 0 then Ok([])
    else
      var (k, input) := entries[0];
      match ParseChild(k, input, parsers)
      case Err(e) => Err(e)
      case Ok(child) =>
        var rest := ParseObjectChildren(entries[1..], parsers);
        assert forall i :: 1 <= i < |entries| ==> entries[i] == entries[1..][i - 1];
        match rest
        case Err(e) =>
          var i :| 0 <= i < |entries[1..]| && parsers.keyClass(entries[1..][i].0) == UnknownKey
                   && (forall j :: 0 <= j < i ==> parsers.keyClass(entries[1..][j].0) != UnknownKey)
                   && e == ParseError("Unexpected intersection schema key '" + entries[1..][i].0 + "'");
          assert forall j :: 0 <= j < i + 1 ==> parsers.keyClass(entries[j].0) != UnknownKey;
          Err(e)
        case Ok(children) => Ok([(k, child)] + children)
  }

  const NullObjectMessage := "Cannot convert undefined or null to object"

  /** `parseIntersectionChildren`: a string names a domain, a function is a
      prototype, an object is read entry by entry; any other value is
      rejected with its domain named. */
  function ParseIntersectionChildren<V>(schema: IntersectionInput<V>, parsers: ChildParsers<V>): (r: Result<seq<(string, ChildValue<V>)>>)
    ensures schema.Primitive? && schema.value.Str? ==> r == Ok([("domain", Single(parsers.domainFrom(schema.value.s)))])
    ensures schema.Primitive? && schema.value.Fn? ==> r == Ok([("proto", Single(parsers.protoFrom(schema.value)))])
    ensures schema.Primitive? && schema.value.Obj? ==> r == Ok([])
    ensures schema.Primitive? && schema.value == Null ==> r == Err(HostTypeError(NullObjectMessage))
    ensures schema.Primitive? && DomainOf(schema.value) !in {DString, DObject, DNull} ==>
              r == Err(ParseError(DomainName(DomainOf(schema.value)) + " is not a valid intersection schema input."))
    ensures schema.Record? ==> r == ParseObjectChildren(schema.entries, parsers)
  {
    match schema
    case Record(entries) => ParseObjectChildren(entries, parsers)
    case Primitive(v) =>
      if Typeof(v) == "string" then Ok([("domain", Single(parsers.domainFrom(v.s)))])
      else if Typeof(v) == "function" then Ok([("proto", Single(parsers.protoFrom(v)))])
      else if Typeof(v) == "object" then (if v == Null then Err(HostTypeError(NullObjectMessage)) else Ok([]))
      else Err(ParseError(DomainName(DomainOf(v)) + " is not a valid intersection schema input."))
  }
}
