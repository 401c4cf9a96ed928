/** The node-kind taxonomy and the default serializer of inner values. */
module Define {
  import opened JsValue

  datatype NodeKind =
    | Union | Morph | Intersection
    | Unit | Proto | Domain
    | Divisor | Min | Max | MinLength | MaxLength | After | Before
    | Pattern | Predicate | Required | Optional | Index | Sequence

  /** The name of a kind, as it appears in ids and messages. */
  function KindName(k: NodeKind): string
  {
    match k
    case Union => "union"
    case Morph => "morph"
    case Intersection => "intersection"
    case Unit => "unit"
    case Proto => "proto"
    case Domain => "domain"
    case Divisor => "divisor"
    case Min => "min"
    case Max => "max"
    case MinLength => "minLength"
    case MaxLength => "maxLength"
    case After => "after"
    case Before => "before"
    case Pattern => "pattern"
    case Predicate => "predicate"
    case Required => "required"
    case Optional => "optional"
    case Index => "index"
    case Sequence => "sequence"
  }

  /** Distinct kinds have distinct names. */
  lemma KindNameInjective(a: NodeKind, b: NodeKind)
    requires KindName(a) == KindName(b)
    ensures a == b
  {
    assert KindName(a)[..2] == KindName(b)[..2];
  }

  const BasisKinds: seq<NodeKind> := [Unit, Proto, Domain]
  const BoundKinds: seq<NodeKind> := [Min, Max, MinLength, MaxLength, After, Before]
  const ClosedRefinementKinds: seq<NodeKind> := [Divisor] + BoundKinds
  const PropKinds: seq<NodeKind> := [Required, Optional, Index, Sequence]
  const OpenRefinementKinds: seq<NodeKind> := [Pattern, Predicate] + PropKinds
  const RefinementKinds: seq<NodeKind> := ClosedRefinementKinds + OpenRefinementKinds
  const SetKinds: seq<NodeKind> := [Union, Morph, Intersection]
  const TypeKinds: seq<NodeKind> := SetKinds + BasisKinds
  const ConstraintKinds: seq<NodeKind> := BasisKinds + RefinementKinds
  const NodeKinds: seq<NodeKind> := SetKinds + ConstraintKinds

  predicate IsBasis(k: NodeKind) { k in BasisKinds }
  predicate IsRefinement(k: NodeKind) { k in RefinementKinds }
  predicate IsType(k: NodeKind) { k in TypeKinds }
  predicate IsSet(k: NodeKind) { k in SetKinds }
  predicate IsConstraint(k: NodeKind) { k in ConstraintKinds }

  /** The position of a kind in `nodeKinds`, the order in which kinds are
      listed everywhere. */
  function KindIndex(k: NodeKind): (i: nat)
    ensures i < |NodeKinds| && NodeKinds[i] == k
  {
    match k
    case Union => 0
    case Morph => 1
    case Intersection => 2
    case Unit => 3
    case Proto => 4
    case Domain => 5
    case Divisor => 6
    case Min => 7
    case Max => 8
    case MinLength => 9
    case MaxLength => 10
    case After => 11
    case Before => 12
    case Pattern => 13
    case Predicate => 14
    case Required => 15
    case Optional => 16
    case Index => 17
    case Sequence => 18
  }

  /** The lists are exactly the ones the system declares, in order. */
  lemma KindListsAsDeclared()
    ensures BasisKinds == [Unit, Proto, Domain]
    ensures BoundKinds == [Min, Max, MinLength, MaxLength, After, Before]
    ensures RefinementKinds == [Divisor, Min, Max, MinLength, MaxLength, After, Before,
                                Pattern, Predicate, Required, Optional, Index, Sequence]
    ensures TypeKinds == [Union, Morph, Intersection, Unit, Proto, Domain]
    ensures ConstraintKinds == BasisKinds + RefinementKinds
    ensures NodeKinds == SetKinds + BasisKinds + RefinementKinds
  {
  }

  /** Every kind is listed exactly once in `nodeKinds`, so `KindIndex` is a
      bijection between kinds and the positions of `nodeKinds`. */
  lemma NodeKindsListEachKindOnce()
    ensures |NodeKinds| == 19
    ensures forall i, j :: 0 <= i < j < |NodeKinds| ==> NodeKinds[i] != NodeKinds[j]
    ensures forall k: NodeKind :: k in NodeKinds
  {
    forall i, j | 0 <= i < j < |NodeKinds| ensures NodeKinds[i] != NodeKinds[j] {
      assert KindIndex(NodeKinds[i]) == i && KindIndex(NodeKinds[j]) == j;
    }
    forall k: NodeKind ensures k in NodeKinds {
      assert NodeKinds[KindIndex(k)] == k;
    }
  }

  /** The set, basis and refinement groups partition the kinds. */
  lemma KindGroupsPartition(k: NodeKind)
    ensures IsSet(k) || IsBasis(k) || IsRefinement(k)
    ensures !(IsSet(k) && IsBasis(k)) && !(IsSet(k) && IsRefinement(k)) && !(IsBasis(k) && IsRefinement(k))
    ensures IsConstraint(k) <==> !IsSet(k)
    ensures IsType(k) <==> IsSet(k) || IsBasis(k)
  {
  }

  /** What `defaultValueSerializer` does with a value: strings, booleans,
      numbers and null are written inline; every other value is handed to
      `compileSerializedValue`. */
  datatype Serialization = Inline(json: Json) | ViaCompileSerializedValue(value: Value)

  /** The host value a JSON primitive denotes. */
  function JsonPrimitiveValue(j: Json): Value
  {
    match j
    case JNull => Null
    case JBool(b) => Bool(b)
    case JNum(n) => Num(n)
    case JStr(s) => Str(s)
    case _ => Undefined
  }

  function DefaultValueSerializer(v: Value): (r: Serialization)
    ensures r.Inline? <==> v.Str? || v.Bool? || v.Num? || v == Null
    ensures r.Inline? ==> JsonPrimitiveValue(r.json) == v && !r.json.JArr? && !r.json.JObj?
    ensures r.ViaCompileSerializedValue? ==> r.value == v
  {
    match v
    case Str(s) => Inline(JStr(s))
    case Bool(b) => Inline(JBool(b))
    case Num(n) => Inline(JNum(n))
    case Null => Inline(JNull)
    case _ => ViaCompileSerializedValue(v)
  }
}
