/** The unit basis of the type snapshot (ark/schema/types/unit.ts): exactly
    one value, compared with `===`. */
module UnitType {
  import opened Wrappers
  import opened JsValue
  import opened JsExpr
  import opened Disjoints
  import opened Define
  import opened SchemaParse
  import IoCompile

  datatype UnitInner = UnitInner(unit: Value)

  /** `traverseAllows`: strict equality with the unit value. */
  predicate TraverseAllows(node: UnitInner, data: Value)
  {
    data == node.unit
  }

  /** unit ∩ unit: equal nodes meet in the shortcut of the general
      intersection; any two distinct units are a "unit" Disjoint. */
  function IntersectUnits(l: UnitInner, r: UnitInner): (m: Meet<UnitInner>)
    ensures m.Met? <==> l == r
    ensures m.Met? ==> m.node == l
    ensures m.Clash? ==> m.disjoint == Disjoint(UnitKind, l, r)
  {
    if l == r then Met(l) else Clash(Disjoint(UnitKind, l, r))
  }

  /** The "unit" Disjoint is justified: two distinct units admit no common
      value, and equal units admit the same values. */
  lemma IntersectUnitsIsIntersection(l: UnitInner, r: UnitInner, v: Value)
    ensures IntersectUnits(l, r).Clash? ==> !(TraverseAllows(l, v) && TraverseAllows(r, v))
    ensures IntersectUnits(l, r).Met? ==>
      (TraverseAllows(IntersectUnits(l, r).node, v) <==> TraverseAllows(l, v) && TraverseAllows(r, v))
  {
  }

  /** What unit ∩ (any other kind) yields. */
  datatype DefaultMeet<N> = UnitKept(node: UnitInner) | Unassignable(disjoint: Disjoint<Value, N>)

  /** unit ∩ (any other kind): the unit node when the other node allows its
      value, else an "assignability" Disjoint between the value and the node. */
  function IntersectDefault<N>(l: UnitInner, r: N, allows: (N, Value) -> bool): (m: DefaultMeet<N>)
    ensures m.UnitKept? <==> allows(r, l.unit)
    ensures m.UnitKept? ==> m.node == l
    ensures m.Unassignable? ==> m.disjoint == Disjoint(AssignabilityKind, l.unit, r)
  {
    if allows(r, l.unit) then UnitKept(l) else Unassignable(Disjoint(AssignabilityKind, l.unit, r))
  }

  /** The result admits exactly what both operands admit: the kept unit
      admits only its value, which the other node allows; an "assignability"
      Disjoint leaves no value admitted by both. */
  lemma IntersectDefaultIsIntersection<N>(l: UnitInner, r: N, allows: (N, Value) -> bool, v: Value)
    ensures IntersectDefault(l, r, allows).UnitKept? ==>
      (TraverseAllows(IntersectDefault(l, r, allows).node, v) <==> TraverseAllows(l, v) && allows(r, v))
    ensures IntersectDefault(l, r, allows).Unassignable? ==> !(TraverseAllows(l, v) && allows(r, v))
  {
  }

  /** `serializedValue`: the unit as emitted code writes it. */
  function SerializedValue(node: UnitInner, register: Value -> string, serializePrimitive: Value -> string): string
  {
    IoCompile.CompileSerializedValue(node.unit, register, serializePrimitive)
  }

  /** `condition` and `negatedCondition`: `===` and `!==` against the same
      serialised value. */
  function Condition(node: UnitInner, serialized: string): Expr
  {
    IsValue(node.unit, serialized)
  }

  function NegatedCondition(node: UnitInner, serialized: string): (e: Expr)
    ensures e == Negate(Condition(node, serialized))
  {
    IsNotValue(node.unit, serialized)
  }

  /** The emitted texts compare the argument with one serialised value, and
      the condition accepts exactly the unit value while its negation
      accepts exactly the rest. */
  lemma ConditionsMatchTraversal(node: UnitInner, arg: string, register: Value -> string,
                                 serializePrimitive: Value -> string, v: Value)
    ensures var serialized := SerializedValue(node, register, serializePrimitive);
            Print(Condition(node, serialized), arg) == arg + " === " + serialized
            && Print(NegatedCondition(node, serialized), arg) == arg + " !== " + serialized
            && (Eval(Condition(node, serialized), v) <==> TraverseAllows(node, v))
            && (Eval(NegatedCondition(node, serialized), v) <==> !TraverseAllows(node, v))
  {
  }

  /** `domain`: the domain of the unit value. */
  function UnitDomain(node: UnitInner): (d: Domain)
    ensures forall v :: TraverseAllows(node, v) ==> DomainOf(v) == d
  {
    DomainOf(node.unit)
  }

  /** The parser implementation of the kind: one key, `unit`, which keeps an
      `undefined` value. */
  const UnitImplementation: Implementation :=
    Implementation(map["unit" := KeyImplementation(true, false, None, None)], None, s => s, None)

  /** `{unit: undefined}` keeps its `undefined`, where a key without
      `preserveUndefined` would drop it. */
  lemma UndefinedUnitIsKept(env: Environment)
    ensures Collect(Unit, UnitImplementation, [("unit", UndefinedSchema)], env).Ok?
    ensures ("unit", UndefinedSchema) in Collect(Unit, UnitImplementation, [("unit", UndefinedSchema)], env).value.inner
    ensures var dropping := UnitImplementation.(keys := map["unit" := KeyImplementation(false, false, None, None)]);
            Collect(Unit, dropping, [("unit", UndefinedSchema)], env).Ok?
            && Collect(Unit, dropping, [("unit", UndefinedSchema)], env).value.inner == []
  {
    var es := [("unit", UndefinedSchema)];
    var dropping := UnitImplementation.(keys := map["unit" := KeyImplementation(false, false, None, None)]);
    CollectKeepsParsedEntries(Unit, UnitImplementation, es, env);
    assert KeptAs(UnitImplementation, es[0], es[0]);
    CollectKeepsParsedEntries(Unit, dropping, es, env);
  }
}
