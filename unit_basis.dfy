/** The unit node of the bases snapshot (ark/schema/bases/unit.ts). It
    admits exactly one value, as in the type snapshot, whose node and
    traversal it shares; what differs is that an own-kind intersection is
    always a Disjoint and that the primitive conditions are written from the
    node's json. */
module UnitBasis {
  import opened Wrappers
  import opened JsValue
  import opened JsExpr
  import opened Disjoints
  import opened Define
  import opened SchemaParse
  import opened UnitType

  /** `intersectOwnInner`: a "unit" Disjoint. The general intersection has
      already returned the node itself for two equal units, so this is only
      reached with distinct units. */
  function IntersectOwnInner(l: UnitInner, r: UnitInner): (d: Disjoint<UnitInner, UnitInner>)
    ensures d.kind == UnitKind && d.l == l && d.r == r
  {
    Disjoint(UnitKind, l, r)
  }

  /** Two distinct units never admit a common value, so the Disjoint is
      justified wherever it is reached. */
  lemma IntersectOwnInnerJustified(l: UnitInner, r: UnitInner, v: Value)
    requires l != r
    ensures IntersectOwnInner(l, r).kind == UnitKind
    ensures !(TraverseAllows(l, v) && TraverseAllows(r, v))
  {
  }

  /** The primitive attachments of a unit node. */
  datatype Primitive = Primitive(compiledCondition: string, compiledNegation: string)

  /** `primitive`: `===` and `!==` against the text of the node's json value
      under `unit` (`serializedJson`; how it is rendered is not part of this
      model). */
  function PrimitiveConditions(node: UnitInner, dataArg: string, serializedJson: string): (p: Primitive)
    ensures p.compiledCondition == Print(Condition(node, serializedJson), dataArg)
    ensures p.compiledNegation == Print(Negate(Condition(node, serializedJson)), dataArg)
  {
    Primitive(dataArg + " === " + serializedJson, dataArg + " !== " + serializedJson)
  }

  /** Both attachments compare the data with the same json text, differ only
      in the operator, and on every value exactly one of them holds. */
  lemma PrimitiveConditionsComplement(node: UnitInner, dataArg: string, serializedJson: string, v: Value)
    ensures var p := PrimitiveConditions(node, dataArg, serializedJson);
            p.compiledCondition[..|dataArg| + 5] == dataArg + " === "
            && p.compiledNegation[..|dataArg| + 5] == dataArg + " !== "
            && p.compiledCondition[|dataArg| + 5..] == p.compiledNegation[|dataArg| + 5..] == serializedJson
    ensures Eval(Condition(node, serializedJson), v) != Eval(Negate(Condition(node, serializedJson)), v)
    ensures Eval(Condition(node, serializedJson), v) <==> TraverseAllows(node, v)
  {
    NegateIsComplement(Condition(node, serializedJson), v);
  }

  /** `{unit: undefined}` collects to exactly the one entry `unit: undefined`. */
  lemma UndefinedUnitCollectsAlone(env: Environment)
    ensures Collect(Unit, UnitImplementation, [("unit", UndefinedSchema)], env)
         == Ok(Collected([("unit", UndefinedSchema)], [("unit", env.defaultSerializer(UndefinedSchema))],
                         [("unit", env.defaultSerializer(UndefinedSchema))], []))
  {
    var es := [("unit", UndefinedSchema)];
    SingleEntrySorted(es[0]);
    var j := env.defaultSerializer(UndefinedSchema);
    var next := Collected([("unit", UndefinedSchema)], [("unit", j)], [("unit", j)], []);
    UndefinedUnitStep(env);
    assert es[1..] == [];
    assert ProcessFrom(Unit, UnitImplementation, NothingCollected, es, env)
        == ProcessFrom(Unit, UnitImplementation, next, es[1..], env);
  }

  /** One entry is already in key order. */
  lemma SingleEntrySorted(e: Entry)
    ensures SortEntries([e]) == [e]
  {
    var sorted := SortEntries([e]);
    assert |sorted| == |multiset(sorted)| == 1;
    assert sorted[0] in multiset([e]);
  }

  /** The entry loop's one step on `unit: undefined`: the `unit` key keeps
      an undefined value, serialised by the default serializer. */
  lemma UndefinedUnitStep(env: Environment)
    ensures var j := env.defaultSerializer(UndefinedSchema);
      Step(Unit, UnitImplementation, NothingCollected, ("unit", UndefinedSchema), env)
        == Ok(Collected([("unit", UndefinedSchema)], [("unit", j)], [("unit", j)], []))
  {
    var d := UnitImplementation.keys["unit"];
    assert d == KeyImplementation(true, false, None, None);
    assert ParsedValue(d, UndefinedSchema) == UndefinedSchema && !Dropped(d, UndefinedSchema);
    assert !IsNodeList(UndefinedSchema);
    assert EntryChildren(UndefinedSchema) == [];
    var j := env.defaultSerializer(UndefinedSchema);
    assert EntryJson(d, UndefinedSchema, UndefinedSchema, env) == j;
    assert NothingCollected.inner + [("unit", UndefinedSchema)] == [("unit", UndefinedSchema)];
    assert NothingCollected.json + [("unit", j)] == [("unit", j)];
    assert NothingCollected.typeJson + [("unit", j)] == [("unit", j)];
    assert NothingCollected.children + [] == [];
  }
}
