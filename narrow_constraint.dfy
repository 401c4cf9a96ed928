/** The narrow constraint of the schema snapshot
    (ark/schema/constraints/narrow.ts): a user predicate on the data. Narrows
    never merge with each other. */
module NarrowConstraint {
  import opened Wrappers
  import opened JsValue
  import IoCompile

  /** A narrow's rule is a host function value. */
  datatype NarrowSchema = NarrowSchema(rule: Value)

  /** A narrow input: the bare rule or the schema object. */
  datatype NarrowInput = BareRule(rule: Value) | NarrowObject(schema: NarrowSchema)

  /** Normalisation: a function is wrapped as `{rule: fn}`; a schema object is
      used as it is. */
  function Normalize(input: NarrowInput): (schema: NarrowSchema)
    requires input.BareRule? ==> input.rule.Fn?
    ensures input.BareRule? ==> schema.rule == input.rule
    ensures input.NarrowObject? ==> schema == input.schema
  {
    match input
    case BareRule(f) => NarrowSchema(f)
    case NarrowObject(s) => s
  }

  /** The kinds a basis of this snapshot may have (basis.js is not part of
      this model; these are the three it names). */
  datatype BasisKind = DomainBasis | PrototypeBasis | UnitBasis

  /** `applicableTo`: no basis, a domain or a prototype. */
  function ApplicableTo(basis: Option<BasisKind>): (ok: bool)
    ensures ok <==> basis.None? || basis.value != UnitBasis
  {
    basis.None? || basis.value == DomainBasis || basis.value == PrototypeBasis
  }

  /** The description: "valid according to " and the rule's name. */
  function Description(schema: NarrowSchema): (s: string)
    requires schema.rule.Fn?
    ensures |s| == 19 + |schema.rule.name|
    ensures s[..19] == "valid according to " && s[19..] == schema.rule.name
  {
    "valid according to " + schema.rule.name
  }

  /** `hash`: the rule is registered like any other function value. */
  function Hash(schema: NarrowSchema, register: Value -> string, serializePrimitive: Value -> string): (h: string)
    requires schema.rule.Fn?
    ensures h == register(schema.rule)
  {
    IoCompile.CompileSerializedValue(schema.rule, register, serializePrimitive)
  }

  /** `intersectSymmetric` (r another narrow) and `intersectAsymmetric` (r a
      constraint of another kind) both answer null, whatever the operands:
      a narrow never merges, so both constraints are kept. */
  function Intersect<N>(l: NarrowSchema, r: N): (merged: Option<NarrowSchema>)
    ensures merged.None?
  {
    None
  }
}
