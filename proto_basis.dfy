/** The proto basis (ark/schema/types/proto.ts): instances of a constructor.
    `instanceof` and `constructorExtends` belong to the host; they are
    parameters here, with the facts about them that the intersections rely
    on stated as preconditions of the lemmas. */
module ProtoBasis {
  import opened Wrappers
  import opened JsValue
  import opened Disjoints
  import DomainBasis

  /** A constructor: its identity, its `name`, and the name under which it
      is a known builtin (`getExactBuiltinConstructorName`), if it is one. */
  datatype Constructor = Constructor(id: nat, name: string, builtinName: Option<string>)

  datatype ProtoInner = ProtoInner(proto: Constructor)

  /** A proto schema: a bare constructor or the normalised object form. */
  datatype ProtoSchema = BareConstructor(c: Constructor) | ProtoObject(inner: ProtoInner)

  /** `normalize`: a constructor c becomes `{proto: c}`. */
  function Normalize(schema: ProtoSchema): (inner: ProtoInner)
    ensures schema.BareConstructor? ==> inner.proto == schema.c
    ensures schema.ProtoObject? ==> inner == schema.inner
  {
    match schema
    case BareConstructor(c) => ProtoInner(c)
    case ProtoObject(inner) => inner
  }

  /** The serialised `proto` key: the builtin's name for a known builtin,
      else what `defaultValueSerializer` gives for a function, which is a
      registry reference (`register`). */
  function SerializeProto(c: Constructor, register: Constructor -> string): (s: string)
    ensures c.builtinName.Some? ==> s == c.builtinName.value
    ensures c.builtinName.None? ==> s == register(c)
  {
    match c.builtinName
    case Some(n) => n
    case None => register(c)
  }

  /** What proto ∩ proto and proto ∩ domain yield. */
  datatype ProtoMeet = ProtoKept(node: ProtoInner) | ProtoClash(disjoint: Disjoint<ProtoInner, ProtoInner>)
  datatype ProtoDomainMeet =
    | ProtoOverDomain(node: ProtoInner)
    | DomainClash(disjoint: Disjoint<DomainBasis.DomainInner, DomainBasis.DomainInner>)

  /** proto ∩ proto: l when l's constructor extends r's, else r when r's
      extends l's, else a "proto" Disjoint. */
  function IntersectProtos(l: ProtoInner, r: ProtoInner, ctorExtends: (Constructor, Constructor) -> bool): (m: ProtoMeet)
    ensures m.ProtoKept? <==> ctorExtends(l.proto, r.proto) || ctorExtends(r.proto, l.proto)
    ensures m.ProtoKept? && ctorExtends(l.proto, r.proto) ==> m.node == l
    ensures m.ProtoKept? && !ctorExtends(l.proto, r.proto) ==> m.node == r
    ensures m.ProtoClash? ==> m.disjoint == Disjoint(ProtoKind, l, r)
  {
    if ctorExtends(l.proto, r.proto) then ProtoKept(l)
    else if ctorExtends(r.proto, l.proto) then ProtoKept(r)
    else ProtoClash(Disjoint(ProtoKind, l, r))
  }

  /** `traverseAllows`: `data instanceof proto`. */
  predicate TraverseAllows(node: ProtoInner, data: Value, instanceOf: (Value, Constructor) -> bool)
  {
    instanceOf(data, node.proto)
  }

  /** If `ctorExtends(a, b)` means every instance of a is an instance of b, and
      every value that is an instance of two constructors has one of them
      extending the other (prototype chains are linear), then proto ∩ proto
      admits exactly what both operands admit, and a "proto" Disjoint means
      nothing is an instance of both. */
  lemma IntersectProtosIsIntersection(l: ProtoInner, r: ProtoInner, ctorExtends: (Constructor, Constructor) -> bool,
                                      instanceOf: (Value, Constructor) -> bool, v: Value)
    requires forall a, b, x :: ctorExtends(a, b) && instanceOf(x, a) ==> instanceOf(x, b)
    requires forall a, b, x :: instanceOf(x, a) && instanceOf(x, b) ==> ctorExtends(a, b) || ctorExtends(b, a)
    ensures IntersectProtos(l, r, ctorExtends).ProtoKept? ==>
      (TraverseAllows(IntersectProtos(l, r, ctorExtends).node, v, instanceOf)
       <==> TraverseAllows(l, v, instanceOf) && TraverseAllows(r, v, instanceOf))
    ensures IntersectProtos(l, r, ctorExtends).ProtoClash? ==>
      !(TraverseAllows(l, v, instanceOf) && TraverseAllows(r, v, instanceOf))
  {
  }

  /** The domain of every proto node. */
  const ProtoDomain: Domain := DObject

  /** proto ∩ domain: the proto node when the domain is "object", else a
      "domain" Disjoint between the object domain and the domain node. */
  function IntersectDomain(l: ProtoInner, r: DomainBasis.DomainInner): (m: ProtoDomainMeet)
    ensures m.ProtoOverDomain? <==> r.domain == DObject
    ensures m.ProtoOverDomain? ==> m.node == l
    ensures m.DomainClash? ==> m.disjoint == Disjoint(DomainKind, DomainBasis.DomainInner(ProtoDomain), r)
  {
    if r.domain == DObject then ProtoOverDomain(l)
    else DomainClash(Disjoint(DomainKind, DomainBasis.DomainInner(ProtoDomain), r))
  }

  /** When instances are objects or functions, proto ∩ domain admits exactly
      what both operands admit, and its Disjoint means nothing is in both. */
  lemma IntersectDomainIsIntersection(l: ProtoInner, r: DomainBasis.DomainInner,
                                      instanceOf: (Value, Constructor) -> bool, v: Value)
    requires forall x, c :: instanceOf(x, c) ==> DomainOf(x) == ProtoDomain
    ensures IntersectDomain(l, r).ProtoOverDomain? ==>
      (TraverseAllows(IntersectDomain(l, r).node, v, instanceOf)
       <==> TraverseAllows(l, v, instanceOf) && DomainBasis.TraverseAllows(r, v))
    ensures IntersectDomain(l, r).DomainClash? ==>
      !(TraverseAllows(l, v, instanceOf) && DomainBasis.TraverseAllows(r, v))
  {
  }

  /** `condition`: `arg instanceof <serialised constructor>`. */
  function Condition(node: ProtoInner, arg: string, register: Constructor -> string): string
  {
    arg + " instanceof " + SerializeProto(node.proto, register)
  }

  /** `negatedCondition`: the condition negated as a whole. */
  function NegatedCondition(node: ProtoInner, arg: string, register: Constructor -> string): (s: string)
    ensures s == "!(" + Condition(node, arg, register) + ")"
  {
    "!(" + Condition(node, arg, register) + ")"
  }

  /** The description: the builtin's own description for a known builtin
      (`describeBuiltin` stands for `objectKindDescriptions`, not part of
      this model), else "an instance of <name>". */
  function Description(node: ProtoInner, describeBuiltin: string -> string): (s: string)
    ensures node.proto.builtinName.Some? ==> s == describeBuiltin(node.proto.builtinName.value)
    ensures node.proto.builtinName.None? ==>
      (|s| == 15 + |node.proto.name| && s[..15] == "an instance of " && s[15..] == node.proto.name)
  {
    match node.proto.builtinName
    case Some(kind) => describeBuiltin(kind)
    case None => "an instance of " + node.proto.name
  }

  /** Two user-defined constructors are described alike only when their
      names agree. */
  lemma DescriptionDeterminesName(a: ProtoInner, b: ProtoInner, describeBuiltin: string -> string)
    requires a.proto.builtinName.None? && b.proto.builtinName.None?
    requires Description(a, describeBuiltin) == Description(b, describeBuiltin)
    ensures a.proto.name == b.proto.name
  {
  }
}
