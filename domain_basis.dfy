/** The domain basis (ark/schema/nodes/domain.ts): data whose `domainOf` is
    a given domain. Only the domains with infinitely many values are bases;
    descriptions exist for all eight. */
module DomainBasis {
  import opened Wrappers
  import opened JsValue
  import opened JsExpr
  import opened Disjoints

  /** The domains a domain node may hold: those with a description in the
      non-enumerable table. */
  predicate IsNonEnumerable(d: Domain)
  {
    d in {DBigint, DNumber, DObject, DString, DSymbol}
  }

  datatype DomainInner = DomainInner(domain: Domain)

  /** A domain schema: the bare domain name or the normalised object form. */
  datatype DomainSchema = BareDomain(name: Domain) | DomainObject(inner: DomainInner)

  /** `normalize`: a bare domain d becomes `{domain: d}`. */
  function Normalize(schema: DomainSchema): (inner: DomainInner)
    ensures schema.BareDomain? ==> inner.domain == schema.name
    ensures schema.DomainObject? ==> inner == schema.inner
  {
    match schema
    case BareDomain(d) => DomainInner(d)
    case DomainObject(inner) => inner
  }

  /** `traverseAllows`: `domainOf(data) === this.domain`. */
  predicate TraverseAllows(node: DomainInner, data: Value)
  {
    DomainOf(data) == node.domain
  }

  /** domain ∩ domain, with the shortcut for equal nodes that the general
      intersection takes first: distinct domains give a "domain" Disjoint. */
  function Intersect(l: DomainInner, r: DomainInner): (m: Meet<DomainInner>)
    ensures m.Met? <==> l == r
    ensures m.Met? ==> m.node == l
    ensures m.Clash? ==> m.disjoint == Disjoint(DomainKind, l, r)
  {
    if l == r then Met(l) else Clash(Disjoint(DomainKind, l, r))
  }

  /** The Disjoint is justified: no value lies in two distinct domains. */
  lemma DistinctDomainsShareNoValue(l: DomainInner, r: DomainInner, v: Value)
    requires Intersect(l, r).Clash?
    ensures !(TraverseAllows(l, v) && TraverseAllows(r, v))
  {
  }

  /** `condition`: for "object", a non-null object or a function; for any
      other domain, a `typeof` test. */
  function Condition(node: DomainInner): Expr
  {
    if node.domain == DObject then
      Or(And(TypeofIs("object"), IsNotLiteral(NullLiteral)), TypeofIs("function"))
    else TypeofIs(DomainName(node.domain))
  }

  /** `negatedCondition`, in the form it is emitted. */
  function NegatedCondition(node: DomainInner): (e: Expr)
    ensures e == Negate(Condition(node))
  {
    if node.domain == DObject then
      And(Or(TypeofIsNot("object"), IsLiteral(NullLiteral)), TypeofIsNot("function"))
    else TypeofIsNot(DomainName(node.domain))
  }

  /** The emitted texts of both conditions for every other domain. */
  lemma TypeofConditionTexts(node: DomainInner, arg: string)
    requires node.domain != DObject
    ensures Print(Condition(node), arg) == "typeof " + arg + " === \"" + DomainName(node.domain) + "\""
    ensures Print(NegatedCondition(node), arg) == "typeof " + arg + " !== \"" + DomainName(node.domain) + "\""
  {
  }

  /** What the condition evaluates to, in closed form. */
  lemma EvalCondition(node: DomainInner, v: Value)
    ensures node.domain == DObject ==>
      (Eval(Condition(node), v) <==> (Typeof(v) == "object" && v != Null) || Typeof(v) == "function")
    ensures node.domain != DObject ==> (Eval(Condition(node), v) <==> Typeof(v) == DomainName(node.domain))
  {
    if node.domain == DObject {
      assert LiteralValue(NullLiteral) == Null;
      var objectTest := And(TypeofIs("object"), IsNotLiteral(NullLiteral));
      assert Eval(objectTest, v) <==> Typeof(v) == "object" && v != Null;
      assert Eval(Condition(node), v) <==> Eval(objectTest, v) || Typeof(v) == "function";
    }
  }

  /** The compiled condition accepts exactly the values `traverseAllows`
      accepts (for every domain but null, whose `typeof` is "object"), and
      the negated condition exactly the others. */
  lemma ConditionMatchesTraversal(node: DomainInner, v: Value)
    requires node.domain != DNull
    ensures Eval(Condition(node), v) <==> TraverseAllows(node, v)
    ensures Eval(NegatedCondition(node), v) <==> !TraverseAllows(node, v)
  {
    NegateIsComplement(Condition(node), v);
    EvalCondition(node, v);
    match node.domain
    case DObject =>
    case DUndefined =>
    case DBoolean =>
    case DNumber =>
    case DBigint =>
    case DString =>
    case DSymbol =>
  }

  /** The description of each domain: an article for the five bases, the
      bare name for the enumerable three. */
  function Description(d: Domain): (s: string)
    ensures !IsNonEnumerable(d) ==> s == DomainName(d)
    ensures IsNonEnumerable(d) ==> s == (if d == DObject then "an " else "a ") + DomainName(d)
  {
    match d
    case DBigint => "a bigint"
    case DNumber => "a number"
    case DObject => "an object"
    case DString => "a string"
    case DSymbol => "a symbol"
    case DBoolean => "boolean"
    case DNull => "null"
    case DUndefined => "undefined"
  }

  /** Every domain has its own description. */
  lemma DescriptionInjective(a: Domain, b: Domain)
    requires Description(a) == Description(b)
    ensures a == b
  {
  }
}
