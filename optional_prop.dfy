/** The optional property constraint: when an object has the key, the value
    under it must satisfy a value node. Two optional properties on one key
    merge; a conflict between their values makes the value `never` rather
    than a Disjoint of the whole. */
module OptionalProp {
  import opened Wrappers
  import opened JsValue
  import opened Disjoints
  import opened Traversal

  datatype OptionalInner<V> = OptionalInner(key: PropKey, value: V)

  /** optional ∩ optional: null for different keys; for the same key the
      values are intersected and a value Disjoint becomes `never`. */
  function IntersectOptional<V>(l: OptionalInner<V>, r: OptionalInner<V>, meet: (V, V) -> Meet<V>, never: V)
    : (m: Option<OptionalInner<V>>)
    ensures m.None? <==> l.key != r.key
    ensures m.Some? ==> m.value.key == l.key
    ensures m.Some? && meet(l.value, r.value).Clash? ==> m.value.value == never
    ensures m.Some? && meet(l.value, r.value).Met? ==> m.value.value == meet(l.value, r.value).node
  {
    if l.key != r.key then None
    else
      match meet(l.value, r.value)
      case Clash(_) => Some(OptionalInner(l.key, never))
      case Met(v) => Some(OptionalInner(l.key, v))
  }

  /** `traverseAllows`: true when the key is absent, else the value's verdict. */
  predicate TraverseAllows<V>(node: OptionalInner<V>, data: Props, valueAllows: (V, Value) -> bool)
  {
    !(node.key in data) || valueAllows(node.value, data[node.key])
  }

  /** `traverseApply`: descends only into a present key and records nothing
      itself. */
  function TraverseApply<V>(node: OptionalInner<V>, data: Props, valueApply: (V, Value) -> seq<Problem>)
    : (problems: seq<Problem>)
    ensures node.key !in data ==> problems == []
    ensures node.key in data ==> problems == valueApply(node.value, data[node.key])
  {
    if node.key in data then valueApply(node.value, data[node.key]) else []
  }

  /** When the value's two traversals agree, so do the property's. */
  lemma TraversalsAgree<V>(node: OptionalInner<V>, data: Props,
                           valueAllows: (V, Value) -> bool, valueApply: (V, Value) -> seq<Problem>)
    requires forall v, x :: valueAllows(v, x) <==> valueApply(v, x) == []
    ensures TraverseAllows(node, data, valueAllows) <==> TraverseApply(node, data, valueApply) == []
  {
  }

  /** If value intersection is sound (a merged value admits what both
      admit, a Disjoint means nothing is admitted by both) and `never`
      admits nothing, the merged optional property admits exactly the
      objects both operands admit. */
  lemma IntersectOptionalIsIntersection<V>(l: OptionalInner<V>, r: OptionalInner<V>, meet: (V, V) -> Meet<V>,
                                           never: V, valueAllows: (V, Value) -> bool, data: Props)
    requires l.key == r.key
    requires forall x :: !valueAllows(never, x)
    requires meet(l.value, r.value).Met? ==>
      forall x :: valueAllows(meet(l.value, r.value).node, x) <==> valueAllows(l.value, x) && valueAllows(r.value, x)
    requires meet(l.value, r.value).Clash? ==> forall x :: !(valueAllows(l.value, x) && valueAllows(r.value, x))
    ensures TraverseAllows(IntersectOptional(l, r, meet, never).value, data, valueAllows)
        <==> TraverseAllows(l, data, valueAllows) && TraverseAllows(r, data, valueAllows)
  {
  }

  /** The description `<compiled key>?: <value>`; `compileKey` is not part
      of this model. */
  function Description<V>(node: OptionalInner<V>, compileKey: PropKey -> string, describe: V -> string)
    : (s: string)
    ensures s == compileKey(node.key) + "?: " + describe(node.value)
  {
    compileKey(node.key) + "?: " + describe(node.value)
  }
}
