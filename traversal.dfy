/** What the traversals of property constraints see and report: the keys
    of an object, its own properties, and the problems recorded in the
    traversal context. */
module Traversal {
  import opened Wrappers
  import opened JsValue

  /** A property key: a string or a symbol. */
  datatype PropKey = StringKey(name: string) | SymbolKey(symbolId: nat, description: Option<string>)

  /** The key as a host value. */
  function KeyValue(k: PropKey): (v: Value)
    ensures v.Str? || v.Sym?
  {
    match k
    case StringKey(name) => Str(name)
    case SymbolKey(id, description) => Sym(id, description)
  }

  /** The properties of an object operand: `key in data` is membership,
      `data[key]` the mapped value. */
  type Props = map<PropKey, Value>

  /** A problem recorded by `ctx.error`: a missing required key, or any
      other expectation that the data failed. */
  datatype Problem = MissingKey(key: PropKey) | Unmet(description: string)

  /** Whether a traversal only answers allowed-or-not, or collects problems. */
  datatype TraversalKind = Allows | Apply
}
