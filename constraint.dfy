/** What every primitive constraint shares (ark/schema/constraints/constraint.ts):
    `traverseApply` records the constraint's description when its
    `traverseAllows` rejects the data, and `getBasisName` names a basis. */
module Constraint {
  import opened Wrappers
  import opened JsValue

  /** The errors `traverseApply` adds for one datum: the description once
      when the data is rejected, nothing otherwise. */
  function ApplyErrors<N>(node: N, data: Value, allows: (N, Value) -> bool, description: string)
    : (errors: seq<string>)
    ensures |errors| <= 1
    ensures errors == [] <==> allows(node, data)
    ensures errors != [] ==> errors[0] == description
  {
    if allows(node, data) then [] else [description]
  }

  /** The error list of a traversal context. */
  class TraversalContext {
    var errors: seq<string>

    constructor ()
      ensures errors == []
    {
      errors := [];
    }

    /** `ctx.error`: record one more error. */
    method Error(message: string)
      modifies this
      ensures errors == old(errors) + [message]
    {
      errors := errors + [message];
    }
  }

  /** `traverseApply`: `ctx.error(description)` exactly when `traverseAllows`
      is false. */
  method TraverseApply<N>(node: N, data: Value, allows: (N, Value) -> bool, description: string,
                          ctx: TraversalContext)
    modifies ctx
    ensures ctx.errors == old(ctx.errors) + ApplyErrors(node, data, allows, description)
  {
    if !allows(node, data) {
      ctx.Error(description);
    }
  }

  /** `getBasisName`: the basis's name, or "unknown" without a basis. */
  function GetBasisName<B>(basis: Option<B>, basisName: B -> string): (name: string)
    ensures basis.Some? ==> name == basisName(basis.value)
    ensures basis.None? ==> name == "unknown"
  {
    match basis
    case Some(b) => basisName(b)
    case None => "unknown"
  }
}
