/** A disjoint: the record of why two constraints can never both hold. */
module Disjoints {
  datatype DisjointKind =
    | DomainKind | UnitKind | ProtoKind | RangeKind | PresenceKind
    | UnionKind | AssignabilityKind | ValueKind

  /** `Disjoint.from(kind, l, r)`: the conflicting left and right operands. */
  datatype Disjoint<L, R> = Disjoint(kind: DisjointKind, l: L, r: R)
  {
    /** `invert()`: the same conflict seen from the other operand. */
    function Invert(): (d: Disjoint<R, L>)
      ensures d.kind == kind && d.l == r && d.r == l
    {
      Disjoint(kind, r, l)
    }
  }

  /** What intersecting two nodes of one type yields: a node, or a Disjoint
      between them. */
  datatype Meet<N> = Met(node: N) | Clash(disjoint: Disjoint<N, N>)
}
