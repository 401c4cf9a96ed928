/** The morph node of the sets snapshot (ark/schema/sets/morph.ts). Its inner
    record, `out` getter, traversal and own-kind intersection are those of
    the type snapshot (MorphType); what it adds is `intersectRightward`, which
    dispatches on the kind of the right operand. */
module MorphSet {
  import opened Wrappers
  import opened JsValue
  import opened Disjoints
  import opened MorphType

  /** The right operand of `intersectRightward`: another morph, an
      intersection node, or a node of some other rightward kind. */
  datatype Operand<N> = MorphOperand(morph: MorphInner<N>) | IntersectionOperand(node: N) | OtherOperand(node: N)

  /** `intersectRightward`: a morph goes to `intersectOwnInner` (the own-kind
      intersection, with the morph lists compared as whole lists); any other
      node is met with the input only, keeping the rest of the inner record. */
  function IntersectRightward<N>(node: MorphInner<N>, r: Operand<N>, meet: (N, N) -> Meet<N>, unknown: N): (m: Result<MorphMeet<N>>)
    ensures r.MorphOperand? ==> m == IntersectSymmetric(node, r.morph, meet, unknown)
    ensures !r.MorphOperand? ==> m.Ok?
    ensures !r.MorphOperand? && meet(node.input, r.node).Clash? ==> m.value == MorphClash(meet(node.input, r.node).disjoint)
    ensures !r.MorphOperand? && meet(node.input, r.node).Met? ==>
      m.value == MorphMet(node.(input := meet(node.input, r.node).node))
  {
    match r
    case MorphOperand(other) => IntersectSymmetric(node, other, meet, unknown)
    case IntersectionOperand(n) => Ok(IntersectRightwardInner(node, n, meet))
    case OtherOperand(n) => Ok(IntersectRightwardInner(node, n, meet))
  }

  /** `intersectRightward` as written: a morph operand goes to
      `intersectOwnInner`, whose morph-list test is the index-wise one of
      `MorphListsConflictAsWritten`; any other operand is met as in
      `IntersectRightward`. */
  function IntersectRightwardAsWritten<N>(node: MorphInner<N>, r: Operand<N>, meet: (N, N) -> Meet<N>, unknown: N): (m: Result<MorphMeet<N>>)
    ensures r.MorphOperand? ==> m == IntersectSymmetricAsWritten(node, r.morph, meet, unknown)
    ensures !r.MorphOperand? ==> m == IntersectRightward(node, r, meet, unknown)
    ensures m.Err? ==> r.MorphOperand? && MorphListsConflictAsWritten(node.morph, r.morph.morph)
  {
    match r
    case MorphOperand(other) => IntersectSymmetricAsWritten(node, other, meet, unknown)
    case IntersectionOperand(n) => Ok(IntersectRightwardInner(node, n, meet))
    case OtherOperand(n) => Ok(IntersectRightwardInner(node, n, meet))
  }

  /** The two routings differ only on a morph operand whose morph list
      extends the receiver's: as written such a pair is met, keeping the
      receiver's shorter list, where the whole-list comparison raises the
      parse error. With morph lists [f] and [f, g] this is the case. */
  lemma RightwardAsWrittenAcceptsExtension<N>(node: MorphInner<N>, r: Operand<N>, meet: (N, N) -> Meet<N>, unknown: N)
    ensures IntersectRightwardAsWritten(node, r, meet, unknown) != IntersectRightward(node, r, meet, unknown) <==>
      r.MorphOperand? && |node.morph| < |r.morph.morph| && r.morph.morph[..|node.morph|] == node.morph
    ensures IntersectRightwardAsWritten(node, r, meet, unknown).Err? ==> IntersectRightward(node, r, meet, unknown).Err?
  {
    if r.MorphOperand? {
      MorphListsConflictRefinesAsWritten(node.morph, r.morph.morph);
    }
  }

  /** Morph lists [f] and [f, g]: met as written, an error when compared as
      whole lists. */
  lemma ShortMorphMeetsLongAsWritten<N>(f: Value, g: Value, input: N, meet: (N, N) -> Meet<N>, unknown: N)
    requires meet(input, input) == Met(input) && meet(unknown, unknown) == Met(unknown)
    ensures var short := MorphInner(input, None, [f], None);
            var long := MorphOperand(MorphInner(input, None, [f, g], None));
            IntersectRightwardAsWritten(short, long, meet, unknown) == Ok(MorphMet(MorphInner(input, Some(unknown), [f], None)))
            && IntersectRightward(short, long, meet, unknown) == Err(InvalidMorphIntersection)
  {
    IntersectAsWrittenDependsOnOrder(f, g, input, meet, unknown);
    assert [f, g] != [f];
  }

  /** What an operand admits: a morph admits what its input admits. */
  predicate OperandAllows<N>(r: Operand<N>, data: Value, allows: (N, Value) -> bool)
  {
    match r
    case MorphOperand(m) => TraverseAllows(m, data, allows)
    case IntersectionOperand(n) => allows(n, data)
    case OtherOperand(n) => allows(n, data)
  }

  /** Whatever the operand's kind, a successful rightward meet admits exactly
      what both operands admit, and a Disjoint between the inputs means no
      value is admitted by both (a Disjoint between two morphs' outputs says
      nothing about their inputs). Against a node that is not a morph the
      meet never fails and keeps the morph list, the output and the
      description. */
  lemma IntersectRightwardIsIntersection<N>(node: MorphInner<N>, r: Operand<N>, meet: (N, N) -> Meet<N>, unknown: N,
                                            allows: (N, Value) -> bool, data: Value)
    requires forall a, b, v :: meet(a, b).Met? ==> (allows(meet(a, b).node, v) <==> allows(a, v) && allows(b, v))
    requires forall a, b, v :: meet(a, b).Clash? ==> !(allows(a, v) && allows(b, v))
    ensures IntersectRightward(node, r, meet, unknown).Ok? && IntersectRightward(node, r, meet, unknown).value.MorphMet? ==>
      (TraverseAllows(IntersectRightward(node, r, meet, unknown).value.node, data, allows)
       <==> TraverseAllows(node, data, allows) && OperandAllows(r, data, allows))
    ensures !r.MorphOperand? && IntersectRightward(node, r, meet, unknown).value.MorphClash? ==>
      !(TraverseAllows(node, data, allows) && OperandAllows(r, data, allows))
    ensures r.MorphOperand? && meet(node.input, r.morph.input).Clash? ==>
      !(TraverseAllows(node, data, allows) && OperandAllows(r, data, allows))
    ensures !r.MorphOperand? && IntersectRightward(node, r, meet, unknown).value.MorphMet? ==>
      var n := IntersectRightward(node, r, meet, unknown).value.node;
      n.morph == node.morph && n.output == node.output && n.description == node.description
  {
    match r
    case MorphOperand(other) =>
      IntersectSymmetricIsIntersection(node, other, meet, unknown, allows, data);
    case IntersectionOperand(n) =>
      IntersectRightwardInnerIsIntersection(node, n, meet, allows, data);
    case OtherOperand(n) =>
      IntersectRightwardInnerIsIntersection(node, n, meet, allows, data);
  }

  /** `compileApply` and `compileAllows` emit the code of the input node. */
  function CompileApply<N>(node: MorphInner<N>, compileApply: N -> string): string
  {
    compileApply(node.input)
  }

  function CompileAllows<N>(node: MorphInner<N>, compileAllows: N -> string): string
  {
    compileAllows(node.input)
  }

  /** Compiled code depends only on the input: morphs with the same `in`
      compile alike whatever their morph lists and outputs. */
  lemma CompiledCodeUsesOnlyInput<N>(a: MorphInner<N>, b: MorphInner<N>, compileApply: N -> string, compileAllows: N -> string)
    requires a.input == b.input
    ensures CompileApply(a, compileApply) == CompileApply(b, compileApply)
    ensures CompileAllows(a, compileAllows) == CompileAllows(b, compileAllows)
  {
  }
}
