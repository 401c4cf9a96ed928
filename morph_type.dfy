/** The morph node of the type snapshot (ark/schema/types/morph.ts): an input
    node, an optional output node and a list of transformation functions.
    Child nodes are of an arbitrary type N; intersecting two of them and
    testing a value against one belong to their own kinds and are parameters
    here. Morph functions are host functions, so their identities are
    values (`Fn`), compared with `===`. */
module MorphType {
  import opened Wrappers
  import opened JsValue
  import opened Disjoints

  /** The inner record of a morph node: `in`, `out` (absent when the schema
      gave none), `morph` and the meta `description`. */
  datatype MorphInner<N> = MorphInner(input: N, output: Option<N>, morph: seq<Value>, description: Option<string>)

  /** What intersecting a morph with another node yields: a morph inner or a
      Disjoint reported by a child. */
  datatype MorphMeet<N> = MorphMet(node: MorphInner<N>) | MorphClash(disjoint: Disjoint<N, N>)

  /** The `out` getter: the output node, or the `unknown` builtin when absent. */
  function Out<N>(node: MorphInner<N>, unknown: N): (o: N)
    ensures node.output.Some? ==> o == node.output.value
    ensures node.output.None? ==> o == unknown
  {
    if node.output.Some? then node.output.value else unknown
  }

  /** The morph-list test as written: some index of l's list holds a morph
      that differs from r's at that index, where an index past the end of r
      reads `undefined`, which no function equals. */
  predicate MorphListsConflictAsWritten(l: seq<Value>, r: seq<Value>)
  {
    exists i :: 0 <= i < |l| && DiffersAt(l, r, i)
  }

  /** `l[i] !== r[i]` for an index i of l. */
  predicate DiffersAt(l: seq<Value>, r: seq<Value>, i: int)
  {
    0 <= i < |l| && (i >= |r| || l[i] != r[i])
  }

  /** The morph-list test the check evidently intends: the two lists are not
      the same list of functions. */
  predicate MorphListsConflict(l: seq<Value>, r: seq<Value>)
  {
    l != r
  }

  /** The test as written lets a list through against any longer list that
      starts with it, and so depends on the order of the operands: [f]
      against [f, g] passes one way round and fails the other. */
  lemma MorphListsConflictAsWrittenIsAsymmetric(f: Value, g: Value)
    ensures !MorphListsConflictAsWritten([f], [f, g])
    ensures MorphListsConflictAsWritten([f, g], [f])
    ensures MorphListsConflict([f], [f, g]) && MorphListsConflict([f, g], [f])
  {
    assert DiffersAt([f, g], [f], 1);
  }

  /** The intended test is symmetric and reports every pair the test as
      written reports; the pairs it adds are exactly those where l is a
      proper prefix of r. */
  lemma MorphListsConflictRefinesAsWritten(l: seq<Value>, r: seq<Value>)
    ensures MorphListsConflict(l, r) <==> MorphListsConflict(r, l)
    ensures MorphListsConflictAsWritten(l, r) ==> MorphListsConflict(l, r)
    ensures MorphListsConflict(l, r) && !MorphListsConflictAsWritten(l, r) <==> |l| < |r| && r[..|l|] == l
  {
    if !MorphListsConflictAsWritten(l, r) {
      AgreeingListIsPrefix(l, r);
    }
    if |l| < |r| && r[..|l|] == l {
      assert l != r;
      forall i | 0 <= i < |l| ensures i < |r| && l[i] == r[i] {
        assert r[..|l|][i] == r[i];
      }
    }
  }

  /** When no index of l differs, l is a prefix of r. */
  lemma AgreeingListIsPrefix(l: seq<Value>, r: seq<Value>)
    requires !MorphListsConflictAsWritten(l, r)
    ensures |l| <= |r| && r[..|l|] == l
  {
    if |l| > |r| {
      assert DiffersAt(l, r, |r|);
    } else {
      forall i | 0 <= i < |l| ensures r[i] == l[i] {
        assert !DiffersAt(l, r, i);
      }
    }
  }

  /** The part of `intersectSymmetric` after the morph-list test: `in` ∩ `in`,
      then `out` ∩ `out` (both through the `out` getter); the first Disjoint
      is returned unchanged, else the new node has l's morph list and the two
      intersections. The new node is parsed from those three keys alone, so
      l's description does not carry over. */
  function IntersectChildren<N>(l: MorphInner<N>, r: MorphInner<N>, meet: (N, N) -> Meet<N>, unknown: N): (m: MorphMeet<N>)
    ensures meet(l.input, r.input).Clash? ==> m == MorphClash(meet(l.input, r.input).disjoint)
    ensures meet(l.input, r.input).Met? && meet(Out(l, unknown), Out(r, unknown)).Clash? ==>
      m == MorphClash(meet(Out(l, unknown), Out(r, unknown)).disjoint)
    ensures m.MorphMet? <==> meet(l.input, r.input).Met? && meet(Out(l, unknown), Out(r, unknown)).Met?
    ensures m.MorphMet? ==>
      m.node.morph == l.morph && m.node.input == meet(l.input, r.input).node
      && m.node.output == Some(meet(Out(l, unknown), Out(r, unknown)).node) && m.node.description.None?
  {
    match meet(l.input, r.input)
    case Clash(d) => MorphClash(d)
    case Met(input) =>
      match meet(Out(l, unknown), Out(r, unknown))
      case Clash(d) => MorphClash(d)
      case Met(output) => MorphMet(MorphInner(input, Some(output), l.morph, None))
  }

  const InvalidMorphIntersection: Thrown := ParseError("Invalid intersection of morphs")

  /** `intersectSymmetric` as written, with the one-sided morph-list test. */
  function IntersectSymmetricAsWritten<N>(l: MorphInner<N>, r: MorphInner<N>, meet: (N, N) -> Meet<N>, unknown: N): (m: Result<MorphMeet<N>>)
    ensures m.Err? <==> MorphListsConflictAsWritten(l.morph, r.morph)
    ensures m.Err? ==> m.error == InvalidMorphIntersection
    ensures m.Ok? ==> m.value == IntersectChildren(l, r, meet, unknown)
  {
    if MorphListsConflictAsWritten(l.morph, r.morph) then Err(InvalidMorphIntersection)
    else Ok(IntersectChildren(l, r, meet, unknown))
  }

  /** As written, a morph with the single function f met with a morph running
      f then g is accepted and the result keeps only f, dropping g, while the
      same two morphs met the other way round are a parse error. */
  lemma IntersectAsWrittenDependsOnOrder<N>(f: Value, g: Value, input: N, meet: (N, N) -> Meet<N>, unknown: N)
    requires meet(input, input) == Met(input) && meet(unknown, unknown) == Met(unknown)
    ensures var short := MorphInner(input, None, [f], None);
            var long := MorphInner(input, None, [f, g], None);
            IntersectSymmetricAsWritten(short, long, meet, unknown) == Ok(MorphMet(MorphInner(input, Some(unknown), [f], None)))
            && IntersectSymmetricAsWritten(long, short, meet, unknown) == Err(InvalidMorphIntersection)
  {
    MorphListsConflictAsWrittenIsAsymmetric(f, g);
  }

  /** `intersectSymmetric` with the morph lists compared as whole lists: the
      parse error when they differ, else the children's intersection. */
  function IntersectSymmetric<N>(l: MorphInner<N>, r: MorphInner<N>, meet: (N, N) -> Meet<N>, unknown: N): (m: Result<MorphMeet<N>>)
    ensures m.Err? <==> l.morph != r.morph
    ensures m.Err? ==> m.error == InvalidMorphIntersection
    ensures m.Ok? ==> m.value == IntersectChildren(l, r, meet, unknown)
  {
    if MorphListsConflict(l.morph, r.morph) then Err(InvalidMorphIntersection)
    else Ok(IntersectChildren(l, r, meet, unknown))
  }

  /** The corrected intersection fails or succeeds regardless of the order of
      its operands, and when it succeeds the result's morph list is the list
      both operands share; it rejects every pair the version as written
      rejects. */
  lemma IntersectSymmetricOrderIndependent<N>(l: MorphInner<N>, r: MorphInner<N>, meet: (N, N) -> Meet<N>, unknown: N)
    ensures IntersectSymmetric(l, r, meet, unknown).Err? <==> IntersectSymmetric(r, l, meet, unknown).Err?
    ensures IntersectSymmetricAsWritten(l, r, meet, unknown).Err? ==> IntersectSymmetric(l, r, meet, unknown).Err?
    ensures IntersectSymmetric(l, r, meet, unknown).Ok? && IntersectSymmetric(l, r, meet, unknown).value.MorphMet? ==>
      IntersectSymmetric(l, r, meet, unknown).value.node.morph == l.morph == r.morph
  {
    MorphListsConflictRefinesAsWritten(l.morph, r.morph);
  }

  /** `traverseAllows`, `traverseApply` and `compile` delegate to the `in`
      node; the `allows`, `apply` and `compile` of the child kind are
      parameters. */
  predicate TraverseAllows<N>(node: MorphInner<N>, data: Value, allows: (N, Value) -> bool)
  {
    allows(node.input, data)
  }

  function TraverseApply<N>(node: MorphInner<N>, data: Value, apply: (N, Value) -> seq<string>): seq<string>
  {
    apply(node.input, data)
  }

  function Compile<N>(node: MorphInner<N>, compile: N -> string): string
  {
    compile(node.input)
  }

  /** Checking a value against a morph looks only at its input: two morphs
      with the same `in` node admit, report and compile alike, whatever their
      morph lists, outputs and descriptions. */
  lemma CheckingUsesOnlyInput<N>(a: MorphInner<N>, b: MorphInner<N>, data: Value,
                                 allows: (N, Value) -> bool, apply: (N, Value) -> seq<string>, compile: N -> string)
    requires a.input == b.input
    ensures TraverseAllows(a, data, allows) <==> TraverseAllows(b, data, allows)
    ensures TraverseApply(a, data, apply) == TraverseApply(b, data, apply)
    ensures Compile(a, compile) == Compile(b, compile)
  {
  }

  /** When `meet` is an intersection of what child nodes admit, a morph meet
      admits exactly what both operands admit, and a Disjoint from the inputs
      means no value is admitted by both. */
  lemma IntersectSymmetricIsIntersection<N>(l: MorphInner<N>, r: MorphInner<N>, meet: (N, N) -> Meet<N>, unknown: N,
                                            allows: (N, Value) -> bool, data: Value)
    requires forall a, b, v :: meet(a, b).Met? ==> (allows(meet(a, b).node, v) <==> allows(a, v) && allows(b, v))
    requires forall a, b, v :: meet(a, b).Clash? ==> !(allows(a, v) && allows(b, v))
    ensures IntersectSymmetric(l, r, meet, unknown).Ok? && IntersectSymmetric(l, r, meet, unknown).value.MorphMet? ==>
      (TraverseAllows(IntersectSymmetric(l, r, meet, unknown).value.node, data, allows)
       <==> TraverseAllows(l, data, allows) && TraverseAllows(r, data, allows))
    ensures meet(l.input, r.input).Clash? ==> !(TraverseAllows(l, data, allows) && TraverseAllows(r, data, allows))
  {
  }

  /** `intersectRightwardInner`: the input met with a node of another kind;
      its Disjoint is returned unchanged, else only `in` changes. */
  function IntersectRightwardInner<N>(node: MorphInner<N>, r: N, meet: (N, N) -> Meet<N>): (m: MorphMeet<N>)
    ensures m.MorphClash? <==> meet(node.input, r).Clash?
    ensures m.MorphClash? ==> m.disjoint == meet(node.input, r).disjoint
    ensures m.MorphMet? ==> m.node == node.(input := meet(node.input, r).node)
  {
    match meet(node.input, r)
    case Clash(d) => MorphClash(d)
    case Met(input) => MorphMet(node.(input := input))
  }

  /** The result of a rightward meet admits exactly what the morph and the
      other node both admit, and keeps the morph list, the output and the
      description. */
  lemma IntersectRightwardInnerIsIntersection<N>(node: MorphInner<N>, r: N, meet: (N, N) -> Meet<N>,
                                                 allows: (N, Value) -> bool, data: Value)
    requires forall a, b, v :: meet(a, b).Met? ==> (allows(meet(a, b).node, v) <==> allows(a, v) && allows(b, v))
    requires forall a, b, v :: meet(a, b).Clash? ==> !(allows(a, v) && allows(b, v))
    ensures IntersectRightwardInner(node, r, meet).MorphMet? ==>
      var n := IntersectRightwardInner(node, r, meet).node;
      (TraverseAllows(n, data, allows) <==> TraverseAllows(node, data, allows) && allows(r, data))
      && n.morph == node.morph && n.output == node.output && n.description == node.description
    ensures IntersectRightwardInner(node, r, meet).MorphClash? ==> !(TraverseAllows(node, data, allows) && allows(r, data))
  {
  }

  /** The default description, "a morph from <in> to <out>", where an absent
      `out` reads "undefined" because the template sees the inner record, not
      the `out` getter. */
  function Description<N>(node: MorphInner<N>, describe: N -> string): (s: string)
    ensures |s| >= 17 + |describe(node.input)| && s[..13] == "a morph from "
    ensures s[13..13 + |describe(node.input)|] == describe(node.input)
    ensures node.output.None? ==> s[|s| - 13..] == " to undefined"
    ensures node.output.Some? ==> |s| >= 17 + |describe(node.input)| + |describe(node.output.value)|
    ensures node.output.Some? ==> s[|s| - 4 - |describe(node.output.value)|..] == " to " + describe(node.output.value)
  {
    var outText := if node.output.Some? then describe(node.output.value) else "undefined";
    "a morph from " + describe(node.input) + " to " + outText
  }
}
