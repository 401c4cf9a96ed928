/** The node base class (ark/schema/base.ts): `apply`, `includesMorph`, the
    lazily cached `in`/`out` views, `equals`, and intersection dispatch with
    its cache keyed by the pair of typeIds. */
module SchemaBase {
  import opened Wrappers
  import opened JsValue
  import opened Define
  import opened Disjoints

  /** A node as the base class sees it. */
  datatype BaseNode = BaseNode(
    kind: NodeKind,
    typeId: string,
    entries: seq<(string, EntryValue)>,
    children: seq<BaseNode>,
    includesMorph: bool,
    hasOpenIntersection: bool)

  /** The value of an inner entry: one child node, a list of them, or data. */
  datatype EntryValue =
    | ChildValue(node: BaseNode)
    | ChildList(nodes: seq<BaseNode>)
    | PlainValue(value: Value)

  /** What the implementation of a kind says about one of its keys. */
  datatype KeyDefinition = KeyDefinition(meta: bool, child: bool)

  type KeyTable = NodeKind -> map<string, KeyDefinition>

  /** Parsing an inner object of a kind into a node (`scope.parseNode`). */
  type Parser = (NodeKind, seq<(string, EntryValue)>) -> BaseNode

  // ------------------------------------------------------------ apply

  datatype ApplyResult = Passed(out: Value) | Failed(errors: seq<string>)

  /** `apply`: the data itself when traversal collected no error, else the
      errors; `collected` is what `traverseApply` recorded. */
  function Apply(data: Value, collected: seq<string>): (r: ApplyResult)
    ensures r.Passed? <==> |collected| == 0
    ensures r.Passed? ==> r.out == data
    ensures r.Failed? ==> r.errors == collected && |r.errors| > 0
  {
    if |collected| == 0 then Passed(data) else Failed(collected)
  }

  // ------------------------------------------------------------ includesMorph

  /** The field initialiser: a morph, or a node with a child that includes
      a morph. */
  function WithChildren(kind: NodeKind, typeId: string, entries: seq<(string, EntryValue)>,
                        children: seq<BaseNode>, hasOpenIntersection: bool): (n: BaseNode)
    ensures n.kind == kind && n.children == children
    ensures n.includesMorph <==> kind == Morph || exists i :: 0 <= i < |children| && children[i].includesMorph
  {
    BaseNode(kind, typeId, entries, children, kind == Morph || exists i :: 0 <= i < |children| && children[i].includesMorph,
             hasOpenIntersection)
  }

  /** Every node of the tree was built by the initialiser. */
  predicate WellBuilt(n: BaseNode)
  {
    (n.includesMorph <==> n.kind == Morph || exists i :: 0 <= i < |n.children| && n.children[i].includesMorph)
    && forall i :: 0 <= i < |n.children| ==> WellBuilt(n.children[i])
  }

  /** The node reached from `n` by following child indices. */
  function NodeAt(n: BaseNode, path: seq<nat>): Option<BaseNode>
    decreases |path|
  {
    if |path| == 0 then Some(n)
    else if path[0] < |n.children| then NodeAt(n.children[path[0]], path[1..])
    else None
  }

  predicate MorphAt(n: BaseNode, path: seq<nat>)
  {
    NodeAt(n, path).Some? && NodeAt(n, path).value.kind == Morph
  }

  /** `includesMorph` holds exactly when the node or some descendant is a
      morph. */
  lemma {:induction false} IncludesMorphIffMorphInSubtree(n: BaseNode)
    requires WellBuilt(n)
    ensures n.includesMorph <==> exists path :: MorphAt(n, path)
  {
    if n.includesMorph {
      if n.kind == Morph {
        assert MorphAt(n, []);
      } else {
        var i :| 0 <= i < |n.children| && n.children[i].includesMorph;
        IncludesMorphIffMorphInSubtree(n.children[i]);
        var p :| MorphAt(n.children[i], p);
        assert ([i] + p)[1..] == p;
        assert MorphAt(n, [i] + p);
      }
    }
    if exists path :: MorphAt(n, path) {
      var path :| MorphAt(n, path);
      if |path| > 0 {
        var c := n.children[path[0]];
        assert MorphAt(c, path[1..]);
        IncludesMorphIffMorphInSubtree(c);
      }
    }
  }

  // ------------------------------------------------------------ in / out

  datatype Io = In | Out

  /** Every entry key is declared for the node's kind and every child key
      holds nodes, throughout the tree. */
  predicate Declared(n: BaseNode, keys: KeyTable)
  {
    forall i :: 0 <= i < |n.entries| ==>
      n.entries[i].0 in keys(n.kind)
      && (keys(n.kind)[n.entries[i].0].child ==> !n.entries[i].1.PlainValue?)
      && match n.entries[i].1
         case ChildValue(c) => Declared(c, keys)
         case ChildList(cs) => forall j :: 0 <= j < |cs| ==> Declared(cs[j], keys)
         case PlainValue(_) => true
  }

  /** `getIo`: the node itself when it includes no morph; otherwise the
      node of the same kind parsed from its io inner. */
  function GetIo(n: BaseNode, io: Io, keys: KeyTable, parse: Parser): (r: BaseNode)
    requires Declared(n, keys)
    ensures !n.includesMorph ==> r == n
    decreases n, 1
  {
    if !n.includesMorph then n
    else parse(n.kind, IoInnerFrom(n, 0, io, keys, parse))
  }

  /** The io value of one non-meta entry: each child replaced by its own
      `in` or `out`. */
  function IoValue(n: BaseNode, i: nat, io: Io, keys: KeyTable, parse: Parser): EntryValue
    requires Declared(n, keys) && i < |n.entries|
    decreases n, 0, 0
  {
    var v := n.entries[i].1;
    if !keys(n.kind)[n.entries[i].0].child then v
    else match v
      case ChildList(cs) =>
        assert forall j :: 0 <= j < |cs| ==> Declared(cs[j], keys);
        ChildList(seq(|cs|, j requires 0 <= j < |cs| => GetIo(cs[j], io, keys, parse)))
      case ChildValue(c) => ChildValue(GetIo(c, io, keys, parse))
      case PlainValue(_) => v
  }

  /** The io inner built from the entries from index `i` on. */
  function IoInnerFrom(n: BaseNode, i: nat, io: Io, keys: KeyTable, parse: Parser): (r: seq<(string, EntryValue)>)
    requires Declared(n, keys) && i <= |n.entries|
    ensures |r| <= |n.entries| - i
    ensures forall e :: e in r ==> e.0 in keys(n.kind) && !keys(n.kind)[e.0].meta
    decreases n, 0, |n.entries| - i
  {
    if i == |n.entries| then []
    else
      var k := n.entries[i].0;
      (if keys(n.kind)[k].meta then [] else [(k, IoValue(n, i, io, keys, parse))])
      + IoInnerFrom(n, i + 1, io, keys, parse)
  }

  /** Every non-meta entry reappears in the io inner with its io value. */
  lemma {:induction false} IoInnerKeepsNonMetaEntries(n: BaseNode, i: nat, io: Io, keys: KeyTable, parse: Parser)
    requires Declared(n, keys) && i <= |n.entries|
    ensures forall j :: i <= j < |n.entries| && !keys(n.kind)[n.entries[j].0].meta ==>
              (n.entries[j].0, IoValue(n, j, io, keys, parse)) in IoInnerFrom(n, i, io, keys, parse)
    decreases |n.entries| - i
  {
    if i < |n.entries| {
      IoInnerKeepsNonMetaEntries(n, i + 1, io, keys, parse);
    }
  }

  /** The loop of `getIo` that builds the io inner. */
  method IoInner(n: BaseNode, io: Io, keys: KeyTable, parse: Parser) returns (inner: seq<(string, EntryValue)>)
    requires Declared(n, keys)
    ensures inner == IoInnerFrom(n, 0, io, keys, parse)
  {
    ghost var whole := IoInnerFrom(n, 0, io, keys, parse);
    inner := [];
    var i := 0;
    while i < |n.entries|
      invariant 0 <= i <= |n.entries|
      invariant inner + IoInnerFrom(n, i, io, keys, parse) == whole
    {
      var k := n.entries[i].0;
      var keyDefinition := keys(n.kind)[k];
      ghost var rest := IoInnerFrom(n, i + 1, io, keys, parse);
      IoInnerFromStep(n, i, io, keys, parse);
      if !keyDefinition.meta {
        var piece := [(k, IoValue(n, i, io, keys, parse))];
        AppendAssociates(inner, piece, rest);
        inner := inner + piece;
      }
      i := i + 1;
    }
    assert inner + [] == inner;
  }

  lemma AppendAssociates<T>(a: seq<T>, b: seq<T>, c: seq<T>)
    ensures (a + b) + c == a + (b + c)
  {
  }

  /** One entry of the io inner: a meta entry adds nothing, any other entry
      adds its io value under its key. */
  lemma IoInnerFromStep(n: BaseNode, i: nat, io: Io, keys: KeyTable, parse: Parser)
    requires Declared(n, keys) && i < |n.entries|
    ensures keys(n.kind)[n.entries[i].0].meta ==> IoInnerFrom(n, i, io, keys, parse) == IoInnerFrom(n, i + 1, io, keys, parse)
    ensures !keys(n.kind)[n.entries[i].0].meta ==>
              IoInnerFrom(n, i, io, keys, parse)
              == [(n.entries[i].0, IoValue(n, i, io, keys, parse))] + IoInnerFrom(n, i + 1, io, keys, parse)
  {
  }

  /** The lazily computed `in` and `out` views of one node. */
  class IoViews {
    const node: BaseNode
    const keys: KeyTable
    const parse: Parser
    var inCache: Option<BaseNode>
    var outCache: Option<BaseNode>

    ghost predicate Valid()
      reads this
    {
      Declared(node, keys)
      && (inCache.Some? ==> inCache.value == GetIo(node, In, keys, parse))
      && (outCache.Some? ==> outCache.value == GetIo(node, Out, keys, parse))
    }

    constructor(node: BaseNode, keys: KeyTable, parse: Parser)
      requires Declared(node, keys)
      ensures Valid()
      ensures this.node == node && this.keys == keys && this.parse == parse
      ensures inCache == None && outCache == None
    {
      this.node := node;
      this.keys := keys;
      this.parse := parse;
      inCache := None;
      outCache := None;
    }

    /** `getIo`, with its loop. */
    method ComputeIo(io: Io) returns (r: BaseNode)
      requires Declared(node, keys)
      ensures r == GetIo(node, io, keys, parse)
    {
      if !node.includesMorph {
        return node;
      }
      var inner := IoInner(node, io, keys, parse);
      r := parse(node.kind, inner);
    }

    /** The `in` getter: computed on first use, then served from the cache. */
    method GetIn() returns (r: BaseNode)
      requires Valid()
      modifies this
      ensures Valid()
      ensures r == GetIo(node, In, keys, parse)
      ensures inCache == Some(r) && outCache == old(outCache)
      ensures old(inCache).Some? ==> r == old(inCache).value
    {
      if inCache.None? {
        var computed := ComputeIo(In);
        inCache := Some(computed);
      }
      r := inCache.value;
    }

    /** The `out` getter. */
    method GetOut() returns (r: BaseNode)
      requires Valid()
      modifies this
      ensures Valid()
      ensures r == GetIo(node, Out, keys, parse)
      ensures outCache == Some(r) && inCache == old(inCache)
      ensures old(outCache).Some? ==> r == old(outCache).value
    {
      if outCache.None? {
        var computed := ComputeIo(Out);
        outCache := Some(computed);
      }
      r := outCache.value;
    }
  }

  // ------------------------------------------------------------ intersection

  /** `equals`: nodes are equal when their typeIds are. */
  predicate Equals(a: BaseNode, b: BaseNode)
  {
    a.typeId == b.typeId
  }

  /** A closed intersection result: a node, or the disjoint that proves the
      operands incompatible. */
  datatype Outcome = Yields(node: BaseNode) | Conflict(disjoint: Disjoint<BaseNode, BaseNode>)

  /** What the kind intersector for `(l, r)` answers. */
  datatype KernelResult =
    | NoResult
    | KernelInner(inner: seq<(string, EntryValue)>)
    | KernelDisjoint(disjoint: Disjoint<BaseNode, BaseNode>)

  /** What intersection dispatch calls out to: `leftOperandOf`, the kind
      intersector table of the left operand, and `scope.parseNode`. */
  datatype Operations = Operations(
    leftOperandOf: (BaseNode, BaseNode) -> BaseNode,
    intersector: (BaseNode, BaseNode) -> KernelResult,
    parse: Parser)

  /** The outcome seen from the other operand. */
  function Swapped(o: Outcome): (s: Outcome)
    ensures s.Yields? <==> o.Yields?
    ensures o.Yields? ==> s == o
    ensures o.Conflict? ==> s.disjoint.kind == o.disjoint.kind
                            && s.disjoint.l == o.disjoint.r && s.disjoint.r == o.disjoint.l
  {
    match o
    case Yields(_) => o
    case Conflict(d) => Conflict(d.Invert())
  }

  lemma SwappedTwiceIsIdentity(o: Outcome)
    ensures Swapped(Swapped(o)) == o
  {
  }

  /** `intersectClosed`: the receiver for equal nodes; otherwise the kind
      intersector of the canonical left operand, its disjoint turned to face
      the receiver, or the node parsed from its inner. */
  function IntersectClosed(a: BaseNode, b: BaseNode, ops: Operations): (r: Option<Outcome>)
    ensures Equals(a, b) ==> r == Some(Yields(a))
    ensures r.None? <==> !Equals(a, b) && ops.intersector(
              ops.leftOperandOf(a, b), if ops.leftOperandOf(a, b) == a then b else a).NoResult?
  {
    if Equals(a, b) then Some(Yields(a))
    else
      var l := ops.leftOperandOf(a, b);
      var thisIsLeft := l == a;
      var r := if thisIsLeft then b else a;
      match ops.intersector(l, r)
      case NoResult => None
      case KernelDisjoint(d) => Some(Conflict(if thisIsLeft then d else d.Invert()))
      case KernelInner(inner) => Some(Yields(ops.parse(l.kind, inner)))
  }

  /** `leftOperandOf` picks the same one of the two nodes whichever is the
      receiver. */
  predicate CanonicalOn(ops: Operations, a: BaseNode, b: BaseNode)
  {
    ops.leftOperandOf(a, b) == ops.leftOperandOf(b, a)
    && (ops.leftOperandOf(a, b) == a || ops.leftOperandOf(a, b) == b)
  }

  /** With a canonical left operand, swapping the operands of a closed
      intersection of unequal nodes swaps the outcome. */
  lemma IntersectClosedSwapped(a: BaseNode, b: BaseNode, ops: Operations)
    requires !Equals(a, b)
    requires CanonicalOn(ops, a, b)
    ensures IntersectClosed(b, a, ops).Some? <==> IntersectClosed(a, b, ops).Some?
    ensures IntersectClosed(a, b, ops).Some? ==>
              IntersectClosed(b, a, ops).value == Swapped(IntersectClosed(a, b, ops).value)
  {
  }

  /** If the intersector records its own operands as `(l, r)`, the disjoint
      of a closed intersection records the receiver on the left. */
  lemma IntersectClosedDisjointFacesReceiver(a: BaseNode, b: BaseNode, ops: Operations)
    requires !Equals(a, b)
    requires CanonicalOn(ops, a, b)
    requires forall l, r :: ops.intersector(l, r).KernelDisjoint? ==>
               ops.intersector(l, r).disjoint.l == l && ops.intersector(l, r).disjoint.r == r
    ensures IntersectClosed(a, b, ops).Some? && IntersectClosed(a, b, ops).value.Conflict? ==>
              IntersectClosed(a, b, ops).value.disjoint.l == a && IntersectClosed(a, b, ops).value.disjoint.r == b
  {
  }

  /** The inner of the intersection node formed when no closed result
      exists: a basis operand becomes `basis` and the other sits under its
      kind (as a one-element list when its intersection is open); two
      predicates form `{predicate: [this, other]}`. */
  function FallbackInner(a: BaseNode, b: BaseNode): (r: Option<seq<(string, EntryValue)>>)
    ensures r.None? <==> !IsBasis(a.kind) && !IsBasis(b.kind) && !(a.kind == Predicate && b.kind == Predicate)
    ensures r.Some? && !(a.kind == Predicate && b.kind == Predicate && !IsBasis(a.kind)) ==>
              exists basis, other :: ((basis == a && other == b) || (basis == b && other == a))
                && IsBasis(basis.kind)
                && r.value == [("basis", ChildValue(basis)), (KindName(other.kind), OperandValue(other))]
    ensures !IsBasis(a.kind) && !IsBasis(b.kind) && a.kind == Predicate && b.kind == Predicate ==>
              r == Some([("predicate", ChildList([a, b]))])
  {
    if IsBasis(a.kind) then Some([("basis", ChildValue(a)), (KindName(b.kind), OperandValue(b))])
    else if IsBasis(b.kind) then Some([("basis", ChildValue(b)), (KindName(a.kind), OperandValue(a))])
    else if a.kind == Predicate && b.kind == Predicate then Some([("predicate", ChildList([a, b]))])
    else None
  }

  function OperandValue(n: BaseNode): EntryValue
  {
    if n.hasOpenIntersection then ChildList([n]) else ChildValue(n)
  }

  /** With exactly one basis operand the fallback does not depend on the
      order of the operands. */
  lemma FallbackInnerOneBasisSymmetric(a: BaseNode, b: BaseNode)
    requires IsBasis(a.kind) != IsBasis(b.kind)
    ensures FallbackInner(a, b) == FallbackInner(b, a)
  {
  }

  function CacheKey(a: BaseNode, b: BaseNode): string
  {
    a.typeId + "&" + b.typeId
  }

  function NullIntersectionMessage(a: BaseNode, b: BaseNode): string
  {
    "Unexpected null intersection between non-constraints " + KindName(a.kind) + " and " + KindName(b.kind)
  }

  /** `intersect` when neither the cache nor the closed intersection has an
      answer. */
  function IntersectOpen(a: BaseNode, b: BaseNode, ops: Operations): (r: Result<Option<Outcome>>)
    ensures IsSet(a.kind) || IsSet(b.kind) ==> r == Err(InternalError(NullIntersectionMessage(a, b)))
    ensures r.Ok? && r.value.Some? ==>
              FallbackInner(a, b).Some? && r.value.value == Yields(ops.parse(Intersection, FallbackInner(a, b).value))
  {
    if IsSet(a.kind) || IsSet(b.kind) then Err(InternalError(NullIntersectionMessage(a, b)))
    else match FallbackInner(a, b)
      case None => Ok(None)
      case Some(inner) => Ok(Some(Yields(ops.parse(Intersection, inner))))
  }

  /** The intersection cache shared by all nodes. */
  class IntersectionCache {
    var entries: map<string, Outcome>

    constructor()
      ensures entries == map[]
    {
      entries := map[];
    }

    /** `intersect`: a cached answer if there is one; otherwise the closed
      intersection, stored under both orders of the key with the disjoint
      inverted for the swapped key; otherwise the open fallback. */
    method Intersect(a: BaseNode, b: BaseNode, ops: Operations) returns (r: Result<Option<Outcome>>)
      modifies this
      ensures CacheKey(a, b) in old(entries) ==>
                r == Ok(Some(old(entries)[CacheKey(a, b)])) && entries == old(entries)
      ensures CacheKey(a, b) !in old(entries) && IntersectClosed(a, b, ops).Some? ==>
                r == Ok(IntersectClosed(a, b, ops))
                && entries == old(entries)[CacheKey(a, b) := IntersectClosed(a, b, ops).value]
                                          [CacheKey(b, a) := Swapped(IntersectClosed(a, b, ops).value)]
      ensures CacheKey(a, b) !in old(entries) && IntersectClosed(a, b, ops).None? ==>
                r == IntersectOpen(a, b, ops) && entries == old(entries)
    {
      var cacheKey := CacheKey(a, b);
      if cacheKey in entries {
        return Ok(Some(entries[cacheKey]));
      }
      var closedResult := IntersectClosed(a, b, ops);
      if closedResult.Some? {
        entries := entries[cacheKey := closedResult.value];
        entries := entries[CacheKey(b, a) := Swapped(closedResult.value)];
        return Ok(closedResult);
      }
      r := IntersectOpen(a, b, ops);
    }
  }
}
