/** The narrow node of the src/nodes snapshot (src/nodes/narrow.ts): a list
    of user predicates, written out by name, that always compiles to
    `false` and intersects by collecting both sides' predicates. */
module NodesNarrow {
  import opened JsText

  /** A narrowing predicate: a host function, known by identity and name. */
  datatype Narrow = Narrow(functionId: nat, name: string)

  /** `listable<Narrow>`: one predicate or a list of them. */
  datatype Listable = OnePredicate(single: Narrow) | PredicateList(predicates: seq<Narrow>)

  datatype NarrowNode = NarrowNode(predicates: seq<Narrow>)

  /** `listFrom`: a single predicate as a one-element list. */
  function ListFrom(p: Listable): (list: seq<Narrow>)
    ensures p.OnePredicate? ==> list == [p.single]
    ensures p.PredicateList? ==> list == p.predicates
  {
    match p
    case OnePredicate(f) => [f]
    case PredicateList(fs) => fs
  }

  /** The constructor: the predicates, listed. */
  function New(p: Listable): (node: NarrowNode)
    ensures node.predicates == ListFrom(p)
  {
    NarrowNode(ListFrom(p))
  }

  /** The static `compile`: whatever the predicates, the text `false`. */
  function Compile(predicates: seq<Narrow>): (s: string)
    ensures s == "false"
  {
    "false"
  }

  function Names(fs: seq<Narrow>): (names: seq<string>)
    ensures |names| == |fs|
    ensures forall i :: 0 <= i < |fs| ==> names[i] == fs[i].name
  {
    seq(|fs|, i requires 0 <= i < |fs| => fs[i].name)
  }

  /** `toString`: "narrow <name>" for a single predicate, else "narrows "
      and the names separated by ", ". */
  function ToString(node: NarrowNode): (s: string)
  {
    var names := Names(node.predicates);
    if |names| == 1 then "narrow " + names[0] else "narrows " + Join(names, ", ")
  }

  /** The description names a lone predicate after "narrow ", and lists
      several, first to last, after "narrows ". */
  lemma ToStringShape(node: NarrowNode)
    ensures |node.predicates| == 1 ==> ToString(node) == "narrow " + node.predicates[0].name
    ensures |node.predicates| == 0 ==> ToString(node) == "narrows "
    ensures |node.predicates| >= 2 ==>
      ToString(node) == "narrows " + node.predicates[0].name + ", " + Join(Names(node.predicates[1..]), ", ")
  {
    var names := Names(node.predicates);
    if |names| >= 2 {
      assert names[1..] == Names(node.predicates[1..]);
    }
  }

  /** A node built from one predicate describes itself by that predicate. */
  lemma SingleNarrowDescription(f: Narrow)
    ensures ToString(New(OnePredicate(f))) == "narrow " + f.name
  {
    ToStringShape(New(OnePredicate(f)));
  }

  /** `intersectUniqueLists(l, r)`: the left list, then each element of the
      right list that the left list does not hold. */
  function IntersectUniqueLists(l: seq<Narrow>, r: seq<Narrow>): (u: seq<Narrow>)
    ensures |u| >= |l| && u[..|l|] == l
    ensures forall f :: f in u <==> f in l || f in r
    ensures forall i :: |l| <= i < |u| ==> u[i] !in l
    ensures (forall f :: f in r ==> f in l) ==> u == l
  {
    if |r| == 0 then l
    else
      var init := IntersectUniqueLists(l, r[..|r| - 1]);
      assert r == r[..|r| - 1] + [r[|r| - 1]];
      if r[|r| - 1] in l then init else init + [r[|r| - 1]]
  }

  /** `intersect`: a node of both sides' predicates, the left side's first,
      each predicate once when both sides list each once. */
  function Intersect(l: NarrowNode, r: NarrowNode): (n: NarrowNode)
    ensures n == New(PredicateList(IntersectUniqueLists(l.predicates, r.predicates)))
  {
    New(PredicateList(IntersectUniqueLists(l.predicates, r.predicates)))
  }

  predicate Distinct(fs: seq<Narrow>)
  {
    forall i, j :: 0 <= i < j < |fs| ==> fs[i] != fs[j]
  }

  /** Intersecting keeps the predicates of both sides and no others, the left
      side's in order and first; lists without repeats give a list without
      repeats. */
  lemma {:induction false} IntersectCollects(l: NarrowNode, r: NarrowNode)
    ensures forall f :: f in Intersect(l, r).predicates <==> f in l.predicates || f in r.predicates
    ensures Intersect(l, r).predicates[..|l.predicates|] == l.predicates
    ensures Distinct(l.predicates) && Distinct(r.predicates) ==> Distinct(Intersect(l, r).predicates)
  {
    if Distinct(l.predicates) && Distinct(r.predicates) {
      UniqueListsDistinct(l.predicates, r.predicates);
    }
  }

  lemma {:induction false} UniqueListsDistinct(l: seq<Narrow>, r: seq<Narrow>)
    requires Distinct(l) && Distinct(r)
    ensures Distinct(IntersectUniqueLists(l, r))
  {
    if |r| > 0 {
      var init := r[..|r| - 1];
      assert Distinct(init);
      UniqueListsDistinct(l, init);
      var u := IntersectUniqueLists(l, init);
      var last := r[|r| - 1];
      if last !in l {
        assert forall i :: 0 <= i < |init| ==> init[i] == r[i];
        assert last !in init;
      }
    }
  }

  /** A right side whose predicates the left side already holds adds
      nothing; in particular a node intersected with itself is unchanged. */
  lemma IntersectSubsumed(l: NarrowNode, r: NarrowNode)
    requires forall f :: f in r.predicates ==> f in l.predicates
    ensures Intersect(l, r) == l
    ensures Intersect(l, l) == l
  {
  }
}
