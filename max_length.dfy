/** The maxLength refinement: strings and arrays no longer than a bound,
    and its intersections with another maxLength (the stricter bound wins)
    and with a minLength (a conflict, an exact length, or both kept). */
module MaxLength {
  import opened Wrappers
  import opened JsText
  import opened Disjoints

  /** A length bound: maxLength or minLength, with its rule and whether the
      rule itself is excluded. */
  datatype LengthBound =
    | MaxLengthBound(rule: int, exclusive: bool)
    | MinLengthBound(rule: int, exclusive: bool)

  /** A maxLength schema: a bare number or the normalised object form. */
  datatype MaxLengthSchema = BareMaxLength(n: int) | MaxLengthObject(rule: int, exclusive: bool)

  /** `normalize`: a bare number n becomes `{rule: n}`, which is inclusive. */
  function Normalize(schema: MaxLengthSchema): (b: LengthBound)
    ensures b.MaxLengthBound?
    ensures schema.BareMaxLength? ==> b.rule == schema.n && !b.exclusive
    ensures schema.MaxLengthObject? ==> b.rule == schema.rule && b.exclusive == schema.exclusive
  {
    match schema
    case BareMaxLength(n) => MaxLengthBound(n, false)
    case MaxLengthObject(rule, exclusive) => MaxLengthBound(rule, exclusive)
  }

  /** What a bound admits, over the real numbers the rules are compared on. */
  predicate Admits(b: LengthBound, x: real)
  {
    match b
    case MaxLengthBound(rule, exclusive) => if exclusive then x < rule as real else x <= rule as real
    case MinLengthBound(rule, exclusive) => if exclusive then x > rule as real else x >= rule as real
  }

  /** `traverseAllows`: `length < rule` when exclusive, else `length <= rule`. */
  predicate TraverseAllows(max: LengthBound, length: nat)
    requires max.MaxLengthBound?
  {
    if max.exclusive then length < max.rule else length <= max.rule
  }

  /** The check admits exactly the lengths the bound admits. */
  lemma TraverseAllowsAdmits(max: LengthBound, length: nat)
    requires max.MaxLengthBound?
    ensures TraverseAllows(max, length) <==> Admits(max, length as real)
  {
  }

  /** The description: "less than length n" when exclusive, else "at most
      length n". */
  function Description(max: LengthBound): (s: string)
    requires max.MaxLengthBound?
    ensures max.exclusive ==> s == "less than length " + IntToDecimal(max.rule)
    ensures !max.exclusive ==> s == "at most length " + IntToDecimal(max.rule)
  {
    if max.exclusive then "less than length " + IntToDecimal(max.rule)
    else "at most length " + IntToDecimal(max.rule)
  }

  /** Different maxLength bounds are described differently. */
  lemma DescriptionInjective(a: LengthBound, b: LengthBound)
    requires a.MaxLengthBound? && b.MaxLengthBound?
    requires Description(a) == Description(b)
    ensures a == b
  {
    var less, most := "less than length ", "at most length ";
    assert less[0] != most[0];
    assert a.exclusive == b.exclusive by {
      assert Description(a)[0] == Description(b)[0];
    }
    var p := if a.exclusive then |less| else |most|;
    assert IntToDecimal(a.rule) == Description(a)[p..] == Description(b)[p..] == IntToDecimal(b.rule);
    IntToDecimalInjective(a.rule, b.rule);
  }

  // ------------------------------------------------------- maxLength & maxLength

  /** `isStricterThan` between two maxLength bounds (range.js, not part of
      this model): a lesser rule, or an equal rule that only l excludes. */
  predicate IsStricterThan(l: LengthBound, r: LengthBound)
    requires l.MaxLengthBound? && r.MaxLengthBound?
  {
    l.rule < r.rule || (l.rule == r.rule && l.exclusive && !r.exclusive)
  }

  /** maxLength ∩ maxLength: `l.isStricterThan(r) ? l : r`. */
  function IntersectMaxLengths(l: LengthBound, r: LengthBound): (b: LengthBound)
    requires l.MaxLengthBound? && r.MaxLengthBound?
    ensures b == l || b == r
    ensures forall x: real :: Admits(b, x) <==> Admits(l, x) && Admits(r, x)
  {
    if IsStricterThan(l, r) then l else r
  }

  /** The stricter bound wins in either order. */
  lemma IntersectMaxLengthsCommutes(l: LengthBound, r: LengthBound)
    requires l.MaxLengthBound? && r.MaxLengthBound?
    ensures IntersectMaxLengths(l, r) == IntersectMaxLengths(r, l)
  {
  }

  /** maxLength 3 beats an exclusive maxLength 4, and at equal rules the
      exclusive bound wins, in either order. */
  lemma StricterMaxLengthExamples()
    ensures IntersectMaxLengths(MaxLengthBound(3, false), MaxLengthBound(4, true)) == MaxLengthBound(3, false)
    ensures IntersectMaxLengths(MaxLengthBound(4, true), MaxLengthBound(3, false)) == MaxLengthBound(3, false)
    ensures IntersectMaxLengths(MaxLengthBound(3, true), MaxLengthBound(3, false)) == MaxLengthBound(3, true)
    ensures IntersectMaxLengths(MaxLengthBound(3, false), MaxLengthBound(3, true)) == MaxLengthBound(3, true)
  {
  }

  // ------------------------------------------------------- maxLength & minLength

  /** `overlapsRange` (range.js, not part of this model), in closed form:
      some real value satisfies both bounds. */
  predicate OverlapsRange(max: LengthBound, min: LengthBound)
    requires max.MaxLengthBound? && min.MinLengthBound?
  {
    min.rule < max.rule || (min.rule == max.rule && !min.exclusive && !max.exclusive)
  }

  /** `overlapIsUnit` (range.js, not part of this model), in closed form:
      exactly one real value satisfies both bounds. */
  predicate OverlapIsUnit(max: LengthBound, min: LengthBound)
    requires max.MaxLengthBound? && min.MinLengthBound?
  {
    min.rule == max.rule && !min.exclusive && !max.exclusive
  }

  lemma OverlapsRangeMeaning(max: LengthBound, min: LengthBound)
    requires max.MaxLengthBound? && min.MinLengthBound?
    ensures OverlapsRange(max, min) <==> exists x: real :: Admits(max, x) && Admits(min, x)
  {
    if OverlapsRange(max, min) {
      var x := (max.rule as real + min.rule as real) / 2.0;
      assert Admits(max, x) && Admits(min, x);
    }
  }

  lemma OverlapIsUnitMeaning(max: LengthBound, min: LengthBound)
    requires max.MaxLengthBound? && min.MinLengthBound?
    requires OverlapsRange(max, min)
    ensures OverlapIsUnit(max, min) <==>
      (forall x: real, y: real ::
        Admits(max, x) && Admits(min, x) && Admits(max, y) && Admits(min, y) ==> x == y)
  {
    if !OverlapIsUnit(max, min) {
      var lo, hi := min.rule as real, max.rule as real;
      var x, y := (3.0 * lo + hi) / 4.0, (lo + 3.0 * hi) / 4.0;
      assert Admits(max, x) && Admits(min, x) && Admits(max, y) && Admits(min, y) && x != y;
    }
  }

  /** The result of a length-bound intersection. */
  datatype LengthMeet =
    | Stricter(bound: LengthBound)
    | ExactLength(rule: int)
    | BothKept
    | RangeConflict(disjoint: Disjoint<LengthBound, LengthBound>)

  /** maxLength ∩ minLength: a "range" Disjoint when they do not overlap, an
      exactLength with the max rule when the overlap is a single length,
      and null (both kept) otherwise. */
  function IntersectMaxMin(max: LengthBound, min: LengthBound): (m: LengthMeet)
    requires max.MaxLengthBound? && min.MinLengthBound?
    ensures m.RangeConflict? <==> !OverlapsRange(max, min)
    ensures m.RangeConflict? ==> m.disjoint == Disjoint(RangeKind, max, min)
    ensures m.ExactLength? <==> OverlapsRange(max, min) && OverlapIsUnit(max, min)
    ensures m.ExactLength? ==> m.rule == max.rule
    ensures m.BothKept? <==> OverlapsRange(max, min) && !OverlapIsUnit(max, min)
  {
    if OverlapsRange(max, min) then
      if OverlapIsUnit(max, min) then ExactLength(max.rule) else BothKept
    else RangeConflict(Disjoint(RangeKind, max, min))
  }

  /** The intersections this kind declares, in either call order: the
      dispatch puts the maxLength bound on the left and inverts a Disjoint
      when it had to swap (minLength ∩ minLength is declared elsewhere). */
  function Intersect(l: LengthBound, r: LengthBound): (m: LengthMeet)
    requires l.MaxLengthBound? || r.MaxLengthBound?
  {
    if l.MaxLengthBound? && r.MaxLengthBound? then Stricter(IntersectMaxLengths(l, r))
    else if l.MaxLengthBound? then IntersectMaxMin(l, r)
    else
      match IntersectMaxMin(r, l)
      case RangeConflict(d) => RangeConflict(d.Invert())
      case other => other
  }

  /** A conflict in either order leaves no length admitted by both, a unit
      overlap admits exactly the max rule, and the conflict names the
      operands in call order. */
  lemma IntersectMeaning(l: LengthBound, r: LengthBound)
    requires l.MaxLengthBound? != r.MaxLengthBound?
    ensures Intersect(l, r).RangeConflict? ==>
      Intersect(l, r).disjoint == Disjoint(RangeKind, l, r)
      && forall x: real :: !(Admits(l, x) && Admits(r, x))
    ensures Intersect(l, r).ExactLength? ==>
      forall x: real :: Admits(l, x) && Admits(r, x) <==> x == Intersect(l, r).rule as real
  {
    var max, min := if l.MaxLengthBound? then l else r, if l.MaxLengthBound? then r else l;
    OverlapsRangeMeaning(max, min);
  }

  /** minLength 6 with maxLength 6 gives exactLength 6; minLength 3 with an
      exclusive maxLength 3, or with maxLength 1, is a "range" Disjoint; all
      in both orders. */
  lemma LengthBoundExamples()
    ensures Intersect(MinLengthBound(6, false), MaxLengthBound(6, false)) == ExactLength(6)
    ensures Intersect(MaxLengthBound(6, false), MinLengthBound(6, false)) == ExactLength(6)
    ensures Intersect(MinLengthBound(3, false), MaxLengthBound(3, true)).RangeConflict?
    ensures Intersect(MaxLengthBound(3, true), MinLengthBound(3, false)).RangeConflict?
    ensures Intersect(MinLengthBound(3, false), MaxLengthBound(1, false)).RangeConflict?
    ensures Intersect(MaxLengthBound(1, false), MinLengthBound(3, false)).RangeConflict?
  {
  }
}
