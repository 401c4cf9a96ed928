/** The divisor refinement: numbers that are a multiple of a given divisor.
    Two divisors intersect to their least common multiple, computed with
    Euclid's algorithm over the host's truncating remainder. */
module Divisor {
  import opened Wrappers
  import opened JsValue
  import opened JsText
  import opened JsExpr

  datatype DivisorInner = DivisorInner(divisor: int)

  /** A divisor schema: a bare number or the normalised object form. */
  datatype DivisorSchema = BareDivisor(n: int) | DivisorObject(inner: DivisorInner)

  /** `normalize`: a bare number n becomes `{divisor: n}`; an object schema
      is already normalised. */
  function Normalize(schema: DivisorSchema): (inner: DivisorInner)
    ensures schema.BareDivisor? ==> inner.divisor == schema.n
    ensures schema.DivisorObject? ==> inner == schema.inner
  {
    match schema
    case BareDivisor(n) => DivisorInner(n)
    case DivisorObject(inner) => inner
  }

  /** Normalising the normal form changes nothing. */
  lemma NormalizeIdempotent(schema: DivisorSchema)
    ensures Normalize(DivisorObject(Normalize(schema))) == Normalize(schema)
  {
  }

  // ------------------------------------------------------------ divisibility

  function Mul(a: int, b: int): int { a * b }

  /** d divides n: n is a whole multiple of d. */
  ghost predicate Divides(d: int, n: int)
  {
    exists k :: n == Mul(d, k)
  }

  lemma DividesBy(d: int, n: int, k: int)
    requires n == d * k
    ensures Divides(d, n)
  {
    assert n == Mul(d, k);
  }

  /** A common divisor of x and y divides every combination of them. */
  lemma DividesCombination(g: int, x: int, y: int, p: int, q: int)
    requires Divides(g, x) && Divides(g, y)
    ensures Divides(g, p * x + q * y)
  {
    var i :| x == Mul(g, i);
    var j :| y == Mul(g, j);
    calc {
      p * x + q * y;
      p * (g * i) + q * (g * j);
      g * (p * i) + g * (q * j);
      g * (p * i + q * j);
    }
    DividesBy(g, p * x + q * y, p * i + q * j);
  }

  lemma AbsOfProduct(a: int, b: int)
    ensures Abs(a * b) == Abs(a) * Abs(b)
  {
    if a < 0 && b < 0 {
      assert a * b == (-a) * (-b);
    } else if a < 0 {
      assert -(a * b) == (-a) * b;
    } else if b < 0 {
      assert -(a * b) == a * (-b);
    }
  }

  lemma ProductOfNaturals(a: nat, b: nat)
    ensures a * b >= 0
  {
  }

  /** A non-zero multiple is at least as large as the divisor. */
  lemma MultipleAtLeastDivisor(d: int, k: int)
    requires k != 0
    ensures Abs(d * k) >= Abs(d)
  {
    AbsOfProduct(d, k);
    var n: nat := Abs(k) - 1;
    assert Abs(d) * Abs(k) == Abs(d) * n + Abs(d);
    ProductOfNaturals(Abs(d), n);
  }

  /** The host's remainder is zero exactly when the divisor divides the
      dividend. */
  lemma RemainderZeroIffDivides(a: int, b: int)
    requires b != 0
    ensures JsRemainder(a, b) == 0 <==> Divides(b, a)
  {
    var q := JsDivision(a, b);
    if JsRemainder(a, b) == 0 {
      DividesBy(b, a, q);
    }
    if Divides(b, a) {
      var k :| a == Mul(b, k);
      assert JsRemainder(a, b) == b * (k - q);
      if k != q {
        MultipleAtLeastDivisor(b, k - q);
      }
    }
  }

  // --------------------------------------------------- greatestCommonDivisor

  /** Euclid's algorithm over the truncating remainder: the value of
      `greatestCommonDivisor` once its loop is at `(gcd, current)`. */
  function Euclid(gcd: int, current: int): int
    decreases Abs(current)
  {
    if current == 0 then gcd else Euclid(current, JsRemainder(gcd, current))
  }

  /** `greatestCommonDivisor(l, r)`: the loop replaces `(gcd, current)` by
      `(current, gcd % current)` until `current` is zero. */
  method GreatestCommonDivisor(l: int, r: int) returns (gcd: int)
    ensures gcd == Euclid(l, r)
    ensures r == 0 ==> gcd == l
  {
    gcd := l;
    var current := r;
    while current != 0
      invariant Euclid(gcd, current) == Euclid(l, r)
      decreases Abs(current)
    {
      var previous := current;
      current := JsRemainder(gcd, current);
      gcd := previous;
    }
  }

  /** Euclid's result divides both operands. */
  lemma {:induction false} EuclidCommonDivisor(a: int, b: int)
    ensures Divides(Euclid(a, b), a) && Divides(Euclid(a, b), b)
    decreases Abs(b)
  {
    var g := Euclid(a, b);
    if b == 0 {
      DividesBy(a, a, 1);
      DividesBy(a, 0, 0);
    } else {
      var rem := JsRemainder(a, b);
      EuclidCommonDivisor(b, rem);
      var q := JsDivision(a, b);
      DividesCombination(g, b, rem, q, 1);
    }
  }

  /** Every common divisor of the operands divides Euclid's result. */
  lemma {:induction false} EuclidGreatest(a: int, b: int, d: int)
    requires Divides(d, a) && Divides(d, b)
    ensures Divides(d, Euclid(a, b))
    decreases Abs(b)
  {
    if b != 0 {
      var rem := JsRemainder(a, b);
      var q := JsDivision(a, b);
      DividesCombination(d, a, b, 1, -q);
      assert rem == 1 * a + (-q) * b;
      EuclidGreatest(b, rem, d);
    }
  }

  lemma BezoutStep(a: int, b: int, q: int, rem: int, s: int, t: int)
    requires a == q * b + rem
    ensures s * b + t * rem == t * a + (s - t * q) * b
  {
    assert t * rem == t * a - t * (q * b);
    assert (s - t * q) * b == s * b - (t * q) * b;
  }

  /** Bezout: Euclid's result is an integer combination of the operands. */
  lemma {:induction false} EuclidBezout(a: int, b: int) returns (s: int, t: int)
    ensures Euclid(a, b) == s * a + t * b
    decreases Abs(b)
  {
    if b == 0 {
      s, t := 1, 0;
    } else {
      var rem := JsRemainder(a, b);
      var q := JsDivision(a, b);
      var s', t' := EuclidBezout(b, rem);
      BezoutStep(a, b, q, rem, s', t');
      s, t := t', s' - t' * q;
    }
  }

  /** Euclid's result is zero only when both operands are. */
  lemma EuclidZeroOnlyForZeros(a: int, b: int)
    ensures Euclid(a, b) == 0 <==> a == 0 && b == 0
  {
    EuclidCommonDivisor(a, b);
    if Euclid(a, b) == 0 {
      var i :| a == Mul(0, i);
      var j :| b == Mul(0, j);
    }
  }

  /** For non-negative operands, not both zero, the result is positive. */
  lemma {:induction false} EuclidPositive(a: int, b: int)
    requires a >= 0 && b >= 0 && (a != 0 || b != 0)
    ensures Euclid(a, b) > 0
    decreases b
  {
    if b != 0 {
      var rem := JsRemainder(a, b);
      assert 0 <= rem < b;
      EuclidPositive(b, rem);
    }
  }

  // --------------------------------------------------------- intersection

  /** A non-zero factor cancels. */
  lemma CancelFactor(g: int, x: int, y: int)
    requires g != 0 && g * x == g * y
    ensures x == y
  {
    assert g * (x - y) == g * x - g * y;
    if x != y {
      MultipleAtLeastDivisor(g, x - y);
    }
  }

  lemma DivideExact(g: int, x: int)
    requires g != 0
    ensures (g * x) / g == x
  {
    var y := (g * x) / g;
    var rest := (g * x) % g;
    assert g * x == y * g + rest && 0 <= rest < Abs(g);
    assert rest == g * (x - y);
    if x != y {
      MultipleAtLeastDivisor(g, x - y);
    }
  }

  lemma ExactQuotient(g: int, i: int, j: int)
    requires g != 0
    ensures ((g * i) * (g * j)) / g == i * (g * j) == (g * i) * j
  {
    assert (g * i) * (g * j) == g * (i * (g * j));
    DivideExact(g, i * (g * j));
  }

  /** `intersectOwnInner`: the intersection of divisors l and r is
      `Math.abs(l * r / greatestCommonDivisor(l, r))`. Two zero divisors
      never reach it: they are equal nodes, which the intersection
      dispatch answers before any kind rule. */
  function IntersectDivisors(l: int, r: int): (m: nat)
    requires l != 0 || r != 0
  {
    EuclidZeroOnlyForZeros(l, r);
    Abs((l * r) / Euclid(l, r))
  }

  /** The quotient is exact: the intersection is `|l / gcd| * |r|`. */
  lemma IntersectDivisorsExact(l: int, r: int) returns (i: int, j: int)
    requires l != 0 || r != 0
    ensures Euclid(l, r) != 0
    ensures l == Euclid(l, r) * i && r == Euclid(l, r) * j
    ensures IntersectDivisors(l, r) == Abs(i * r) == Abs(l * j)
  {
    var g := Euclid(l, r);
    EuclidZeroOnlyForZeros(l, r);
    EuclidCommonDivisor(l, r);
    i :| l == Mul(g, i);
    j :| r == Mul(g, j);
    ExactQuotient(g, i, j);
  }

  /** Both factors divide the magnitude of a product. */
  lemma AbsOfMultiple(a: int, b: int)
    ensures Divides(a, Abs(a * b)) && Divides(b, Abs(a * b))
  {
    if a * b >= 0 {
      DividesBy(a, Abs(a * b), b);
      DividesBy(b, Abs(a * b), a);
    } else {
      DividesBy(a, Abs(a * b), -b);
      DividesBy(b, Abs(a * b), -a);
    }
  }

  /** A number divides a multiple of itself, whatever its sign. */
  lemma MagnitudeDividesMultiple(x: int, c: int, n: int)
    requires n == x * c
    ensures Divides(Abs(x), n)
  {
    if x >= 0 { DividesBy(Abs(x), n, c); } else { DividesBy(Abs(x), n, -c); }
  }

  /** The intersection is a common multiple of both divisors. */
  lemma IntersectionIsCommonMultiple(l: int, r: int)
    requires l != 0 || r != 0
    ensures Divides(l, IntersectDivisors(l, r))
    ensures Divides(r, IntersectDivisors(l, r))
  {
    var i, j := IntersectDivisorsExact(l, r);
    AbsOfMultiple(i, r);
    AbsOfMultiple(l, j);
  }

  lemma LeastMultipleStep(l: int, r: int, g: int, j: int, s: int, t: int, a: int, b: int, n: int)
    requires g != 0 && r == g * j && g == s * l + t * r
    requires n == l * a && n == r * b
    ensures n == (l * j) * (s * b + t * a)
  {
    var c := s * b + t * a;
    assert g * n == s * (l * n) + t * (r * n);
    assert l * n == (l * r) * b;
    assert r * n == (l * r) * a;
    assert g * n == (l * r) * c;
    assert (l * r) * c == g * ((l * j) * c);
    CancelFactor(g, n, (l * j) * c);
  }

  /** It is the least one: it divides every common multiple, and it is
      positive when both divisors are non-zero. */
  lemma IntersectionIsLeastCommonMultiple(l: int, r: int, n: int)
    requires l != 0 && r != 0
    requires Divides(l, n) && Divides(r, n)
    ensures IntersectDivisors(l, r) > 0
    ensures Divides(IntersectDivisors(l, r), n)
  {
    var g := Euclid(l, r);
    var i, j := IntersectDivisorsExact(l, r);
    var m := IntersectDivisors(l, r);
    assert j != 0;
    MultipleAtLeastDivisor(l, j);
    var s, t := EuclidBezout(l, r);
    var a :| n == Mul(l, a);
    var b :| n == Mul(r, b);
    LeastMultipleStep(l, r, g, j, s, t, a, b, n);
    MagnitudeDividesMultiple(l * j, s * b + t * a, n);
  }

  /** Order does not matter: both orders give the same positive multiple. */
  lemma IntersectDivisorsCommutes(l: int, r: int)
    requires l != 0 && r != 0
    ensures IntersectDivisors(l, r) == IntersectDivisors(r, l)
  {
    var m1, m2 := IntersectDivisors(l, r), IntersectDivisors(r, l);
    IntersectionIsCommonMultiple(l, r);
    IntersectionIsCommonMultiple(r, l);
    IntersectionIsLeastCommonMultiple(l, r, m2);
    IntersectionIsLeastCommonMultiple(r, l, m1);
    var a :| m2 == Mul(m1, a);
    var b :| m1 == Mul(m2, b);
    MultipleAtLeastDivisor(m1, a);
    MultipleAtLeastDivisor(m2, b);
  }

  /** The divisors 3 and 5 intersect to 15. */
  lemma ThreeAndFiveGiveFifteen()
    ensures IntersectDivisors(3, 5) == 15
  {
    assert Euclid(3, 5) == Euclid(5, 3) == Euclid(3, 2) == Euclid(2, 1) == Euclid(1, 0) == 1;
  }

  // --------------------------------------------------- traversal and text

  /** `traverseAllows`: `data % divisor === 0`. */
  predicate TraverseAllows(node: DivisorInner, data: int)
  {
    node.divisor != 0 && JsRemainder(data, node.divisor) == 0
  }

  /** The check admits exactly the multiples of the divisor. */
  lemma AllowsExactlyMultiples(node: DivisorInner, data: int)
    ensures TraverseAllows(node, data) <==> node.divisor != 0 && Divides(node.divisor, data)
  {
    if node.divisor != 0 {
      RemainderZeroIffDivides(data, node.divisor);
    }
  }

  /** The compiled condition `x % d === 0` and its negation `x % d !== 0`. */
  function Condition(node: DivisorInner): Expr
  {
    RemainderIsZero(node.divisor)
  }

  function Negation(node: DivisorInner): Expr
  {
    RemainderIsNotZero(node.divisor)
  }

  function CompiledCondition(node: DivisorInner, dataArg: string): (s: string)
    ensures s == dataArg + " % " + IntToDecimal(node.divisor) + " === 0"
  {
    Print(Condition(node), dataArg)
  }

  function CompiledNegation(node: DivisorInner, dataArg: string): (s: string)
    ensures s == dataArg + " % " + IntToDecimal(node.divisor) + " !== 0"
  {
    Print(Negation(node), dataArg)
  }

  /** The compiled condition means what `traverseAllows` computes, and on
      every value exactly one of the condition and its negation holds. */
  lemma CompiledConditionMatchesTraversal(node: DivisorInner, v: Value)
    ensures v.Num? ==> (Eval(Condition(node), v) <==> TraverseAllows(node, v.n))
    ensures Eval(Negation(node), v) <==> !Eval(Condition(node), v)
  {
    NegateIsComplement(Condition(node), v);
  }

  /** The description: "an integer" for divisor 1, else "a multiple of n". */
  function Description(node: DivisorInner): (s: string)
    ensures s == "an integer" <==> node.divisor == 1
  {
    if node.divisor == 1 then "an integer"
    else
      var s := "a multiple of " + IntToDecimal(node.divisor);
      assert s[1] != "an integer"[1];
      s
  }

  /** Different divisors are described differently. */
  lemma DescriptionInjective(a: DivisorInner, b: DivisorInner)
    requires Description(a) == Description(b)
    ensures a == b
  {
    if a.divisor != 1 && b.divisor != 1 {
      var prefix := "a multiple of ";
      assert IntToDecimal(a.divisor) == Description(a)[|prefix|..] == Description(b)[|prefix|..] == IntToDecimal(b.divisor);
      IntToDecimalInjective(a.divisor, b.divisor);
    }
  }

  // ------------------------------------------------------- foldIntersection

  /** The new value of the accumulator's divisor slot. `intersectOwnKind` is
      not part of this model; it is taken as the general intersection: this
      node when the slot is empty or holds an equal divisor, else the
      intersection of the two. */
  function FoldedDivisor(d: int, existing: Option<int>): (r: int)
    ensures existing.None? ==> r == d
    ensures existing.Some? && existing.value == d ==> r == d
  {
    match existing
    case None => d
    case Some(e) => if e == d then d else IntersectDivisors(d, e)
  }

  /** After a fold over non-zero divisors, the slot holds a positive common
      multiple of the old slot and the folded divisor, dividing every other. */
  lemma FoldedDivisorIsLeastCommonMultiple(d: int, e: int, n: int)
    requires d > 0 && e > 0
    requires Divides(d, n) && Divides(e, n)
    ensures FoldedDivisor(d, Some(e)) > 0
    ensures Divides(d, FoldedDivisor(d, Some(e))) && Divides(e, FoldedDivisor(d, Some(e)))
    ensures Divides(FoldedDivisor(d, Some(e)), n)
  {
    if e == d {
      DividesBy(d, d, 1);
    } else {
      IntersectionIsCommonMultiple(d, e);
      IntersectionIsLeastCommonMultiple(d, e, n);
    }
  }

  /** The slots of the accumulator that the divisor fold can touch. */
  class DivisorFoldInput {
    var divisor: Option<int>

    constructor (divisor: Option<int>)
      ensures this.divisor == divisor
    {
      this.divisor := divisor;
    }
  }

  /** `foldIntersection`: assigns only `into.divisor` and returns `into`. */
  method FoldIntersection(node: DivisorInner, into: DivisorFoldInput) returns (r: DivisorFoldInput)
    modifies into`divisor
    ensures r == into
    ensures into.divisor == Some(FoldedDivisor(node.divisor, old(into.divisor)))
  {
    into.divisor := Some(FoldedDivisor(node.divisor, into.divisor));
    r := into;
  }
}
