/** Sorting with a comparator that never answers "equal", as the source's
    `sort((l, r) => l < r ? -1 : 1)` calls do. On elements that the strict
    order distinguishes the sorted result is unique. */
module Sorting {
  /** `lt` is a strict total order on the elements of `s`. */
  predicate StrictTotalOn<T(==)>(s: seq<T>, lt: (T, T) -> bool)
  {
    (forall a, b :: a in s && b in s && a != b ==> lt(a, b) || lt(b, a))
    && (forall a, b :: a in s && b in s && lt(a, b) ==> !lt(b, a))
    && (forall a, b, c :: a in s && b in s && c in s && lt(a, b) && lt(b, c) ==> lt(a, c))
  }

  /** No element is strictly smaller than one before it. */
  predicate SortedBy<T>(s: seq<T>, lt: (T, T) -> bool)
  {
    forall i, j :: 0 <= i < j < |s| ==> !lt(s[j], s[i])
  }

  /** Every element is strictly smaller than the ones after it. */
  predicate StrictlySortedBy<T>(s: seq<T>, lt: (T, T) -> bool)
  {
    forall i, j :: 0 <= i < j < |s| ==> lt(s[i], s[j])
  }

  lemma StrictTotalOnSubset<T>(s: seq<T>, t: seq<T>, lt: (T, T) -> bool)
    requires StrictTotalOn(s, lt)
    requires forall e :: e in t ==> e in s
    ensures StrictTotalOn(t, lt)
  {
  }

  function Insert<T(==)>(x: T, s: seq<T>, lt: (T, T) -> bool): (r: seq<T>)
    ensures multiset(r) == multiset(s) + multiset{x}
  {
    if s == [] then [x]
    else if lt(s[0], x) then
      assert s == [s[0]] + s[1..];
      [s[0]] + Insert(x, s[1..], lt)
    else [x] + s
  }

  lemma {:induction false} InsertSorted<T>(x: T, s: seq<T>, lt: (T, T) -> bool)
    requires StrictTotalOn(s + [x], lt)
    requires SortedBy(s, lt)
    ensures SortedBy(Insert(x, s, lt), lt)
  {
    if s != [] {
      var all := s + [x];
      if lt(s[0], x) {
        var s1 := s[1..];
        StrictTotalOnSubset(all, s1 + [x], lt);
        InsertSorted(x, s1, lt);
        var t := Insert(x, s1, lt);
        forall j | 0 <= j < |t| ensures !lt(t[j], s[0]) {
          assert t[j] in multiset(t);
          assert t[j] in multiset(s1) + multiset{x};
          if t[j] != x {
            assert t[j] in s1;
            var k :| 0 <= k < |s1| && s1[k] == t[j];
            assert s[k + 1] == t[j];
          } else {
            assert s[0] in all && x in all;
          }
        }
      } else {
        forall j | 0 <= j < |s| ensures !lt(s[j], x) {
          if j > 0 && s[j] != s[0] {
            assert !lt(s[j], s[0]);
            assert s[0] in all && s[j] in all && x in all;
          }
        }
      }
    }
  }

  /** Insertion sort: a sorted permutation of its input. */
  function InsertionSort<T(==)>(s: seq<T>, lt: (T, T) -> bool): (r: seq<T>)
    ensures multiset(r) == multiset(s)
  {
    if s == [] then []
    else
      assert s == [s[0]] + s[1..];
      Insert(s[0], InsertionSort(s[1..], lt), lt)
  }

  lemma {:induction false} InsertionSortSorted<T>(s: seq<T>, lt: (T, T) -> bool)
    requires StrictTotalOn(s, lt)
    ensures SortedBy(InsertionSort(s, lt), lt)
  {
    if s != [] {
      StrictTotalOnSubset(s, s[1..], lt);
      InsertionSortSorted(s[1..], lt);
      var t := InsertionSort(s[1..], lt);
      forall e | e in t + [s[0]] ensures e in s {
        if e != s[0] { assert e in multiset(t); assert e in multiset(s[1..]); }
      }
      StrictTotalOnSubset(s, t + [s[0]], lt);
      InsertSorted(s[0], t, lt);
    }
  }

  /** A sorted sequence of pairwise distinct elements is strictly sorted. */
  lemma SortedDistinctIsStrict<T>(s: seq<T>, lt: (T, T) -> bool)
    requires StrictTotalOn(s, lt)
    requires SortedBy(s, lt)
    requires forall i, j :: 0 <= i < j < |s| ==> s[i] != s[j]
    ensures StrictlySortedBy(s, lt)
  {
    forall i, j | 0 <= i < j < |s| ensures lt(s[i], s[j]) {
      assert s[i] in s && s[j] in s;
    }
  }

  /** Two strictly sorted sequences with the same elements are equal: the
      order of the input cannot be observed in the sorted output. */
  lemma {:induction false} StrictlySortedUnique<T>(a: seq<T>, b: seq<T>, lt: (T, T) -> bool)
    requires StrictTotalOn(a, lt)
    requires StrictlySortedBy(a, lt) && StrictlySortedBy(b, lt)
    requires multiset(a) == multiset(b)
    ensures a == b
  {
    if a != [] {
      assert |b| == |multiset(b)| == |a|;
      assert b[0] in multiset(a);
      assert a[0] in multiset(b);
      assert a[0] == b[0];
      assert a == [a[0]] + a[1..] && b == [b[0]] + b[1..];
      assert multiset(a) == multiset([a[0]]) + multiset(a[1..]);
      assert multiset(b) == multiset([b[0]]) + multiset(b[1..]);
      assert multiset(a[1..]) == multiset(a) - multiset{a[0]};
      assert multiset(b[1..]) == multiset(b) - multiset{b[0]};
      StrictTotalOnSubset(a, a[1..], lt);
      StrictlySortedUnique(a[1..], b[1..], lt);
    }
  }

  /** Pairwise distinct elements. */
  predicate Distinct<T(==)>(s: seq<T>)
  {
    forall i, j :: 0 <= i < j < |s| ==> s[i] != s[j]
  }

  /** In a sequence of distinct elements, each element occurs at most once. */
  lemma {:induction false} DistinctOccursOnce<T>(s: seq<T>, x: T)
    requires Distinct(s)
    ensures multiset(s)[x] <= 1
  {
    if s != [] {
      assert s == [s[0]] + s[1..];
      assert multiset(s) == multiset{s[0]} + multiset(s[1..]);
      DistinctOccursOnce(s[1..], x);
      if s[0] == x {
        assert x !in s[1..];
      }
    }
  }

  /** Two equal elements at different positions occur at least twice. */
  lemma RepeatedOccursTwice<T>(s: seq<T>, i: nat, j: nat)
    requires i < j < |s| && s[i] == s[j]
    ensures multiset(s)[s[i]] >= 2
  {
    assert s == s[..j] + [s[j]] + s[j+1..];
    assert s[i] in s[..j];
    assert multiset(s) == multiset(s[..j]) + multiset{s[j]} + multiset(s[j+1..]);
  }

  /** A permutation of distinct elements has distinct elements. */
  lemma PermutationKeepsDistinct<T>(a: seq<T>, b: seq<T>)
    requires Distinct(a) && multiset(a) == multiset(b)
    ensures Distinct(b)
  {
    forall i, j | 0 <= i < j < |b| ensures b[i] != b[j] {
      DistinctOccursOnce(a, b[i]);
      if b[i] == b[j] {
        RepeatedOccursTwice(b, i, j);
      }
    }
  }
}
