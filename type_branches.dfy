/** Intersection of two unions' branch lists with subtype pruning
    (`intersectBranches`), and the intersection of two union nodes built on
    it (`UnionNode.intersectSymmetric`), from ark/schema/types/type.ts.

    Branches are compared with `==`, the strict equality `===` of the
    source, and `meet(l, r)` stands for `l.intersect(r)`. */
module TypeBranches {
  import opened Wrappers
  import opened Disjoints

  /** `lBranch.intersect(rBranch)`: a branch, or a Disjoint. */
  datatype BranchMeet<B> = Meet(branch: B) | Disjointed

  /** The state of the algorithm: `candidatesByR` (`None` for an r branch
      found to be a subtype of some l branch), `finalBranches`, and the
      candidates of the l branch being processed (`currentCandidateByR`). */
  datatype BranchState<B> = BranchState(
    candidates: seq<Option<seq<B>>>,
    finalBranches: seq<B>,
    current: seq<Option<B>>)

  function NoCurrent<B>(n: nat): (c: seq<Option<B>>)
    ensures |c| == n && forall k :: 0 <= k < n ==> c[k].None?
  {
    seq(n, _ => None)
  }

  /** Before index `j` of a pass over `r`: the lists line up with `r`, no
      candidate of the pass sits at index `j` or later, and every index with
      a candidate has a live candidate list. */
  predicate PassReady<B>(r: seq<B>, j: nat, s: BranchState<B>)
  {
    && |s.candidates| == |r| && |s.current| == |r| && j <= |r|
    && (forall k :: 0 <= k < |r| && s.current[k].Some? ==> s.candidates[k].Some?)
    && (forall k :: j <= k < |r| ==> s.current[k].None?)
  }

  /** The inner loop of `intersectBranches` for the l branch `lb`, from r
      index `j` on. */
  function PassFrom<B(==)>(lb: B, r: seq<B>, meet: (B, B) -> BranchMeet<B>, j: nat, s: BranchState<B>): (p: BranchState<B>)
    requires PassReady(r, j, s)
    ensures PassReady(r, |r|, p)
    decreases |r| - j
  {
    if j == |r| then s
    else if s.candidates[j].None? then PassFrom(lb, r, meet, j + 1, s)
    else if lb == r[j] then
      BranchState(s.candidates[j := None], s.finalBranches + [lb], NoCurrent(|r|))
    else match meet(lb, r[j])
      case Disjointed => PassFrom(lb, r, meet, j + 1, s)
      case Meet(x) =>
        if x == lb then BranchState(s.candidates, s.finalBranches + [lb], NoCurrent(|r|))
        else if x == r[j] then
          PassFrom(lb, r, meet, j + 1, BranchState(s.candidates[j := None], s.finalBranches + [r[j]], s.current))
        else PassFrom(lb, r, meet, j + 1, s.(current := s.current[j := Some(x)]))
  }

  /** The loop after the pass: each candidate of the pass is appended to
      its r index's list. */
  function Flush<B>(r: seq<B>, s: BranchState<B>): (c: seq<Option<seq<B>>>)
    requires PassReady(r, |r|, s)
    ensures |c| == |r|
  {
    seq(|r|, k requires 0 <= k < |r| =>
      if s.current[k].Some? then Some(s.candidates[k].value + [s.current[k].value]) else s.candidates[k])
  }

  /** The outer loop, from l index `i` on: the final candidate lists and
      final branches. */
  function OuterFrom<B(==)>(l: seq<B>, r: seq<B>, meet: (B, B) -> BranchMeet<B>, i: nat,
                            candidates: seq<Option<seq<B>>>, finalBranches: seq<B>): (o: (seq<Option<seq<B>>>, seq<B>))
    requires i <= |l| && |candidates| == |r|
    ensures |o.0| == |r|
    decreases |l| - i
  {
    if i == |l| then (candidates, finalBranches)
    else
      var p := PassFrom(l[i], r, meet, 0, BranchState(candidates, finalBranches, NoCurrent(|r|)));
      OuterFrom(l, r, meet, i + 1, Flush(r, p), p.finalBranches)
  }

  function FreshCandidates<B>(n: nat): (c: seq<Option<seq<B>>>)
    ensures |c| == n && forall k :: 0 <= k < n ==> c[k] == Some([])
  {
    seq(n, _ => Some([]))
  }

  /** The candidate lists and final branches once every l branch is done. */
  function BranchOutcome<B(==)>(l: seq<B>, r: seq<B>, meet: (B, B) -> BranchMeet<B>): (o: (seq<Option<seq<B>>>, seq<B>))
    ensures |o.0| == |r|
  {
    OuterFrom(l, r, meet, 0, FreshCandidates(|r|), [])
  }

  /** The surviving candidates, in r order. */
  function Remaining<B>(candidates: seq<Option<seq<B>>>): seq<B>
  {
    if |candidates| == 0 then []
    else
      var last := candidates[|candidates| - 1];
      Remaining(candidates[..|candidates| - 1]) + (if last.Some? then last.value else [])
  }

  /** The result of `intersectBranches`: the final branches, then the
      surviving candidates. */
  function IntersectBranchesSpec<B(==)>(l: seq<B>, r: seq<B>, meet: (B, B) -> BranchMeet<B>): seq<B>
  {
    var o := BranchOutcome(l, r, meet);
    o.1 + Remaining(o.0)
  }

  /** One pass of the inner loop of `intersectBranches` for `lBranch`. */
  method BranchPass<B(==)>(lBranch: B, r: seq<B>, meet: (B, B) -> BranchMeet<B>,
                           candidates: seq<Option<seq<B>>>, finalBranches: seq<B>) returns (p: BranchState<B>)
    requires |candidates| == |r|
    ensures p == PassFrom(lBranch, r, meet, 0, BranchState(candidates, finalBranches, NoCurrent(|r|)))
  {
    var candidatesByR := candidates;
    var result := finalBranches;
    var current: seq<Option<B>> := NoCurrent(|r|);
    ghost var start := BranchState(candidatesByR, result, current);
    var rIndex := 0;
    while rIndex < |r|
      invariant PassReady(r, rIndex, BranchState(candidatesByR, result, current))
      invariant PassFrom(lBranch, r, meet, rIndex, BranchState(candidatesByR, result, current))
                == PassFrom(lBranch, r, meet, 0, start)
    {
      var rBranch := r[rIndex];
      if candidatesByR[rIndex].None? {
        rIndex := rIndex + 1;
        continue;
      }
      if lBranch == rBranch {
        result := result + [lBranch];
        candidatesByR := candidatesByR[rIndex := None];
        current := NoCurrent(|r|);
        assert BranchState(candidatesByR, result, current) == PassFrom(lBranch, r, meet, 0, start);
        break;
      }
      var branchIntersection := meet(lBranch, rBranch);
      if branchIntersection.Disjointed? {
        rIndex := rIndex + 1;
        continue;
      }
      if branchIntersection.branch == lBranch {
        result := result + [lBranch];
        current := NoCurrent(|r|);
        assert BranchState(candidatesByR, result, current) == PassFrom(lBranch, r, meet, 0, start);
        break;
      }
      if branchIntersection.branch == rBranch {
        result := result + [rBranch];
        candidatesByR := candidatesByR[rIndex := None];
        rIndex := rIndex + 1;
        continue;
      }
      current := current[rIndex := Some(branchIntersection.branch)];
      rIndex := rIndex + 1;
    }
    p := BranchState(candidatesByR, result, current);
  }

  /** The loop appending the pass's candidates to their lists. */
  method FlushPass<B>(r: seq<B>, p: BranchState<B>) returns (candidatesByR: seq<Option<seq<B>>>)
    requires PassReady(r, |r|, p)
    ensures candidatesByR == Flush(r, p)
  {
    candidatesByR := p.candidates;
    var k := 0;
    while k < |r|
      invariant k <= |r| && |candidatesByR| == |r|
      invariant forall j :: 0 <= j < k ==> candidatesByR[j] == Flush(r, p)[j]
      invariant forall j :: k <= j < |r| ==> candidatesByR[j] == p.candidates[j]
    {
      if p.current[k].Some? {
        candidatesByR := candidatesByR[k := Some(candidatesByR[k].value + [p.current[k].value])];
      }
      k := k + 1;
    }
  }

  /** `intersectBranches(l, r)`. */
  method IntersectBranches<B(==)>(l: seq<B>, r: seq<B>, meet: (B, B) -> BranchMeet<B>) returns (result: seq<B>)
    ensures result == IntersectBranchesSpec(l, r, meet)
  {
    var finalBranches: seq<B> := [];
    var candidatesByR: seq<Option<seq<B>>> := FreshCandidates(|r|);
    var lIndex := 0;
    while lIndex < |l|
      invariant lIndex <= |l| && |candidatesByR| == |r|
      invariant OuterFrom(l, r, meet, lIndex, candidatesByR, finalBranches) == BranchOutcome(l, r, meet)
    {
      var p := BranchPass(l[lIndex], r, meet, candidatesByR, finalBranches);
      candidatesByR := FlushPass(r, p);
      finalBranches := p.finalBranches;
      lIndex := lIndex + 1;
    }
    result := finalBranches;
    var k := 0;
    while k < |candidatesByR|
      invariant k <= |candidatesByR|
      invariant result == finalBranches + Remaining(candidatesByR[..k])
    {
      assert candidatesByR[..k + 1][..k] == candidatesByR[..k];
      if candidatesByR[k].Some? {
        result := result + candidatesByR[k].value;
      }
      k := k + 1;
    }
    assert candidatesByR[..k] == candidatesByR;
  }

  // ------------------------------------------------------------------ origin

  /** `b` is an l branch, an r branch, or the intersection of a pair. */
  predicate FromOperands<B(==)>(l: seq<B>, r: seq<B>, meet: (B, B) -> BranchMeet<B>, b: B)
  {
    b in l || b in r || exists i, j :: 0 <= i < |l| && 0 <= j < |r| && meet(l[i], r[j]) == Meet(b)
  }

  predicate StateFromOperands<B(==)>(l: seq<B>, r: seq<B>, meet: (B, B) -> BranchMeet<B>, s: BranchState<B>)
  {
    && (forall b :: b in s.finalBranches ==> FromOperands(l, r, meet, b))
    && (forall k, b :: 0 <= k < |s.candidates| && s.candidates[k].Some? && b in s.candidates[k].value ==> FromOperands(l, r, meet, b))
    && (forall k :: 0 <= k < |s.current| && s.current[k].Some? ==> FromOperands(l, r, meet, s.current[k].value))
  }

  lemma {:induction false} PassFromOrigin<B>(l: seq<B>, r: seq<B>, meet: (B, B) -> BranchMeet<B>, i: nat, j: nat, s: BranchState<B>)
    requires i < |l| && PassReady(r, j, s) && StateFromOperands(l, r, meet, s)
    ensures StateFromOperands(l, r, meet, PassFrom(l[i], r, meet, j, s))
    decreases |r| - j
  {
    var lb := l[i];
    if j < |r| && s.candidates[j].Some? && lb != r[j] {
      match meet(lb, r[j])
      case Disjointed => PassFromOrigin(l, r, meet, i, j + 1, s);
      case Meet(x) =>
        if x == lb {
        } else if x == r[j] {
          PassFromOrigin(l, r, meet, i, j + 1, BranchState(s.candidates[j := None], s.finalBranches + [r[j]], s.current));
        } else {
          assert FromOperands(l, r, meet, x) by { assert meet(l[i], r[j]) == Meet(x); }
          PassFromOrigin(l, r, meet, i, j + 1, s.(current := s.current[j := Some(x)]));
        }
    } else if j < |r| && s.candidates[j].None? {
      PassFromOrigin(l, r, meet, i, j + 1, s);
    }
  }

  lemma {:induction false} OuterFromOrigin<B>(l: seq<B>, r: seq<B>, meet: (B, B) -> BranchMeet<B>, i: nat,
                                              candidates: seq<Option<seq<B>>>, finalBranches: seq<B>)
    requires i <= |l| && |candidates| == |r|
    requires StateFromOperands(l, r, meet, BranchState(candidates, finalBranches, NoCurrent(|r|)))
    ensures StateFromOperands(l, r, meet, BranchState(OuterFrom(l, r, meet, i, candidates, finalBranches).0,
                                                      OuterFrom(l, r, meet, i, candidates, finalBranches).1, NoCurrent(|r|)))
    decreases |l| - i
  {
    if i < |l| {
      var p := PassFrom(l[i], r, meet, 0, BranchState(candidates, finalBranches, NoCurrent(|r|)));
      PassFromOrigin(l, r, meet, i, 0, BranchState(candidates, finalBranches, NoCurrent(|r|)));
      var f := Flush(r, p);
      forall k, b | 0 <= k < |f| && f[k].Some? && b in f[k].value ensures FromOperands(l, r, meet, b) {
        if p.current[k].Some? && b !in p.candidates[k].value {
          assert b == p.current[k].value;
        }
      }
      OuterFromOrigin(l, r, meet, i + 1, f, p.finalBranches);
    }
  }

  lemma {:induction false} RemainingFromLists<B>(candidates: seq<Option<seq<B>>>, b: B)
    requires b in Remaining(candidates)
    ensures exists k :: 0 <= k < |candidates| && candidates[k].Some? && b in candidates[k].value
  {
    var n := |candidates|;
    var last := candidates[n - 1];
    if b in Remaining(candidates[..n - 1]) {
      RemainingFromLists(candidates[..n - 1], b);
      var k :| 0 <= k < n - 1 && candidates[..n - 1][k].Some? && b in candidates[..n - 1][k].value;
      assert candidates[k] == candidates[..n - 1][k];
    } else {
      assert last.Some? && b in last.value;
    }
  }

  /** Every branch `intersectBranches` returns is an l branch, an r branch,
      or the intersection of an l branch with an r branch. */
  lemma IntersectBranchesOrigin<B>(l: seq<B>, r: seq<B>, meet: (B, B) -> BranchMeet<B>)
    ensures forall b :: b in IntersectBranchesSpec(l, r, meet) ==> FromOperands(l, r, meet, b)
  {
    OuterFromOrigin(l, r, meet, 0, FreshCandidates(|r|), []);
    var o := BranchOutcome(l, r, meet);
    forall b | b in IntersectBranchesSpec(l, r, meet) ensures FromOperands(l, r, meet, b) {
      if b !in o.1 {
        RemainingFromLists(o.0, b);
      }
    }
  }

  // ------------------------------------------------------------- disjoints

  /** No pair is identical and every pair is disjoint. */
  predicate AllDisjoint<B(==)>(l: seq<B>, r: seq<B>, meet: (B, B) -> BranchMeet<B>)
  {
    forall i, j :: 0 <= i < |l| && 0 <= j < |r| ==> l[i] != r[j] && meet(l[i], r[j]).Disjointed?
  }

  lemma {:induction false} PassFromDisjoint<B>(l: seq<B>, r: seq<B>, meet: (B, B) -> BranchMeet<B>, i: nat, j: nat, s: BranchState<B>)
    requires i < |l| && PassReady(r, j, s) && AllDisjoint(l, r, meet)
    ensures PassFrom(l[i], r, meet, j, s) == s
    decreases |r| - j
  {
    if j < |r| {
      PassFromDisjoint(l, r, meet, i, j + 1, s);
    }
  }

  lemma {:induction false} OuterFromDisjoint<B>(l: seq<B>, r: seq<B>, meet: (B, B) -> BranchMeet<B>, i: nat,
                                                candidates: seq<Option<seq<B>>>, finalBranches: seq<B>)
    requires i <= |l| && |candidates| == |r| && AllDisjoint(l, r, meet)
    ensures OuterFrom(l, r, meet, i, candidates, finalBranches) == (candidates, finalBranches)
    decreases |l| - i
  {
    if i < |l| {
      var s := BranchState(candidates, finalBranches, NoCurrent(|r|));
      PassFromDisjoint(l, r, meet, i, 0, s);
      assert Flush(r, s) == candidates;
      OuterFromDisjoint(l, r, meet, i + 1, candidates, finalBranches);
    }
  }

  lemma {:induction false} RemainingOfEmptyLists<B>(candidates: seq<Option<seq<B>>>)
    requires forall k :: 0 <= k < |candidates| ==> candidates[k] == Some([])
    ensures Remaining(candidates) == []
  {
    if |candidates| > 0 {
      RemainingOfEmptyLists(candidates[..|candidates| - 1]);
    }
  }

  /** Pairs whose intersection is a Disjoint contribute no branch: when every
      pair is disjoint the result is empty. */
  lemma AllDisjointGivesNoBranch<B>(l: seq<B>, r: seq<B>, meet: (B, B) -> BranchMeet<B>)
    requires AllDisjoint(l, r, meet)
    ensures IntersectBranchesSpec(l, r, meet) == []
  {
    OuterFromDisjoint(l, r, meet, 0, FreshCandidates(|r|), []);
    RemainingOfEmptyLists(FreshCandidates<B>(|r|));
  }

  /** With no branch on either side there is nothing to intersect. */
  lemma EmptyOperandGivesNoBranch<B>(l: seq<B>, r: seq<B>, meet: (B, B) -> BranchMeet<B>)
    ensures |l| == 0 || |r| == 0 ==> IntersectBranchesSpec(l, r, meet) == []
  {
    if |l| == 0 || |r| == 0 {
      AllDisjointGivesNoBranch(l, r, meet);
    }
  }

  // --------------------------------------------------------------- pruning

  /** Invariant of the algorithm: an r branch whose candidate list was
      dropped is among the final branches. */
  predicate PrunedAreFinal<B(==)>(r: seq<B>, candidates: seq<Option<seq<B>>>, finalBranches: seq<B>)
    requires |candidates| == |r|
  {
    forall k :: 0 <= k < |r| && candidates[k].None? ==> r[k] in finalBranches
  }

  /** The pass drops candidate lists only of r branches that are identical
      to, or a subtype of, the l branch, keeps every dropped list dropped,
      and only ever appends to the final branches. */
  lemma {:induction false} PassFromPrunes<B>(lb: B, r: seq<B>, meet: (B, B) -> BranchMeet<B>, j: nat, s: BranchState<B>)
    requires PassReady(r, j, s)
    requires PrunedAreFinal(r, s.candidates, s.finalBranches)
    ensures var p := PassFrom(lb, r, meet, j, s);
      && PrunedAreFinal(r, p.candidates, p.finalBranches)
      && s.finalBranches <= p.finalBranches
      && (forall k :: 0 <= k < |r| && p.candidates[k].None? && s.candidates[k].Some? ==>
            j <= k && (lb == r[k] || meet(lb, r[k]) == Meet(r[k])))
      && (forall k :: 0 <= k < |r| && s.candidates[k].None? ==> p.candidates[k].None?)
    decreases |r| - j
  {
    if j < |r| && s.candidates[j].Some? && lb != r[j] {
      match meet(lb, r[j])
      case Disjointed => PassFromPrunes(lb, r, meet, j + 1, s);
      case Meet(x) =>
        if x == lb {
        } else if x == r[j] {
          PassFromPrunes(lb, r, meet, j + 1, BranchState(s.candidates[j := None], s.finalBranches + [r[j]], s.current));
        } else {
          PassFromPrunes(lb, r, meet, j + 1, s.(current := s.current[j := Some(x)]));
        }
    } else if j < |r| && s.candidates[j].None? {
      PassFromPrunes(lb, r, meet, j + 1, s);
    }
  }

  /** When the pass reaches an r branch that is identical to, or a subtype
      of, the l branch (no earlier r branch of the pass being identical to
      the l branch or its supertype), that r branch's candidate list is
      dropped. */
  lemma {:induction false} PassFromReachesSubsumed<B>(lb: B, r: seq<B>, meet: (B, B) -> BranchMeet<B>, j: nat, t: nat, s: BranchState<B>)
    requires PassReady(r, j, s) && j <= t < |r|
    requires PrunedAreFinal(r, s.candidates, s.finalBranches)
    requires lb == r[t] || meet(lb, r[t]) == Meet(r[t])
    requires forall k :: j <= k < t ==> lb != r[k] && meet(lb, r[k]) != Meet(lb)
    ensures PassFrom(lb, r, meet, j, s).candidates[t].None?
    decreases |r| - j
  {
    if s.candidates[j].None? {
      if j < t {
        PassFromReachesSubsumed(lb, r, meet, j + 1, t, s);
      } else {
        PassFromPrunes(lb, r, meet, j + 1, s);
      }
    } else if lb != r[j] {
      match meet(lb, r[j])
      case Disjointed => PassFromReachesSubsumed(lb, r, meet, j + 1, t, s);
      case Meet(x) =>
        if x == lb {
        } else if x == r[j] {
          var s' := BranchState(s.candidates[j := None], s.finalBranches + [r[j]], s.current);
          if j < t {
            PassFromReachesSubsumed(lb, r, meet, j + 1, t, s');
          } else {
            PassFromPrunes(lb, r, meet, j + 1, s');
          }
        } else {
          PassFromReachesSubsumed(lb, r, meet, j + 1, t, s.(current := s.current[j := Some(x)]));
        }
    }
  }

  lemma {:induction false} OuterFromPrunes<B>(l: seq<B>, r: seq<B>, meet: (B, B) -> BranchMeet<B>, i: nat,
                                              candidates: seq<Option<seq<B>>>, finalBranches: seq<B>)
    requires i <= |l| && |candidates| == |r|
    requires PrunedAreFinal(r, candidates, finalBranches)
    ensures var o := OuterFrom(l, r, meet, i, candidates, finalBranches);
      && PrunedAreFinal(r, o.0, o.1)
      && (forall k :: 0 <= k < |r| && candidates[k].None? ==> o.0[k].None?)
    decreases |l| - i
  {
    if i < |l| {
      var s := BranchState(candidates, finalBranches, NoCurrent(|r|));
      var p := PassFrom(l[i], r, meet, 0, s);
      PassFromPrunes(l[i], r, meet, 0, s);
      OuterFromPrunes(l, r, meet, i + 1, Flush(r, p), p.finalBranches);
    }
  }

  lemma {:induction false} OuterFromReachesSubsumed<B>(l: seq<B>, r: seq<B>, meet: (B, B) -> BranchMeet<B>, i0: nat, i: nat, t: nat,
                                                       candidates: seq<Option<seq<B>>>, finalBranches: seq<B>)
    requires i0 <= i < |l| && t < |r| && |candidates| == |r|
    requires PrunedAreFinal(r, candidates, finalBranches)
    requires l[i] == r[t] || meet(l[i], r[t]) == Meet(r[t])
    requires forall k :: 0 <= k < t ==> l[i] != r[k] && meet(l[i], r[k]) != Meet(l[i])
    ensures OuterFrom(l, r, meet, i0, candidates, finalBranches).0[t].None?
    decreases i - i0
  {
    var s := BranchState(candidates, finalBranches, NoCurrent(|r|));
    var p := PassFrom(l[i0], r, meet, 0, s);
    PassFromPrunes(l[i0], r, meet, 0, s);
    if i0 == i {
      PassFromReachesSubsumed(l[i], r, meet, 0, t, s);
      OuterFromPrunes(l, r, meet, i0 + 1, Flush(r, p), p.finalBranches);
    } else {
      OuterFromReachesSubsumed(l, r, meet, i0 + 1, i, t, Flush(r, p), p.finalBranches);
    }
  }

  /** An r branch identical to, or a subtype of, an l branch is among the
      returned branches, and none of its candidate intersections survive,
      provided the pass of that l branch reaches it (no earlier r branch is
      identical to the l branch or its supertype). */
  lemma SubsumedRightBranchPruned<B>(l: seq<B>, r: seq<B>, meet: (B, B) -> BranchMeet<B>, i: nat, t: nat)
    requires i < |l| && t < |r|
    requires l[i] == r[t] || meet(l[i], r[t]) == Meet(r[t])
    requires forall k :: 0 <= k < t ==> l[i] != r[k] && meet(l[i], r[k]) != Meet(l[i])
    ensures BranchOutcome(l, r, meet).0[t].None?
    ensures r[t] in IntersectBranchesSpec(l, r, meet)
  {
    OuterFromReachesSubsumed(l, r, meet, 0, i, t, FreshCandidates(|r|), []);
    OuterFromPrunes(l, r, meet, 0, FreshCandidates(|r|), []);
  }

  /** An l branch that is a subtype of the live r branch `t` (reached by
      its pass) ends the pass: it is appended to the final branches, the
      candidates the pass produced are discarded, and no candidate list
      grows. */
  lemma {:induction false} LeftSubtypeDiscardsPass<B>(lb: B, r: seq<B>, meet: (B, B) -> BranchMeet<B>, j: nat, t: nat, s: BranchState<B>)
    requires PassReady(r, j, s) && j <= t < |r|
    requires s.candidates[t].Some? && lb != r[t] && meet(lb, r[t]) == Meet(lb)
    requires forall k :: j <= k < t ==> lb != r[k] && meet(lb, r[k]) != Meet(lb)
    ensures var p := PassFrom(lb, r, meet, j, s);
      && (forall k :: 0 <= k < |r| ==> p.current[k].None?)
      && |p.finalBranches| > 0 && p.finalBranches[|p.finalBranches| - 1] == lb
      && (forall k :: 0 <= k < |r| ==> p.candidates[k] == s.candidates[k] || p.candidates[k].None?)
    decreases |r| - j
  {
    if j < t && s.candidates[j].Some? {
      match meet(lb, r[j])
      case Disjointed => LeftSubtypeDiscardsPass(lb, r, meet, j + 1, t, s);
      case Meet(x) =>
        if x == r[j] {
          LeftSubtypeDiscardsPass(lb, r, meet, j + 1, t, BranchState(s.candidates[j := None], s.finalBranches + [r[j]], s.current));
        } else {
          LeftSubtypeDiscardsPass(lb, r, meet, j + 1, t, s.(current := s.current[j := Some(x)]));
        }
    } else if j < t {
      LeftSubtypeDiscardsPass(lb, r, meet, j + 1, t, s);
    }
  }

  // ----------------------------------------------------------------- unions

  /** What `UnionNode.intersectSymmetric` returns. */
  datatype UnionMeet<B> =
    | Receiver                                           // `this`
    | PresenceConflict(presence: Disjoint<bool, bool>)
    | UnionConflict(union: Disjoint<seq<B>, seq<B>>)

  /** `UnionNode.intersectSymmetric`: with no surviving branch, a "presence"
      Disjoint when exactly one side has no branch, else a "union" Disjoint;
      otherwise the receiver itself. */
  function UnionIntersect<B(==)>(l: seq<B>, r: seq<B>, meet: (B, B) -> BranchMeet<B>): (u: UnionMeet<B>)
    ensures u.Receiver? <==> IntersectBranchesSpec(l, r, meet) != []
    ensures u.PresenceConflict? ==> u.presence == Disjoint(PresenceKind, |l| != 0, |r| != 0)
    ensures u.UnionConflict? ==> u.union == Disjoint(UnionKind, l, r)
    ensures u.PresenceConflict? <==> (|l| == 0) != (|r| == 0)
  {
    EmptyOperandGivesNoBranch(l, r, meet);
    var resultBranches := IntersectBranchesSpec(l, r, meet);
    if |resultBranches| == 0 then
      if (|l| == 0 || |r| == 0) && |l| != |r| then PresenceConflict(Disjoint(PresenceKind, |l| != 0, |r| != 0))
      else UnionConflict(Disjoint(UnionKind, l, r))
    else Receiver
  }

  /** Two unions of no branch (`never`) conflict as unions, not by presence. */
  lemma NeverMeetsNeverAsUnions<B>(meet: (B, B) -> BranchMeet<B>)
    ensures UnionIntersect([], [], meet) == UnionConflict(Disjoint(UnionKind, [], []))
  {
  }
}
