/** The matcher of ark/type/match.ts: a record of cases, each a type
    definition and a morph, becomes a list of (`allows`, morph) pairs once;
    a call tries the cases in order and applies the morph of the first whose
    type allows the data. */
module ArkMatch {
  import opened Wrappers

  /** One case: the `allows` test of the type its definition parses to, and
      the morph to run on data it allows. */
  datatype Case<!D, R> = Case(when: D -> bool, morph: D -> R)

  /** The matcher a `match` call returns: the case list it closes over. */
  datatype Matcher<!D, R> = Matcher(cases: seq<Case<D, R>>)

  /** `parser(cases)`: each entry of the case record, in the host's order of
      its entries, becomes a case whose test is the `allows` of the type its
      key parses to (`allowsOf`, the type parser of the scope). The types are
      parsed here, once, and never again on a call. */
  function CreateMatcher<D, R>(entries: seq<(string, D -> R)>, allowsOf: string -> (D -> bool)): (m: Matcher<D, R>)
    ensures |m.cases| == |entries|
    ensures forall i :: 0 <= i < |entries| ==> m.cases[i].when == allowsOf(entries[i].0) && m.cases[i].morph == entries[i].1
  {
    Matcher(seq(|entries|, i requires 0 <= i < |entries| => Case(allowsOf(entries[i].0), entries[i].1)))
  }

  /** What a call of the matcher answers: the morph of the first case whose
      test allows the data, applied to the data; None (the host's
      `undefined`) when no case does. */
  function FirstMatch<D, R>(cases: seq<Case<D, R>>, data: D): (r: Option<R>)
    decreases |cases|
  {
    if |cases| == 0 then None
    else if cases[0].when(data) then Some(cases[0].morph(data))
    else FirstMatch(cases[1..], data)
  }

  /** The first allowing case decides the answer, and with no allowing case
      the answer is None. */
  lemma {:induction false} FirstAllowingCaseDecides<D, R>(cases: seq<Case<D, R>>, data: D)
    ensures forall i :: 0 <= i < |cases| && cases[i].when(data) && (forall j :: 0 <= j < i ==> !cases[j].when(data)) ==>
      FirstMatch(cases, data) == Some(cases[i].morph(data))
    ensures (forall i :: 0 <= i < |cases| ==> !cases[i].when(data)) <==> FirstMatch(cases, data) == None
    decreases |cases|
  {
    if |cases| > 0 {
      FirstAllowingCaseDecides(cases[1..], data);
      forall i | 0 <= i < |cases| && cases[i].when(data) && (forall j :: 0 <= j < i ==> !cases[j].when(data))
        ensures FirstMatch(cases, data) == Some(cases[i].morph(data))
      {
        if i > 0 {
          assert cases[1..][i - 1] == cases[i];
          assert forall j :: 0 <= j < i - 1 ==> cases[1..][j] == cases[j + 1];
        }
      }
      if FirstMatch(cases, data) == None {
        assert !cases[0].when(data);
        forall i | 0 <= i < |cases| ensures !cases[i].when(data) {
          if i > 0 { assert cases[i] == cases[1..][i - 1]; }
        }
      }
    }
  }

  /** Cases after an allowing one are never consulted: appending cases
      changes nothing once some case allows the data, and cases that all
      refuse it can be dropped from the front. */
  lemma {:induction false} LaterCasesNotRun<D, R>(before: seq<Case<D, R>>, after: seq<Case<D, R>>, data: D)
    ensures FirstMatch(before, data).Some? ==> FirstMatch(before + after, data) == FirstMatch(before, data)
    ensures FirstMatch(before, data).None? ==> FirstMatch(before + after, data) == FirstMatch(after, data)
    decreases |before|
  {
    if |before| > 0 {
      assert (before + after)[1..] == before[1..] + after;
      LaterCasesNotRun(before[1..], after, data);
    } else {
      assert before + after == after;
    }
  }

  /** Calling the matcher: a loop over the case list that returns at the
      first case whose test allows the data. The tests of the cases after it
      are not run; None is the `undefined` of a loop that finds no case. */
  method Call<D, R>(m: Matcher<D, R>, data: D) returns (r: Option<R>)
    ensures r == FirstMatch(m.cases, data)
  {
    var i := 0;
    while i < |m.cases|
      invariant 0 <= i <= |m.cases|
      invariant FirstMatch(m.cases[i..], data) == FirstMatch(m.cases, data)
    {
      var c := m.cases[i];
      if c.when(data) {
        return Some(c.morph(data));
      }
      assert m.cases[i..][1..] == m.cases[i + 1..];
      i := i + 1;
    }
    return None;
  }

  /** A matcher built from a record answers with the morph of the first
      entry whose definition allows the data. */
  lemma MatcherAnswersFirstEntry<D, R>(entries: seq<(string, D -> R)>, allowsOf: string -> (D -> bool), data: D, i: nat)
    requires i < |entries| && allowsOf(entries[i].0)(data)
    requires forall j :: 0 <= j < i ==> !allowsOf(entries[j].0)(data)
    ensures FirstMatch(CreateMatcher(entries, allowsOf).cases, data) == Some(entries[i].1(data))
  {
    FirstAllowingCaseDecides(CreateMatcher(entries, allowsOf).cases, data);
  }
}
