/** Property nodes of the older snapshot (src/nodes/props.ts): named props,
    each required, optional or prerequisite, and index signatures, each a
    pair of a key type and a value type.

    Type nodes are of an arbitrary type N and their intersection is the
    parameter `meet`; `never` is the never node. A key type is identified by
    a number, so that `===` on key types is equality of numbers, and whether
    it accepts a property name is the parameter `accepts`.

    An index signature is a two-slot tuple that the intersection overwrites
    in place, so it is an object here (`IndexEntry`); the tuples of the left
    operand are shared with the result, and writing into them changes the left
    operand too. */
module NodesProps {
  import opened Wrappers
  import opened Disjoints

  datatype PropKind = Required | Optional | Prerequisite

  /** The strength of a kind: optional < required < prerequisite. */
  function Rank(k: PropKind): nat
  {
    match k
    case Optional => 0
    case Required => 1
    case Prerequisite => 2
  }

  /** The kind of an intersected named prop: "prerequisite" if either side
      is, else "required" if either side is, else "optional"; that is, the
      stronger of the two. */
  function CombinedKind(l: PropKind, r: PropKind): (k: PropKind)
    ensures Rank(k) == if Rank(l) >= Rank(r) then Rank(l) else Rank(r)
    ensures k == l || k == r
  {
    if l == Prerequisite || r == Prerequisite then Prerequisite
    else if l == Required || r == Required then Required
    else Optional
  }

  datatype NamedProp<N> = NamedProp(kind: PropKind, value: N)

  datatype PropMeet<N> = PropMet(prop: NamedProp<N>) | PropClash(disjoint: Disjoint<N, N>)

  /** `NamedPropNode.intersection`: the values are intersected under the
      combined kind. A Disjoint between the values makes an optional prop
      whose value is `never` (the key may then only be absent), and is
      returned as it is for a required or prerequisite prop. */
  function IntersectNamed<N>(l: NamedProp<N>, r: NamedProp<N>, meet: (N, N) -> Meet<N>, never: N): (m: PropMeet<N>)
    ensures m.PropClash? <==> meet(l.value, r.value).Clash? && CombinedKind(l.kind, r.kind) != Optional
    ensures m.PropClash? ==> m.disjoint == meet(l.value, r.value).disjoint
    ensures m.PropMet? ==> m.prop.kind == CombinedKind(l.kind, r.kind)
    ensures m.PropMet? && meet(l.value, r.value).Met? ==> m.prop.value == meet(l.value, r.value).node
    ensures m.PropMet? && meet(l.value, r.value).Clash? ==> m.prop.value == never
  {
    var kind := CombinedKind(l.kind, r.kind);
    match meet(l.value, r.value)
    case Clash(d) => if kind == Optional then PropMet(NamedProp(kind, never)) else PropClash(d)
    case Met(value) => PropMet(NamedProp(kind, value))
  }

  /** When the value intersection does not depend on the order of its
      operands, neither does the named-prop intersection. */
  lemma IntersectNamedCommutes<N>(l: NamedProp<N>, r: NamedProp<N>, meet: (N, N) -> Meet<N>, never: N)
    requires meet(l.value, r.value).Met? <==> meet(r.value, l.value).Met?
    requires meet(l.value, r.value).Met? ==> meet(l.value, r.value).node == meet(r.value, l.value).node
    ensures IntersectNamed(l, r, meet, never).PropMet? <==> IntersectNamed(r, l, meet, never).PropMet?
    ensures IntersectNamed(l, r, meet, never).PropMet? ==>
      IntersectNamed(l, r, meet, never).prop == IntersectNamed(r, l, meet, never).prop
  {
  }

  /** An index signature: `[keyType, valueType]`; only the value slot is ever
      written. */
  class IndexEntry<N> {
    const key: nat
    var value: N

    constructor (key: nat, value: N)
      ensures this.key == key && this.value == value
    {
      this.key := key;
      this.value := value;
    }
  }

  /** The current contents of a list of index signatures. */
  function Values<N>(entries: seq<IndexEntry<N>>): (vs: seq<(nat, N)>)
    reads entries
    ensures |vs| == |entries|
    ensures forall t :: 0 <= t < |entries| ==> vs[t] == (entries[t].key, entries[t].value)
  {
    if entries == [] then [] else [(entries[0].key, entries[0].value)] + Values(entries[1..])
  }

  /** No tuple object occurs twice. */
  predicate Distinct<N>(entries: seq<IndexEntry<N>>)
  {
    forall a, b :: 0 <= a < b < |entries| ==> entries[a] != entries[b]
  }

  /** The key types of a list of index signatures. */
  function Keys<N>(entries: seq<(nat, N)>): (ks: set<nat>)
    ensures forall t :: 0 <= t < |entries| ==> entries[t].0 in ks
    ensures forall k :: k in ks ==> exists t :: 0 <= t < |entries| && entries[t].0 == k
  {
    set t | 0 <= t < |entries| :: entries[t].0
  }

  predicate DistinctKeys<N>(entries: seq<(nat, N)>)
  {
    forall a, b :: 0 <= a < b < |entries| ==> entries[a].0 != entries[b].0
  }

  /** `findIndex` by key: the first position holding the key, or -1. */
  function FindKey<N>(entries: seq<(nat, N)>, key: nat): (i: int)
    ensures -1 <= i < |entries|
    ensures i >= 0 ==> entries[i].0 == key && forall t :: 0 <= t < i ==> entries[t].0 != key
    ensures i == -1 ==> key !in Keys(entries)
  {
    if entries == [] then -1
    else if entries[0].0 == key then 0
    else
      var i := FindKey(entries[1..], key);
      if i == -1 then -1 else i + 1
  }

  /** The value an index signature gets when a signature with the same key
      type is merged into it. */
  function MeetOrNever<N>(a: N, b: N, meet: (N, N) -> Meet<N>, never: N): N
  {
    if meet(a, b).Clash? then never else meet(a, b).node
  }

  /** Merging one r signature `x` into the signatures `acc`: appended when
      its key type is absent, else its value is intersected into the first
      signature with that key type. */
  function MergeStep<N>(acc: seq<(nat, N)>, x: (nat, N), meet: (N, N) -> Meet<N>, never: N): (next: seq<(nat, N)>)
    ensures |next| >= |acc| && forall t :: 0 <= t < |acc| ==> next[t].0 == acc[t].0
    ensures forall t :: 0 <= t < |acc| && acc[t].0 != x.0 ==> next[t] == acc[t]
  {
    var i := FindKey(acc, x.0);
    if i == -1 then acc + [x]
    else acc[i := (acc[i].0, MeetOrNever(acc[i].1, x.1, meet, never))]
  }

  /** A merge step adds x's key type to the key types and keeps them
      pairwise distinct. */
  lemma MergeStepKeys<N>(acc: seq<(nat, N)>, x: (nat, N), meet: (N, N) -> Meet<N>, never: N)
    ensures Keys(MergeStep(acc, x, meet, never)) == Keys(acc) + {x.0}
    ensures DistinctKeys(acc) ==> DistinctKeys(MergeStep(acc, x, meet, never))
  {
    var i := FindKey(acc, x.0);
    if i == -1 {
      KeysAppend(acc, x);
    } else {
      KeysUpdate(acc, i, MeetOrNever(acc[i].1, x.1, meet, never));
    }
  }

  lemma KeysAppend<N>(acc: seq<(nat, N)>, x: (nat, N))
    ensures Keys(acc + [x]) == Keys(acc) + {x.0}
  {
    assert (acc + [x])[|acc|] == x;
    forall k | k in Keys(acc + [x]) ensures k in Keys(acc) + {x.0} {
      var t :| 0 <= t < |acc + [x]| && (acc + [x])[t].0 == k;
      if t < |acc| {
        assert acc[t].0 == k;
      }
    }
    forall k | k in Keys(acc) ensures k in Keys(acc + [x]) {
      var t :| 0 <= t < |acc| && acc[t].0 == k;
      assert (acc + [x])[t].0 == k;
    }
  }

  lemma KeysUpdate<N>(acc: seq<(nat, N)>, i: nat, v: N)
    requires i < |acc|
    ensures Keys(acc[i := (acc[i].0, v)]) == Keys(acc)
  {
    var next := acc[i := (acc[i].0, v)];
    assert forall t :: 0 <= t < |acc| ==> next[t].0 == acc[t].0;
  }

  lemma KeysCons<N>(rest: seq<(nat, N)>)
    requires rest != []
    ensures Keys(rest) == {rest[0].0} + Keys(rest[1..])
  {
    forall k | k in Keys(rest) ensures k in {rest[0].0} + Keys(rest[1..]) {
      var t :| 0 <= t < |rest| && rest[t].0 == k;
      if t > 0 {
        assert rest[1..][t - 1].0 == k;
      }
    }
    forall k | k in Keys(rest[1..]) ensures k in Keys(rest) {
      var t :| 0 <= t < |rest[1..]| && rest[1..][t].0 == k;
      assert rest[t + 1].0 == k;
    }
  }

  /** The signatures after merging in the r signatures `rest` one by one. */
  function MergeIndexedFrom<N>(acc: seq<(nat, N)>, rest: seq<(nat, N)>, meet: (N, N) -> Meet<N>, never: N): (m: seq<(nat, N)>)
    ensures |m| >= |acc|
    decreases |rest|
  {
    if rest == [] then acc
    else MergeIndexedFrom(MergeStep(acc, rest[0], meet, never), rest[1..], meet, never)
  }

  function MergeIndexed<N>(l: seq<(nat, N)>, r: seq<(nat, N)>, meet: (N, N) -> Meet<N>, never: N): (m: seq<(nat, N)>)
    ensures |m| >= |l|
  {
    MergeIndexedFrom(l, r, meet, never)
  }

  /** The merged signatures start with l's key types in l's order, and their
      key types are exactly those of l and r. */
  lemma {:induction false} MergeIndexedKeys<N>(acc: seq<(nat, N)>, rest: seq<(nat, N)>, meet: (N, N) -> Meet<N>, never: N)
    ensures var m := MergeIndexedFrom(acc, rest, meet, never);
            (forall t :: 0 <= t < |acc| ==> m[t].0 == acc[t].0)
            && Keys(m) == Keys(acc) + Keys(rest)
    decreases |rest|
  {
    if rest != [] {
      var next := MergeStep(acc, rest[0], meet, never);
      MergeStepKeys(acc, rest[0], meet, never);
      MergeIndexedKeys(next, rest[1..], meet, never);
      KeysCons(rest);
    }
  }

  /** Key types stay pairwise distinct if they were in l, and a signature of
      l whose key type r does not mention keeps its value. */
  lemma {:induction false} MergeIndexedValues<N>(acc: seq<(nat, N)>, rest: seq<(nat, N)>, meet: (N, N) -> Meet<N>, never: N)
    ensures var m := MergeIndexedFrom(acc, rest, meet, never);
            (DistinctKeys(acc) ==> DistinctKeys(m))
            && (forall t :: 0 <= t < |acc| && acc[t].0 !in Keys(rest) ==> m[t] == acc[t])
    decreases |rest|
  {
    if rest != [] {
      var next := MergeStep(acc, rest[0], meet, never);
      MergeStepKeys(acc, rest[0], meet, never);
      MergeIndexedValues(next, rest[1..], meet, never);
      KeysCons(rest);
    }
  }

  /** The first phase of `PropsNode.intersection`: start from a copy of l's
      list (the same tuple objects), then for each r signature in order
      either push a new tuple of its key type and value or overwrite the
      value slot of the first tuple with its key type. The tuples written are
      shared with l, so l's own signatures end up holding the merged values;
      r's tuples are never written. */
  method MergeIndexEntries<N>(l: seq<IndexEntry<N>>, r: seq<IndexEntry<N>>, meet: (N, N) -> Meet<N>, never: N)
    returns (indexed: seq<IndexEntry<N>>)
    requires Distinct(l + r)
    modifies l
    ensures |indexed| >= |l| && indexed[..|l|] == l
    ensures forall e :: e in indexed ==> e in l || fresh(e)
    ensures Values(r) == old(Values(r))
    ensures Values(indexed) == MergeIndexed(old(Values(l)), old(Values(r)), meet, never)
    ensures Values(l) == MergeIndexed(old(Values(l)), old(Values(r)), meet, never)[..|l|]
  {
    ghost var lv, rv := Values(l), Values(r);
    DistinctParts(l, r);
    ghost var vals;
    indexed, vals := MergeLoop(l, r, lv, rv, meet, never);
    assert rv[|r|..] == [];
    MirrorsValues(indexed, vals);
    MirrorsValues(l, vals[..|l|]);
  }

  /** The loop of the first phase, from the state where nothing is merged
      yet to the state where all of r is. */
  method MergeLoop<N>(l: seq<IndexEntry<N>>, r: seq<IndexEntry<N>>, ghost lv: seq<(nat, N)>, ghost rv: seq<(nat, N)>,
                      meet: (N, N) -> Meet<N>, never: N)
    returns (indexed: seq<IndexEntry<N>>, ghost vals: seq<(nat, N)>)
    requires Merging(l, r, lv, rv, 0, l, lv, meet, never)
    modifies l
    ensures Merging(l, r, lv, rv, |r|, indexed, vals, meet, never)
    ensures forall e :: e in indexed ==> e in l || fresh(e)
  {
    indexed, vals := l, lv;
    var j := 0;
    while j < |r|
      invariant j <= |r| && Merging(l, r, lv, rv, j, indexed, vals, meet, never)
      invariant forall e :: e in indexed ==> e in l || fresh(e)
    {
      indexed, vals := MergeAt(l, r, lv, rv, j, indexed, vals, meet, never);
      j := j + 1;
    }
  }

  /** The state of the first phase after j of r's signatures: the list
      starts with l's tuples and holds each tuple once; the tuples mirror the
      ghost values `vals`; r's tuples are not in the list and still hold
      their first values; and merging the remaining values into `vals` gives
      the merge of all of them. */
  ghost predicate Merging<N>(l: seq<IndexEntry<N>>, r: seq<IndexEntry<N>>, lv: seq<(nat, N)>, rv: seq<(nat, N)>, j: nat,
                             indexed: seq<IndexEntry<N>>, vals: seq<(nat, N)>, meet: (N, N) -> Meet<N>, never: N)
    reads l, r, indexed
  {
    j <= |r| == |rv|
    && |indexed| >= |l| && indexed[..|l|] == l
    && Distinct(indexed) && Distinct(r)
    && Mirrors(indexed, vals)
    && (forall t :: 0 <= t < |r| ==> r[t] !in indexed)
    && (forall t :: 0 <= t < |r| ==> r[t].key == rv[t].0 && r[t].value == rv[t].1)
    && MergeIndexedFrom(vals, rv[j..], meet, never) == MergeIndexed(lv, rv, meet, never)
  }

  /** One pass of the first phase's loop keeps the state. */
  method MergeAt<N>(l: seq<IndexEntry<N>>, r: seq<IndexEntry<N>>, ghost lv: seq<(nat, N)>, ghost rv: seq<(nat, N)>, j: nat,
                    indexed: seq<IndexEntry<N>>, ghost vals: seq<(nat, N)>, meet: (N, N) -> Meet<N>, never: N)
    returns (next: seq<IndexEntry<N>>, ghost nextVals: seq<(nat, N)>)
    requires j < |r| && Merging(l, r, lv, rv, j, indexed, vals, meet, never)
    modifies set e | e in indexed
    ensures Merging(l, r, lv, rv, j + 1, next, nextVals, meet, never)
    ensures forall e :: e in next ==> e in indexed || fresh(e)
  {
    next, nextVals := MergeOne(indexed, vals, r[j], rv[j], meet, never);
    assert next[..|l|] == next[..|indexed|][..|l|];
    MergeIndexedFromStep(vals, nextVals, rv, j, MergeIndexed(lv, rv, meet, never), meet, never);
  }

  /** One step of the first phase: a new tuple holding the key type and
      value of the r tuple `entry` is pushed when no tuple has its key type,
      else the first such tuple's value is overwritten with the
      intersection. Only that tuple changes. */
  method MergeOne<N>(indexed: seq<IndexEntry<N>>, ghost vals: seq<(nat, N)>, entry: IndexEntry<N>, ghost x: (nat, N),
                     meet: (N, N) -> Meet<N>, never: N)
    returns (next: seq<IndexEntry<N>>, ghost nextVals: seq<(nat, N)>)
    requires Distinct(indexed) && Mirrors(indexed, vals)
    requires x == (entry.key, entry.value)
    modifies set e | e in indexed
    ensures |next| >= |indexed| && next[..|indexed|] == indexed
    ensures forall e :: e in next ==> e in indexed || fresh(e)
    ensures Distinct(next) && Mirrors(next, nextVals)
    ensures nextVals == MergeStep(vals, x, meet, never)
  {
    MirrorsValues(indexed, vals);
    var i := FindKey(Values(indexed), entry.key);
    if i == -1 {
      var pushed := new IndexEntry(entry.key, entry.value);
      PushKeepsDistinct(indexed, vals, pushed);
      next := indexed + [pushed];
      nextVals := vals + [(entry.key, entry.value)];
    } else {
      var target := indexed[i];
      assert forall t :: 0 <= t < |indexed| && t != i ==> indexed[t] != target;
      nextVals := vals[i := (vals[i].0, MeetOrNever(vals[i].1, entry.value, meet, never))];
      target.value := MeetOrNever(target.value, entry.value, meet, never);
      next := indexed;
    }
  }

  /** Pushing a tuple not yet listed keeps the list repeat-free and
      mirroring the values with the new tuple's appended. */
  lemma PushKeepsDistinct<N>(indexed: seq<IndexEntry<N>>, vals: seq<(nat, N)>, pushed: IndexEntry<N>)
    requires Distinct(indexed) && Mirrors(indexed, vals) && pushed !in indexed
    ensures Distinct(indexed + [pushed]) && Mirrors(indexed + [pushed], vals + [(pushed.key, pushed.value)])
  {
    var next := indexed + [pushed];
    assert forall t :: 0 <= t < |indexed| ==> next[t] == indexed[t];
  }

  lemma MirrorsValues<N>(entries: seq<IndexEntry<N>>, vals: seq<(nat, N)>)
    requires Mirrors(entries, vals)
    ensures Values(entries) == vals
  {
  }

  /** Merging the r signatures from position j on is merging r[j], then the
      rest. */
  lemma MergeIndexedFromStep<N>(acc: seq<(nat, N)>, next: seq<(nat, N)>, rest: seq<(nat, N)>, j: nat, target: seq<(nat, N)>,
                                meet: (N, N) -> Meet<N>, never: N)
    requires j < |rest| && next == MergeStep(acc, rest[j], meet, never)
    requires MergeIndexedFrom(acc, rest[j..], meet, never) == target
    ensures MergeIndexedFrom(next, rest[j + 1..], meet, never) == target
  {
    assert rest[j..][0] == rest[j] && rest[j..][1..] == rest[j + 1..];
  }

  /** The tuples hold the given key types and values. */
  ghost predicate Mirrors<N>(entries: seq<IndexEntry<N>>, vals: seq<(nat, N)>)
    reads entries
  {
    |entries| == |vals| && forall t :: 0 <= t < |entries| ==> entries[t].key == vals[t].0 && entries[t].value == vals[t].1
  }

  /** Distinct tuples of l + r: those of l, those of r, and none in both. */
  lemma DistinctParts<N>(l: seq<IndexEntry<N>>, r: seq<IndexEntry<N>>)
    requires Distinct(l + r)
    ensures Distinct(l) && Distinct(r)
    ensures forall t :: 0 <= t < |r| ==> r[t] !in l
  {
    forall t | 0 <= t < |r| ensures r[t] !in l {
      forall x | 0 <= x < |l| ensures l[x] != r[t] {
        assert (l + r)[x] == l[x] && (l + r)[|l| + t] == r[t];
      }
    }
    forall a, b | 0 <= a < b < |l| ensures l[a] != l[b] {
      assert (l + r)[a] == l[a] && (l + r)[b] == l[b];
    }
    forall a, b | 0 <= a < b < |r| ensures r[a] != r[b] {
      assert (l + r)[|l| + a] == r[a] && (l + r)[|l| + b] == r[b];
    }
  }

  /** The props of a node: named props under their keys, in key order, and
      index signatures. */
  datatype Props<N> = Props(names: seq<string>, named: map<string, NamedProp<N>>, indexed: seq<IndexEntry<N>>)

  /** `names` lists each key of `named` once. */
  ghost predicate WellFormed<N>(p: Props<N>)
  {
    (forall a, b :: 0 <= a < b < |p.names| ==> p.names[a] != p.names[b])
    && (forall k :: k in p.named <==> k in p.names)
  }

  /** The keys of r that l lacks, in r's order. */
  function NewNames<N>(rNames: seq<string>, lNamed: map<string, NamedProp<N>>): (ns: seq<string>)
    ensures forall k :: k in ns <==> k in rNames && k !in lNamed
    ensures (forall a, b :: 0 <= a < b < |rNames| ==> rNames[a] != rNames[b]) ==>
      forall a, b :: 0 <= a < b < |ns| ==> ns[a] != ns[b]
  {
    if rNames == [] then []
    else
      var tail := NewNames(rNames[1..], lNamed);
      assert forall k :: k in rNames[1..] ==> k in rNames;
      if rNames[0] in lNamed then tail
      else
        assert (forall a, b :: 0 <= a < b < |rNames| ==> rNames[a] != rNames[b]) ==> rNames[0] !in rNames[1..];
        [rNames[0]] + tail
  }

  /** The key order of `{...l.named, ...r.named}`: l's keys, then r's new
      keys. */
  function SpreadNames<N>(l: Props<N>, r: Props<N>): seq<string>
  {
    l.names + NewNames(r.names, l.named)
  }

  /** The spread keeps l's keys first, lists each key of either side once,
      and takes r's prop where both sides have one. */
  lemma SpreadIsUnion<N>(l: Props<N>, r: Props<N>)
    requires WellFormed(l) && WellFormed(r)
    ensures var names := SpreadNames(l, r);
            names[..|l.names|] == l.names
            && (forall a, b :: 0 <= a < b < |names| ==> names[a] != names[b])
            && (forall k :: k in names <==> k in l.named || k in r.named)
            && (forall k :: k in (l.named + r.named) <==> k in names)
  {
    var names := SpreadNames(l, r);
    var extra := NewNames(r.names, l.named);
    forall a, b | 0 <= a < b < |names| ensures names[a] != names[b] {
      if b >= |l.names| && a < |l.names| {
        assert names[b] == extra[b - |l.names|] && names[a] == l.names[a];
        assert names[b] in extra;
      } else if a >= |l.names| {
        assert names[a] == extra[a - |l.names|] && names[b] == extra[b - |l.names|];
      }
    }
  }

  /** How the branch test of the named-prop loop decides whether a key is on
      a side: as written, `k in l` asks the node object, whose keys are its
      fields and methods (`nodeKeys`), never its named props; the intended
      test asks the side's own named props. */
  datatype BranchTest = ObjectKeys(nodeKeys: set<string>) | NamedKeys

  predicate OnSide<N>(test: BranchTest, side: Props<N>, k: string)
  {
    match test
    case ObjectKeys(nodeKeys) => k in nodeKeys
    case NamedKeys => k in side.named
  }

  const MissingRule: Thrown := HostTypeError("Cannot read properties of undefined")

  /** Intersecting a named prop, as an optional prop, with the value of each
      index signature whose key type accepts the name; the first Disjoint
      ends the search. */
  function FoldIndex<N>(prop: NamedProp<N>, idx: seq<(nat, N)>, k: string, accepts: (nat, string) -> bool,
                        meet: (N, N) -> Meet<N>, never: N): PropMeet<N>
    decreases |idx|
  {
    if idx == [] then PropMet(prop)
    else if accepts(idx[0].0, k) then
      match IntersectNamed(prop, NamedProp(Optional, idx[0].1), meet, never)
      case PropClash(d) => PropClash(d)
      case PropMet(p) => FoldIndex(p, idx[1..], k, accepts, meet, never)
    else FoldIndex(prop, idx[1..], k, accepts, meet, never)
  }

  /** Folding index values in keeps the prop's kind, can only fail for a
      required or prerequisite prop, and changes nothing when no key type
      accepts the name. */
  lemma {:induction false} FoldIndexKeepsKind<N>(prop: NamedProp<N>, idx: seq<(nat, N)>, k: string,
                                                accepts: (nat, string) -> bool, meet: (N, N) -> Meet<N>, never: N)
    ensures FoldIndex(prop, idx, k, accepts, meet, never).PropMet? ==> FoldIndex(prop, idx, k, accepts, meet, never).prop.kind == prop.kind
    ensures prop.kind == Optional ==> FoldIndex(prop, idx, k, accepts, meet, never).PropMet?
    ensures (forall t :: 0 <= t < |idx| ==> !accepts(idx[t].0, k)) ==> FoldIndex(prop, idx, k, accepts, meet, never) == PropMet(prop)
    decreases |idx|
  {
    if idx != [] {
      if accepts(idx[0].0, k) {
        var m := IntersectNamed(prop, NamedProp(Optional, idx[0].1), meet, never);
        if m.PropMet? {
          FoldIndexKeepsKind(m.prop, idx[1..], k, accepts, meet, never);
        }
      } else {
        FoldIndexKeepsKind(prop, idx[1..], k, accepts, meet, never);
      }
    }
  }

  /** The prop one iteration of the named loop computes for key k, whose
      spread prop is `current`: both sides' props intersected when the test
      puts k on both sides (a host TypeError when one of them has no such
      named prop), else `current` met with the opposite side's index
      signatures. */
  function PropForKey<N>(k: string, current: NamedProp<N>, l: Props<N>, r: Props<N>, lIdx: seq<(nat, N)>, rIdx: seq<(nat, N)>,
                         test: BranchTest, accepts: (nat, string) -> bool, meet: (N, N) -> Meet<N>, never: N): Result<PropMeet<N>>
  {
    if OnSide(test, l, k) then
      if OnSide(test, r, k) then
        if k in l.named && k in r.named then Ok(IntersectNamed(l.named[k], r.named[k], meet, never))
        else Err(MissingRule)
      else Ok(FoldIndex(current, rIdx, k, accepts, meet, never))
    else Ok(FoldIndex(current, lIdx, k, accepts, meet, never))
  }

  datatype NamedMeet<N> = NamedMet(named: map<string, NamedProp<N>>) | NamedClash(disjoint: Disjoint<N, N>)

  /** The named loop from position i on: each key's prop replaces its spread
      prop, and the first Disjoint or error ends the loop. */
  function NamedFrom<N>(names: seq<string>, i: nat, named: map<string, NamedProp<N>>, l: Props<N>, r: Props<N>,
                        lIdx: seq<(nat, N)>, rIdx: seq<(nat, N)>, test: BranchTest, accepts: (nat, string) -> bool,
                        meet: (N, N) -> Meet<N>, never: N): Result<NamedMeet<N>>
    requires forall t :: i <= t < |names| ==> names[t] in named
    decreases |names| - i
  {
    if i >= |names| then Ok(NamedMet(named))
    else
      match PropForKey(names[i], named[names[i]], l, r, lIdx, rIdx, test, accepts, meet, never)
      case Err(e) => Err(e)
      case Ok(PropClash(d)) => Ok(NamedClash(d))
      case Ok(PropMet(p)) => NamedFrom(names, i + 1, named[names[i] := p], l, r, lIdx, rIdx, test, accepts, meet, never)
  }

  /** The second phase of `PropsNode.intersection`, over the spread of both
      sides' named props; `lIdx` and `rIdx` are the index signatures as the
      first phase left them. */
  function MergeNamed<N>(l: Props<N>, r: Props<N>, lIdx: seq<(nat, N)>, rIdx: seq<(nat, N)>, test: BranchTest,
                         accepts: (nat, string) -> bool, meet: (N, N) -> Meet<N>, never: N): Result<NamedMeet<N>>
    requires WellFormed(l) && WellFormed(r)
  {
    SpreadIsUnion(l, r);
    NamedFrom(SpreadNames(l, r), 0, l.named + r.named, l, r, lIdx, rIdx, test, accepts, meet, never)
  }

  /** A completed loop sets every remaining key to the prop computed for it
      from its prop at the start, and leaves every other key as it was. */
  lemma {:induction false} NamedFromResult<N>(names: seq<string>, i: nat, named: map<string, NamedProp<N>>, l: Props<N>, r: Props<N>,
                                             lIdx: seq<(nat, N)>, rIdx: seq<(nat, N)>, test: BranchTest, accepts: (nat, string) -> bool,
                                             meet: (N, N) -> Meet<N>, never: N)
    requires i <= |names|
    requires forall t :: i <= t < |names| ==> names[t] in named
    requires forall a, b :: 0 <= a < b < |names| ==> names[a] != names[b]
    ensures var res := NamedFrom(names, i, named, l, r, lIdx, rIdx, test, accepts, meet, never);
            res.Ok? && res.value.NamedMet? ==>
              res.value.named.Keys == named.Keys
              && (forall k :: k in named && k !in names[i..] ==> res.value.named[k] == named[k])
              && (forall t :: i <= t < |names| ==>
                    PropForKey(names[t], named[names[t]], l, r, lIdx, rIdx, test, accepts, meet, never)
                    == Ok(PropMet(res.value.named[names[t]])))
    decreases |names| - i
  {
    if i < |names| {
      var pr := PropForKey(names[i], named[names[i]], l, r, lIdx, rIdx, test, accepts, meet, never);
      if pr.Ok? && pr.value.PropMet? {
        var next := named[names[i] := pr.value.prop];
        NamedFromResult(names, i + 1, next, l, r, lIdx, rIdx, test, accepts, meet, never);
        assert names[i] !in names[i + 1..] by {
          forall t | i + 1 <= t < |names| ensures names[t] != names[i] {
          }
        }
        assert names[i..] == [names[i]] + names[i + 1..];
      }
    }
  }

  /** The outcome for one key of a completed loop with the intended test. */
  lemma KeyOutcome<N>(l: Props<N>, r: Props<N>, lIdx: seq<(nat, N)>, rIdx: seq<(nat, N)>,
                      accepts: (nat, string) -> bool, meet: (N, N) -> Meet<N>, never: N, k: string)
    requires WellFormed(l) && WellFormed(r)
    requires MergeNamed(l, r, lIdx, rIdx, NamedKeys, accepts, meet, never).Ok?
    requires MergeNamed(l, r, lIdx, rIdx, NamedKeys, accepts, meet, never).value.NamedMet?
    requires k in l.named || k in r.named
    ensures var m := MergeNamed(l, r, lIdx, rIdx, NamedKeys, accepts, meet, never).value.named;
            k in m
            && PropForKey(k, (l.named + r.named)[k], l, r, lIdx, rIdx, NamedKeys, accepts, meet, never) == Ok(PropMet(m[k]))
  {
    SpreadIsUnion(l, r);
    var names := SpreadNames(l, r);
    NamedFromResult(names, 0, l.named + r.named, l, r, lIdx, rIdx, NamedKeys, accepts, meet, never);
    var t := KeyPosition(names, k);
  }

  /** The position of a key in a list of keys. */
  function KeyPosition(names: seq<string>, k: string): (t: nat)
    requires k in names
    ensures t < |names| && names[t] == k
  {
    if names[0] == k then 0 else 1 + KeyPosition(names[1..], k)
  }

  /** With the intended test the named loop never raises, and a completed
      loop gives: for a key on both sides, the intersection of the two
      props; for a key on one side only, that prop met with the other side's
      index signatures; and no other keys. */
  lemma IntersectedNamedProps<N>(l: Props<N>, r: Props<N>, lIdx: seq<(nat, N)>, rIdx: seq<(nat, N)>,
                                 accepts: (nat, string) -> bool, meet: (N, N) -> Meet<N>, never: N)
    requires WellFormed(l) && WellFormed(r)
    ensures MergeNamed(l, r, lIdx, rIdx, NamedKeys, accepts, meet, never).Ok?
    ensures var res := MergeNamed(l, r, lIdx, rIdx, NamedKeys, accepts, meet, never);
            res.value.NamedMet? ==>
              (forall k :: k in res.value.named <==> k in l.named || k in r.named)
              && (forall k :: k in l.named && k in r.named ==>
                    IntersectNamed(l.named[k], r.named[k], meet, never) == PropMet(res.value.named[k]))
              && (forall k :: k in l.named && k !in r.named ==>
                    FoldIndex(l.named[k], rIdx, k, accepts, meet, never) == PropMet(res.value.named[k]))
              && (forall k :: k !in l.named && k in r.named ==>
                    FoldIndex(r.named[k], lIdx, k, accepts, meet, never) == PropMet(res.value.named[k]))
  {
    SpreadIsUnion(l, r);
    NamedFromNeverRaises(SpreadNames(l, r), 0, l.named + r.named, l, r, lIdx, rIdx, accepts, meet, never);
    var res := MergeNamed(l, r, lIdx, rIdx, NamedKeys, accepts, meet, never);
    if res.value.NamedMet? {
      var m := res.value.named;
      MergedKeys(l, r, lIdx, rIdx, NamedKeys, accepts, meet, never);
      forall k | k in l.named || k in r.named
        ensures k in m
        ensures k in l.named && k in r.named ==> IntersectNamed(l.named[k], r.named[k], meet, never) == PropMet(m[k])
        ensures k in l.named && k !in r.named ==> FoldIndex(l.named[k], rIdx, k, accepts, meet, never) == PropMet(m[k])
        ensures k !in l.named && k in r.named ==> FoldIndex(r.named[k], lIdx, k, accepts, meet, never) == PropMet(m[k])
      {
        KeyOutcome(l, r, lIdx, rIdx, accepts, meet, never, k);
        KeyCases(l, r, lIdx, rIdx, accepts, meet, never, k, m[k]);
      }
    }
  }

  /** A completed named loop has exactly the keys of both sides. */
  lemma MergedKeys<N>(l: Props<N>, r: Props<N>, lIdx: seq<(nat, N)>, rIdx: seq<(nat, N)>, test: BranchTest,
                      accepts: (nat, string) -> bool, meet: (N, N) -> Meet<N>, never: N)
    requires WellFormed(l) && WellFormed(r)
    ensures var res := MergeNamed(l, r, lIdx, rIdx, test, accepts, meet, never);
            res.Ok? && res.value.NamedMet? ==> res.value.named.Keys == l.named.Keys + r.named.Keys
  {
    SpreadIsUnion(l, r);
    NamedFromResult(SpreadNames(l, r), 0, l.named + r.named, l, r, lIdx, rIdx, test, accepts, meet, never);
  }

  /** What the prop computed for a key of either side is, with the intended
      test, by which sides name the key. */
  lemma KeyCases<N>(l: Props<N>, r: Props<N>, lIdx: seq<(nat, N)>, rIdx: seq<(nat, N)>,
                    accepts: (nat, string) -> bool, meet: (N, N) -> Meet<N>, never: N, k: string, p: NamedProp<N>)
    requires k in l.named || k in r.named
    requires PropForKey(k, (l.named + r.named)[k], l, r, lIdx, rIdx, NamedKeys, accepts, meet, never) == Ok(PropMet(p))
    ensures k in l.named && k in r.named ==> IntersectNamed(l.named[k], r.named[k], meet, never) == PropMet(p)
    ensures k in l.named && k !in r.named ==> FoldIndex(l.named[k], rIdx, k, accepts, meet, never) == PropMet(p)
    ensures k !in l.named && k in r.named ==> FoldIndex(r.named[k], lIdx, k, accepts, meet, never) == PropMet(p)
  {
  }

  /** With the intended test no key reaches the host TypeError. */
  lemma {:induction false} NamedFromNeverRaises<N>(names: seq<string>, i: nat, named: map<string, NamedProp<N>>, l: Props<N>, r: Props<N>,
                                                  lIdx: seq<(nat, N)>, rIdx: seq<(nat, N)>, accepts: (nat, string) -> bool,
                                                  meet: (N, N) -> Meet<N>, never: N)
    requires forall t :: i <= t < |names| ==> names[t] in named
    requires forall t :: i <= t < |names| ==> names[t] in l.named || names[t] in r.named
    ensures NamedFrom(names, i, named, l, r, lIdx, rIdx, NamedKeys, accepts, meet, never).Ok?
    decreases |names| - i
  {
    if i < |names| {
      var pr := PropForKey(names[i], named[names[i]], l, r, lIdx, rIdx, NamedKeys, accepts, meet, never);
      if pr.Ok? && pr.value.PropMet? {
        NamedFromNeverRaises(names, i + 1, named[names[i] := pr.value.prop], l, r, lIdx, rIdx, accepts, meet, never);
      }
    }
  }

  /** As written, a key named on both sides but absent from the node
      object's own keys takes the other branch: r's prop wins the spread and
      is only met with l's index signatures, so l's prop is dropped. With
      no index signatures, `{a: pl}` ∩ `{a: pr}` is `{a: pr}`. */
  lemma SharedKeyAsWritten<N>(pl: NamedProp<N>, pr: NamedProp<N>, nodeKeys: set<string>,
                              accepts: (nat, string) -> bool, meet: (N, N) -> Meet<N>, never: N)
    requires "a" !in nodeKeys
    ensures var l := Props(["a"], map["a" := pl], []);
            var r := Props(["a"], map["a" := pr], []);
            MergeNamed(l, r, [], [], ObjectKeys(nodeKeys), accepts, meet, never) == Ok(NamedMet(map["a" := pr]))
  {
    var l := Props(["a"], map["a" := pl], []);
    var r := Props(["a"], map["a" := pr], []);
    SingleKeySpread(l, r);
    var named := l.named + r.named;
    assert named == map["a" := pr];
    assert PropForKey("a", named["a"], l, r, [], [], ObjectKeys(nodeKeys), accepts, meet, never) == Ok(PropMet(pr));
    assert named["a" := pr] == named;
  }

  /** Two single-key props with the same key spread to that one key. */
  lemma SingleKeySpread<N>(l: Props<N>, r: Props<N>)
    requires l.names == ["a"] == r.names && l.named.Keys == {"a"} == r.named.Keys
    ensures WellFormed(l) && WellFormed(r)
    ensures SpreadNames(l, r) == ["a"]
  {
    assert r.names[1..] == [];
    assert NewNames(r.names, l.named) == NewNames(r.names[1..], l.named) == [];
  }

  /** With the intended test the same two props are intersected: `{a: pl}` ∩
      `{a: pr}` is `{a: pl ∩ pr}`, or that intersection's Disjoint. */
  lemma SharedKeyIsIntersected<N>(pl: NamedProp<N>, pr: NamedProp<N>,
                                  accepts: (nat, string) -> bool, meet: (N, N) -> Meet<N>, never: N)
    ensures var l := Props(["a"], map["a" := pl], []);
            var r := Props(["a"], map["a" := pr], []);
            var res := MergeNamed(l, r, [], [], NamedKeys, accepts, meet, never);
            match IntersectNamed(pl, pr, meet, never)
            case PropMet(p) => res == Ok(NamedMet(map["a" := p]))
            case PropClash(d) => res == Ok(NamedClash(d))
  {
    var l := Props(["a"], map["a" := pl], []);
    var r := Props(["a"], map["a" := pr], []);
    SingleKeySpread(l, r);
    var named := l.named + r.named;
    assert named == map["a" := pr];
    var m := IntersectNamed(pl, pr, meet, never);
    assert PropForKey("a", named["a"], l, r, [], [], NamedKeys, accepts, meet, never) == Ok(m);
    if m.PropMet? {
      assert named["a" := m.prop] == map["a" := m.prop];
    }
  }

  /** One iteration of the named loop. */
  lemma NamedFromUnfold<N>(names: seq<string>, i: nat, named: map<string, NamedProp<N>>, l: Props<N>, r: Props<N>,
                           lIdx: seq<(nat, N)>, rIdx: seq<(nat, N)>, test: BranchTest, accepts: (nat, string) -> bool,
                           meet: (N, N) -> Meet<N>, never: N)
    requires i < |names|
    requires forall t :: i <= t < |names| ==> names[t] in named
    ensures var pr := PropForKey(names[i], named[names[i]], l, r, lIdx, rIdx, test, accepts, meet, never);
            NamedFrom(names, i, named, l, r, lIdx, rIdx, test, accepts, meet, never)
            == match pr
               case Err(e) => Err(e)
               case Ok(PropClash(d)) => Ok(NamedClash(d))
               case Ok(PropMet(p)) => NamedFrom(names, i + 1, named[names[i] := p], l, r, lIdx, rIdx, test, accepts, meet, never)
  {
  }

  /** The inner loop over the opposite side's index signatures. */
  method FoldIndexEntries<N>(prop: NamedProp<N>, entries: seq<IndexEntry<N>>, k: string, accepts: (nat, string) -> bool,
                             meet: (N, N) -> Meet<N>, never: N) returns (m: PropMeet<N>)
    ensures m == FoldIndex(prop, Values(entries), k, accepts, meet, never)
  {
    ghost var vs := Values(entries);
    var current := prop;
    var j := 0;
    while j < |entries|
      invariant 0 <= j <= |entries|
      invariant FoldIndex(current, vs[j..], k, accepts, meet, never) == FoldIndex(prop, vs, k, accepts, meet, never)
    {
      assert vs[j..][0] == (entries[j].key, entries[j].value) && vs[j..][1..] == vs[j + 1..];
      if accepts(entries[j].key, k) {
        var result := IntersectNamed(current, NamedProp(Optional, entries[j].value), meet, never);
        if result.PropClash? {
          return result;
        }
        current := result.prop;
      }
      j := j + 1;
    }
    assert vs[j..] == [];
    m := PropMet(current);
  }

  /** The body of the named loop for key k, whose spread prop is `current`. */
  method KeyStep<N>(k: string, current: NamedProp<N>, l: Props<N>, r: Props<N>, lIdx: seq<IndexEntry<N>>, rIdx: seq<IndexEntry<N>>,
                    test: BranchTest, accepts: (nat, string) -> bool, meet: (N, N) -> Meet<N>, never: N) returns (res: Result<PropMeet<N>>)
    ensures res == PropForKey(k, current, l, r, Values(lIdx), Values(rIdx), test, accepts, meet, never)
  {
    if OnSide(test, l, k) {
      if OnSide(test, r, k) {
        if !(k in l.named && k in r.named) {
          return Err(MissingRule);
        }
        res := Ok(IntersectNamed(l.named[k], r.named[k], meet, never));
      } else {
        var result := FoldIndexEntries(current, rIdx, k, accepts, meet, never);
        res := Ok(result);
      }
    } else {
      var result := FoldIndexEntries(current, lIdx, k, accepts, meet, never);
      res := Ok(result);
    }
  }

  /** One pass of the named loop at position i: either the loop ends here
      with the result of the remaining keys, or key i's prop is reassigned
      and the remaining keys give the same result. */
  method NamedStep<N>(names: seq<string>, i: nat, named: map<string, NamedProp<N>>, l: Props<N>, r: Props<N>,
                      lIdx: seq<IndexEntry<N>>, rIdx: seq<IndexEntry<N>>, test: BranchTest, accepts: (nat, string) -> bool,
                      meet: (N, N) -> Meet<N>, never: N)
    returns (done: bool, res: Result<NamedMeet<N>>, next: map<string, NamedProp<N>>)
    requires i < |names|
    requires forall t :: i <= t < |names| ==> names[t] in named
    ensures done ==> res == NamedFrom(names, i, named, l, r, Values(lIdx), Values(rIdx), test, accepts, meet, never)
    ensures done ==> next == named
    ensures !done ==> forall t :: i + 1 <= t < |names| ==> names[t] in next
    ensures !done ==>
              NamedFrom(names, i + 1, next, l, r, Values(lIdx), Values(rIdx), test, accepts, meet, never)
              == NamedFrom(names, i, named, l, r, Values(lIdx), Values(rIdx), test, accepts, meet, never)
  {
    var k := names[i];
    NamedFromUnfold(names, i, named, l, r, Values(lIdx), Values(rIdx), test, accepts, meet, never);
    var outcome := KeyStep(k, named[k], l, r, lIdx, rIdx, test, accepts, meet, never);
    done, next := true, named;
    match outcome
    case Err(e) => res := Err(e);
    case Ok(PropClash(d)) => res := Ok(NamedClash(d));
    case Ok(PropMet(p)) =>
      done, res, next := false, Ok(NamedMet(named)), named[k := p];
  }

  /** The named loop starts from the spread keys and props. */
  lemma MergeNamedStart<N>(l: Props<N>, r: Props<N>, lIdx: seq<(nat, N)>, rIdx: seq<(nat, N)>, test: BranchTest,
                           accepts: (nat, string) -> bool, meet: (N, N) -> Meet<N>, never: N)
    requires WellFormed(l) && WellFormed(r)
    ensures forall t :: 0 <= t < |SpreadNames(l, r)| ==> SpreadNames(l, r)[t] in l.named + r.named
    ensures NamedFrom(SpreadNames(l, r), 0, l.named + r.named, l, r, lIdx, rIdx, test, accepts, meet, never)
         == MergeNamed(l, r, lIdx, rIdx, test, accepts, meet, never)
  {
    SpreadIsUnion(l, r);
  }

  /** The named loop: `named` starts as the spread and each key's prop is
      reassigned in turn; the first Disjoint or error is returned. */
  method IntersectNamedLoop<N>(l: Props<N>, r: Props<N>, lIdx: seq<IndexEntry<N>>, rIdx: seq<IndexEntry<N>>, test: BranchTest,
                               accepts: (nat, string) -> bool, meet: (N, N) -> Meet<N>, never: N) returns (res: Result<NamedMeet<N>>)
    requires WellFormed(l) && WellFormed(r)
    ensures res == MergeNamed(l, r, Values(lIdx), Values(rIdx), test, accepts, meet, never)
  {
    var names := SpreadNames(l, r);
    var named := l.named + r.named;
    MergeNamedStart(l, r, Values(lIdx), Values(rIdx), test, accepts, meet, never);
    res := NamedLoop(names, named, l, r, lIdx, rIdx, test, accepts, meet, never);
  }

  /** The loop over the keys, from a given start. */
  method NamedLoop<N>(names: seq<string>, start: map<string, NamedProp<N>>, l: Props<N>, r: Props<N>,
                      lIdx: seq<IndexEntry<N>>, rIdx: seq<IndexEntry<N>>, test: BranchTest, accepts: (nat, string) -> bool,
                      meet: (N, N) -> Meet<N>, never: N)
    returns (res: Result<NamedMeet<N>>)
    requires forall t :: 0 <= t < |names| ==> names[t] in start
    ensures res == NamedFrom(names, 0, start, l, r, Values(lIdx), Values(rIdx), test, accepts, meet, never)
  {
    var named := start;
    var i := 0;
    while i < |names|
      invariant i <= |names| && forall t :: i <= t < |names| ==> names[t] in named
      invariant NamedFrom(names, i, named, l, r, Values(lIdx), Values(rIdx), test, accepts, meet, never)
             == NamedFrom(names, 0, start, l, r, Values(lIdx), Values(rIdx), test, accepts, meet, never)
    {
      var done, outcome, next := NamedStep(names, i, named, l, r, lIdx, rIdx, test, accepts, meet, never);
      if done {
        return outcome;
      }
      named := next;
      i := i + 1;
    }
    res := Ok(NamedMet(named));
  }

  datatype PropsMeet<N> = PropsMet(props: Props<N>) | PropsClash(disjoint: Disjoint<N, N>)

  /** `PropsNode.intersection`: the index signatures are merged first (which
      also rewrites l's own signatures, and pushes new tuples for r's other
      signatures, leaving r's own untouched), then the named props; a
      Disjoint from any named prop is the result, else a node with the
      merged named props in spread order and the merged signatures. The
      tuples of the two nodes are taken to be distinct objects. */
  method Intersection<N>(l: Props<N>, r: Props<N>, test: BranchTest, accepts: (nat, string) -> bool,
                         meet: (N, N) -> Meet<N>, never: N) returns (res: Result<PropsMeet<N>>)
    requires WellFormed(l) && WellFormed(r)
    requires Distinct(l.indexed + r.indexed)
    modifies l.indexed
    ensures Values(l.indexed) == MergeIndexed(old(Values(l.indexed)), old(Values(r.indexed)), meet, never)[..|l.indexed|]
    ensures Values(r.indexed) == old(Values(r.indexed))
    ensures var named := MergeNamed(l, r, Values(l.indexed), Values(r.indexed), test, accepts, meet, never);
            (named.Err? ==> res == Err(named.error))
            && (named.Ok? && named.value.NamedClash? ==> res == Ok(PropsClash(named.value.disjoint)))
            && (named.Ok? && named.value.NamedMet? ==>
                  res.Ok? && res.value.PropsMet?
                  && res.value.props.names == SpreadNames(l, r) && res.value.props.named == named.value.named
                  && |res.value.props.indexed| >= |l.indexed| && res.value.props.indexed[..|l.indexed|] == l.indexed
                  && (forall e :: e in res.value.props.indexed ==> e in l.indexed || fresh(e))
                  && Values(res.value.props.indexed) == MergeIndexed(old(Values(l.indexed)), old(Values(r.indexed)), meet, never))
  {
    var indexed := MergeIndexEntries(l.indexed, r.indexed, meet, never);
    var named := IntersectNamedLoop(l, r, l.indexed, r.indexed, test, accepts, meet, never);
    match named
    case Err(e) => res := Err(e);
    case Ok(NamedClash(d)) => res := Ok(PropsClash(d));
    case Ok(NamedMet(m)) => res := Ok(PropsMet(Props(SpreadNames(l, r), m, indexed)));
  }

  /** `compile`: the loop that would collect prop checks is disabled, so the
      list is empty and the result is always "true". */
  const CompiledProps: string := "true"
}
