/** The required property constraint: an object must have a key, and the
    value under it must satisfy a value node. Covers its intersection with
    another required property, the in-place fold into an intersection's
    accumulator, its traversals and its compiled check. */
module RequiredProp {
  import opened Wrappers
  import opened JsValue
  import opened Disjoints
  import opened Traversal

  datatype RequiredInner<V> = RequiredInner(key: PropKey, value: V)

  /** What `intersectSymmetric` yields when the keys agree: the merged
      property, or the Disjoint of the two values. */
  datatype PropMeet<V> = Merged(node: RequiredInner<V>) | ValueClash(disjoint: Disjoint<V, V>)

  /** `intersectSymmetric`: null when the keys differ; otherwise the values
      are intersected, and a value Disjoint is returned as it is, else the
      result is a required property with the same key and the merged value. */
  function IntersectSymmetric<V>(l: RequiredInner<V>, r: RequiredInner<V>, meet: (V, V) -> Meet<V>)
    : (m: Option<PropMeet<V>>)
    ensures m.None? <==> l.key != r.key
    ensures m.Some? && m.value.Merged? ==>
      m.value.node.key == l.key && meet(l.value, r.value) == Met(m.value.node.value)
    ensures m.Some? && m.value.ValueClash? ==> meet(l.value, r.value) == Clash(m.value.disjoint)
  {
    if l.key != r.key then None
    else
      match meet(l.value, r.value)
      case Clash(d) => Some(ValueClash(d))
      case Met(value) => Some(Merged(RequiredInner(l.key, value)))
  }

  // ------------------------------------------------------- foldIntersection

  datatype FoldOutcome<V> = Folded | FoldConflict(disjoint: Disjoint<V, V>)

  datatype FoldState<V> = FoldState(required: seq<RequiredInner<V>>, outcome: FoldOutcome<V>)

  /** The loop of `foldIntersection` from index i on, over the accumulator's
      list as it stands, `matched` telling whether an entry merged yet. */
  function FoldFrom<V>(node: RequiredInner<V>, required: seq<RequiredInner<V>>, i: nat, matched: bool,
                       meet: (V, V) -> Meet<V>): FoldState<V>
    requires i <= |required|
    decreases |required| - i
  {
    if i == |required| then
      FoldState(if matched then required else required + [node], Folded)
    else
      match IntersectSymmetric(node, required[i], meet)
      case None => FoldFrom(node, required, i + 1, matched, meet)
      case Some(ValueClash(d)) => FoldState(required, FoldConflict(d))
      case Some(Merged(m)) => FoldFrom(node, required[i := m], i + 1, true, meet)
  }

  /** The accumulator slots that the required fold reads and writes: the
      domain of the basis, and the list of required properties. */
  class RequiredFoldInput<V> {
    var basisDomain: Option<Domain>
    var required: Option<seq<RequiredInner<V>>>

    constructor (basisDomain: Option<Domain>, required: Option<seq<RequiredInner<V>>>)
      ensures this.basisDomain == basisDomain && this.required == required
    {
      this.basisDomain := basisDomain;
      this.required := required;
    }
  }

  /** `throwInvalidOperandError("required", "an object", into.basis)`; its
      message text is not part of this model. */
  const NotAnObject: Thrown := InvalidOperand("required operand must be an object")

  /** `foldIntersection`: rejects a basis whose domain is not "object";
      starts the list as `[this]` when there is none; otherwise merges into
      every entry with the same key, in place, returns the first value
      Disjoint, and appends the node when nothing merged. */
  method FoldIntersection<V>(node: RequiredInner<V>, into: RequiredFoldInput<V>, meet: (V, V) -> Meet<V>)
    returns (r: Result<FoldOutcome<V>>)
    modifies into`required
    ensures old(into.basisDomain) != Some(DObject) ==>
      r == Err(NotAnObject) && into.required == old(into.required)
    ensures old(into.basisDomain) == Some(DObject) && old(into.required).None? ==>
      r == Ok(Folded) && into.required == Some([node])
    ensures old(into.basisDomain) == Some(DObject) && old(into.required).Some? ==>
      var s := FoldFrom(node, old(into.required).value, 0, false, meet);
      r == Ok(s.outcome) && into.required == Some(s.required)
  {
    if into.basisDomain != Some(DObject) {
      return Err(NotAnObject);
    }
    if into.required.None? {
      into.required := Some([node]);
      return Ok(Folded);
    }
    var matchedExisting := false;
    var i := 0;
    while i < |into.required.value|
      invariant into.required.Some? && i <= |into.required.value|
      invariant FoldFrom(node, into.required.value, i, matchedExisting, meet)
             == FoldFrom(node, old(into.required).value, 0, false, meet)
      decreases |into.required.value| - i
    {
      var current := into.required.value;
      var result := IntersectSymmetric(node, current[i], meet);
      if result.None? {
        i := i + 1;
        continue;
      }
      if result.value.ValueClash? {
        return Ok(FoldConflict(result.value.disjoint));
      }
      into.required := Some(current[i := result.value.node]);
      matchedExisting := true;
      i := i + 1;
    }
    if !matchedExisting {
      into.required := Some(into.required.value + [node]);
    }
    return Ok(Folded);
  }

  /** An entry as the fold leaves it: merged when it has the node's key. */
  function Replaced<V>(node: RequiredInner<V>, e: RequiredInner<V>, meet: (V, V) -> Meet<V>): RequiredInner<V>
  {
    match IntersectSymmetric(node, e, meet)
    case Some(Merged(m)) => m
    case _ => e
  }

  /** The list with the entries at indices i up to k replaced. */
  function ReplacedBetween<V>(node: RequiredInner<V>, required: seq<RequiredInner<V>>, i: nat, k: nat,
                              meet: (V, V) -> Meet<V>): (r: seq<RequiredInner<V>>)
    ensures |r| == |required|
  {
    seq(|required|, j requires 0 <= j < |required| =>
      if i <= j < k then Replaced(node, required[j], meet) else required[j])
  }

  predicate ClashAt<V>(node: RequiredInner<V>, required: seq<RequiredInner<V>>, j: nat, meet: (V, V) -> Meet<V>)
    requires j < |required|
  {
    var m := IntersectSymmetric(node, required[j], meet);
    m.Some? && m.value.ValueClash?
  }

  predicate SameKeyBetween<V>(node: RequiredInner<V>, required: seq<RequiredInner<V>>, i: nat, k: nat)
    requires k <= |required|
  {
    exists j :: i <= j < k && required[j].key == node.key
  }

  /** Running the loop over clash-free indices i up to k is replacing those
      entries in place and remembering whether one had the node's key. */
  lemma {:induction false} FoldFromAdvance<V>(node: RequiredInner<V>, required: seq<RequiredInner<V>>,
                                             i: nat, k: nat, matched: bool, meet: (V, V) -> Meet<V>)
    requires i <= k <= |required|
    requires forall j :: i <= j < k ==> !ClashAt(node, required, j, meet)
    ensures FoldFrom(node, required, i, matched, meet)
         == FoldFrom(node, ReplacedBetween(node, required, i, k, meet), k,
                     matched || SameKeyBetween(node, required, i, k), meet)
    decreases k - i
  {
    if i == k {
      assert ReplacedBetween(node, required, i, k, meet) == required;
      assert !SameKeyBetween(node, required, i, k);
    } else {
      assert !ClashAt(node, required, i, meet);
      var next := Replaced(node, required[i], meet);
      var after := required[i := next];
      assert forall j :: i + 1 <= j < k ==> !ClashAt(node, after, j, meet) by {
        forall j | i + 1 <= j < k ensures !ClashAt(node, after, j, meet) {
          assert !ClashAt(node, required, j, meet);
          assert after[j] == required[j];
        }
      }
      FoldFromAdvance(node, after, i + 1, k, matched || required[i].key == node.key, meet);
      assert ReplacedBetween(node, after, i + 1, k, meet) == ReplacedBetween(node, required, i, k, meet) by {
        forall j | 0 <= j < |required|
          ensures ReplacedBetween(node, after, i + 1, k, meet)[j] == ReplacedBetween(node, required, i, k, meet)[j]
        {
        }
      }
      assert (matched || required[i].key == node.key || SameKeyBetween(node, after, i + 1, k))
          == (matched || SameKeyBetween(node, required, i, k)) by {
        if SameKeyBetween(node, required, i, k) {
          var j :| i <= j < k && required[j].key == node.key;
          if j > i { assert after[j] == required[j]; }
        }
        if SameKeyBetween(node, after, i + 1, k) {
          var j :| i + 1 <= j < k && after[j].key == node.key;
          assert required[j] == after[j];
        }
      }
      match IntersectSymmetric(node, required[i], meet)
      case None => assert after == required;
      case Some(Merged(m)) =>
    }
  }

  /** Without a value Disjoint, the fold merges every same-key entry in
      place and appends the node exactly when no entry has its key. */
  lemma FoldMergesOrAppends<V>(node: RequiredInner<V>, required: seq<RequiredInner<V>>, meet: (V, V) -> Meet<V>)
    requires forall j :: 0 <= j < |required| ==> !ClashAt(node, required, j, meet)
    ensures FoldFrom(node, required, 0, false, meet).outcome == Folded
    ensures var s := FoldFrom(node, required, 0, false, meet).required;
      && |s| == |required| + (if SameKeyBetween(node, required, 0, |required|) then 0 else 1)
      && (forall j :: 0 <= j < |required| ==> s[j] == Replaced(node, required[j], meet))
      && (!SameKeyBetween(node, required, 0, |required|) ==> s[|required|] == node)
  {
    FoldFromAdvance(node, required, 0, |required|, false, meet);
  }

  /** The first value Disjoint aborts the fold and is returned, with the
      entries before it already merged in place and the rest untouched. */
  lemma FoldStopsAtFirstClash<V>(node: RequiredInner<V>, required: seq<RequiredInner<V>>, k: nat,
                                 meet: (V, V) -> Meet<V>)
    requires k < |required| && ClashAt(node, required, k, meet)
    requires forall j :: 0 <= j < k ==> !ClashAt(node, required, j, meet)
    ensures var s := FoldFrom(node, required, 0, false, meet);
      && s.outcome == FoldConflict(IntersectSymmetric(node, required[k], meet).value.disjoint)
      && s.required == ReplacedBetween(node, required, 0, k, meet)
  {
    FoldFromAdvance(node, required, 0, k, false, meet);
    var after := ReplacedBetween(node, required, 0, k, meet);
    assert after[k] == required[k];
  }

  /** Folding into a list that does not hold the key leaves every entry as
      it was and appends the node. */
  lemma FoldAppendsNewKey<V>(node: RequiredInner<V>, required: seq<RequiredInner<V>>, meet: (V, V) -> Meet<V>)
    requires forall j :: 0 <= j < |required| ==> required[j].key != node.key
    ensures FoldFrom(node, required, 0, false, meet) == FoldState(required + [node], Folded)
  {
    FoldMergesOrAppends(node, required, meet);
    var s := FoldFrom(node, required, 0, false, meet).required;
    assert s == required + [node];
  }

  // --------------------------------------------------------------- traversal

  /** `traverseAllows`: false when the key is absent, else the value's
      verdict on `data[key]`. */
  predicate TraverseAllows<V>(node: RequiredInner<V>, data: Props, valueAllows: (V, Value) -> bool)
  {
    if node.key in data then valueAllows(node.value, data[node.key]) else false
  }

  /** `traverseApply`: the problems it records; one "required" problem for
      an absent key, else whatever the value's traversal records. */
  function TraverseApply<V>(node: RequiredInner<V>, data: Props, valueApply: (V, Value) -> seq<Problem>)
    : (problems: seq<Problem>)
    ensures node.key !in data ==> problems == [MissingKey(node.key)]
    ensures node.key in data ==> problems == valueApply(node.value, data[node.key])
  {
    if node.key in data then valueApply(node.value, data[node.key]) else [MissingKey(node.key)]
  }

  /** When the value's two traversals agree, so do the property's: the data
      is allowed exactly when applying records no problem. */
  lemma TraversalsAgree<V>(node: RequiredInner<V>, data: Props,
                           valueAllows: (V, Value) -> bool, valueApply: (V, Value) -> seq<Problem>)
    requires forall v, x :: valueAllows(v, x) <==> valueApply(v, x) == []
    ensures TraverseAllows(node, data, valueAllows) <==> TraverseApply(node, data, valueApply) == []
  {
  }

  // ------------------------------------------------------------------ compile

  /** The statements `compile` emits through the node compiler. */
  datatype Stmt =
    | IfKeyIn(key: PropKey, serializedKey: string, dataArg: string, thenBranch: seq<Stmt>, elseBranch: seq<Stmt>)
    | CheckLiteralKey(checked: PropKey)
    | Return(b: bool)
    | ErrorLine(text: string)

  /** `JSON.stringify({code: "required", key})`: a symbol-valued key is not
      serialisable and is left out. */
  function ErrorContextJson(key: PropKey): (j: Json)
    ensures j.JObj? && |j.fields| >= 1 && j.fields[0] == ("code", JStr("required"))
  {
    match key
    case StringKey(name) => JObj([("code", JStr("required")), ("key", JStr(name))])
    case SymbolKey(_, _) => JObj([("code", JStr("required"))])
  }

  /** `compile`: if the key is in the data, the value's check of that key;
      else `return false` (Allows) or an error call (Apply); and in Allows
      mode a final `return true`. */
  function Compile<V>(node: RequiredInner<V>, kind: TraversalKind, serializedKey: string, dataArg: string,
                      ctxArg: string): (body: seq<Stmt>)
    ensures |body| >= 1 && body[0].IfKeyIn? && body[0].thenBranch == [CheckLiteralKey(node.key)]
    ensures kind == Allows ==> body[0].elseBranch == [Return(false)] && body[1..] == [Return(true)]
    ensures kind == Apply ==>
      (body == [body[0]] && |body[0].elseBranch| == 1
       && body[0].elseBranch[0] == ErrorLine(ctxArg + ".error(" + Stringify(ErrorContextJson(node.key)) + ")"))
  {
    var missing := if kind == Allows then [Return(false)]
      else [ErrorLine(ctxArg + ".error(" + Stringify(ErrorContextJson(node.key)) + ")")];
    [IfKeyIn(node.key, serializedKey, dataArg, [CheckLiteralKey(node.key)], missing)]
      + (if kind == Allows then [Return(true)] else [])
  }

  /** Running Allows-mode statements: the value returned, if any. A key
      check returns false when the value rejects the data under that key. */
  function RunAllows<V>(body: seq<Stmt>, node: RequiredInner<V>, data: Props, valueAllows: (V, Value) -> bool)
    : Option<bool>
    decreases body
  {
    if body == [] then None
    else
      var first :=
        match body[0]
        case IfKeyIn(key, _, _, t, e) =>
          if key in data then RunAllows(t, node, data, valueAllows) else RunAllows(e, node, data, valueAllows)
        case CheckLiteralKey(k) =>
          if k in data && valueAllows(node.value, data[k]) then None else Some(false)
        case Return(b) => Some(b)
        case ErrorLine(_) => None;
      if first.Some? then first else RunAllows(body[1..], node, data, valueAllows)
  }

  /** The compiled Allows check returns exactly what `traverseAllows` does. */
  lemma CompiledAllowsAgrees<V>(node: RequiredInner<V>, serializedKey: string, dataArg: string, ctxArg: string,
                                data: Props, valueAllows: (V, Value) -> bool)
    ensures RunAllows(Compile(node, Allows, serializedKey, dataArg, ctxArg), node, data, valueAllows)
         == Some(TraverseAllows(node, data, valueAllows))
  {
    var body := Compile(node, Allows, serializedKey, dataArg, ctxArg);
    var check := [CheckLiteralKey(node.key)];
    assert check[1..] == [] && [Return(false)][1..] == [] && body[1..] == [Return(true)];
    assert RunAllows([Return(true)], node, data, valueAllows) == Some(true);
    assert RunAllows([Return(false)], node, data, valueAllows) == Some(false);
    if node.key in data && valueAllows(node.value, data[node.key]) {
      assert RunAllows(check, node, data, valueAllows) == None;
    } else if node.key in data {
      assert RunAllows(check, node, data, valueAllows) == Some(false);
    }
  }
}
