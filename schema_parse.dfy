/** Canonicalisation of schemas into nodes (ark/schema/parse.ts): entries are
    visited in ascending key order, undeclared keys are rejected, `undefined`
    values are dropped, and the node's `json`, `typeJson`, `id` and `typeId`
    are derived from what is kept. */
module SchemaParse {
  import opened Wrappers
  import opened JsValue
  import opened JsText
  import opened Define
  import Sorting

  /** The untyped data the parser reads: a node that is already parsed, a
      plain object given by its own enumerable entries, an array, or any other
      host value. */
  datatype Schema =
    | NodeSchema(node: Node)
    | ObjectSchema(entries: seq<Entry>)
    | ListSchema(items: seq<Schema>)
    | ValueSchema(value: Value)

  type Entry = (string, Schema)

  /** The attachments every parsed node carries. */
  datatype Node = Node(
    kind: NodeKind,
    inner: seq<Entry>,
    json: Json,
    typeJson: Json,
    collapsibleJson: Json,
    children: seq<Node>,
    id: string,
    typeId: string)

  /** How one key of a kind is parsed and serialised. */
  datatype KeyImplementation = KeyImplementation(
    preserveUndefined: bool,
    meta: bool,
    parse: Option<Schema -> Schema>,
    serialize: Option<Schema -> Json>)

  /** The parser implementation of one kind. */
  datatype Implementation = Implementation(
    keys: map<string, KeyImplementation>,
    collapseKey: Option<string>,
    normalize: Schema -> Schema,
    reduce: Option<seq<Entry> -> Option<Node>>)

  datatype ParseContext = ParseContext(prereduced: bool)

  /** What parsing reads besides its input: the serialiser used for keys
      without their own, the parse cache, and, once the builtins exist, the
      typeId of the builtin unknown union together with the unknown node. */
  datatype Environment = Environment(
    defaultSerializer: Schema -> Json,
    parseCache: map<string, Node>,
    unknownBuiltin: Option<(string, Node)>)

  const UndefinedSchema: Schema := ValueSchema(Undefined)

  // ------------------------------------------------------------ entries

  predicate DistinctKeys(es: seq<Entry>)
  {
    forall i, j :: 0 <= i < j < |es| ==> es[i].0 != es[j].0
  }

  /** The entries of an array, keyed by their decimal index. */
  function IndexEntries(items: seq<Schema>): (es: seq<Entry>)
    ensures |es| == |items|
    ensures forall i :: 0 <= i < |es| ==> es[i].1 == items[i]
  {
    seq(|items|, i requires 0 <= i < |items| => (NatToDecimal(i), items[i]))
  }

  lemma IndexEntriesDistinct(items: seq<Schema>)
    ensures DistinctKeys(IndexEntries(items))
  {
    forall i, j | 0 <= i < j < |items|
      ensures IndexEntries(items)[i].0 != IndexEntries(items)[j].0
    {
      if NatToDecimal(i) == NatToDecimal(j) {
        NatToDecimalInjective(i, j);
      }
    }
  }

  /** `Object.entries`: own enumerable entries; a string has one entry per
      character, other primitives have none, and `null`/`undefined` throw. */
  function EntriesOf(s: Schema): (r: Result<seq<Entry>>)
    ensures r.Err? <==> s == ValueSchema(Undefined) || s == ValueSchema(Null)
    ensures s.ListSchema? ==> r.Ok? && |r.value| == |s.items|
  {
    match s
    case ObjectSchema(es) => Ok(es)
    case ListSchema(items) => Ok(IndexEntries(items))
    case ValueSchema(Str(t)) =>
      Ok(IndexEntries(seq(|t|, i requires 0 <= i < |t| => ValueSchema(Str([t[i]])))))
    case ValueSchema(Undefined) => Err(HostTypeError("Cannot convert undefined or null to object"))
    case ValueSchema(Null) => Err(HostTypeError("Cannot convert undefined or null to object"))
    case _ => Ok([])
  }

  /** An object's keys are distinct; the model asks it of object schemas. */
  predicate ObjectKeysDistinct(s: Schema)
  {
    s.ObjectSchema? ==> DistinctKeys(s.entries)
  }

  lemma EntriesOfDistinct(s: Schema)
    requires ObjectKeysDistinct(s)
    requires EntriesOf(s).Ok?
    ensures DistinctKeys(EntriesOf(s).value)
  {
    match s
    case ListSchema(items) => IndexEntriesDistinct(items);
    case ValueSchema(Str(t)) =>
      IndexEntriesDistinct(seq(|t|, i requires 0 <= i < |t| => ValueSchema(Str([t[i]]))));
    case _ =>
  }

  // ------------------------------------------------------------ key order

  /** The comparator `l[0] < r[0] ? -1 : 1` on entries. */
  predicate KeyLt(a: Entry, b: Entry)
  {
    StrLt(a.0, b.0)
  }

  lemma KeyOrderTotal(es: seq<Entry>)
    requires DistinctKeys(es)
    ensures Sorting.StrictTotalOn(es, KeyLt)
  {
    forall a, b | a in es && b in es && a != b ensures KeyLt(a, b) || KeyLt(b, a) {
      var i :| 0 <= i < |es| && es[i] == a;
      var j :| 0 <= j < |es| && es[j] == b;
      assert i != j;
      assert a.0 != b.0 by {
        if i < j { assert es[i].0 != es[j].0; } else { assert es[j].0 != es[i].0; }
      }
      StrLtTotal(a.0, b.0);
    }
    forall a, b | a in es && b in es && KeyLt(a, b) ensures !KeyLt(b, a) {
      StrLtAsymmetric(a.0, b.0);
    }
    forall a, b, c | a in es && b in es && c in es && KeyLt(a, b) && KeyLt(b, c)
      ensures KeyLt(a, c)
    {
      StrLtTransitive(a.0, b.0, c.0);
    }
  }

  lemma StrictlySortedKeysDistinct(es: seq<Entry>)
    requires Sorting.StrictlySortedBy(es, KeyLt)
    ensures DistinctKeys(es)
  {
    forall i, j | 0 <= i < j < |es| ensures es[i].0 != es[j].0 {
      assert KeyLt(es[i], es[j]);
      StrLtIrreflexive(es[i].0);
    }
  }

  /** The entries in ascending key order. */
  function SortEntries(es: seq<Entry>): (r: seq<Entry>)
    requires DistinctKeys(es)
    ensures multiset(r) == multiset(es)
    ensures Sorting.StrictlySortedBy(r, KeyLt)
  {
    var r := Sorting.InsertionSort(es, KeyLt);
    KeyOrderTotal(es);
    Sorting.InsertionSortSorted(es, KeyLt);
    assert Sorting.Distinct(es) by {
      forall i, j | 0 <= i < j < |es| ensures es[i] != es[j] {
        assert es[i].0 != es[j].0;
      }
    }
    Sorting.PermutationKeepsDistinct(es, r);
    forall e | e in r ensures e in es {
      assert e in multiset(r);
    }
    Sorting.StrictTotalOnSubset(es, r, KeyLt);
    Sorting.SortedDistinctIsStrict(r, KeyLt);
    r
  }

  // ------------------------------------------------------------ one entry

  /** Everything collected from the entries visited so far. */
  datatype Collected = Collected(
    inner: seq<Entry>,
    json: seq<(string, Json)>,
    typeJson: seq<(string, Json)>,
    children: seq<Node>)

  const NothingCollected := Collected([], [], [], [])

  /** `json` has one field per inner entry, under the same key. */
  predicate Aligned(c: Collected)
  {
    |c.json| == |c.inner| && forall i :: 0 <= i < |c.inner| ==> c.json[i].0 == c.inner[i].0
  }

  function InvalidKeyMessage(k: string, kind: NodeKind): string
  {
    "Key " + k + " is not valid on " + KindName(kind) + " schema"
  }

  /** The value stored in `inner` for a raw value. */
  function ParsedValue(d: KeyImplementation, v: Schema): Schema
  {
    if d.parse.Some? then d.parse.value(v) else v
  }

  /** A parsed `undefined` is kept only under a `preserveUndefined` key. */
  predicate Dropped(d: KeyImplementation, parsed: Schema)
  {
    parsed == UndefinedSchema && !d.preserveUndefined
  }

  predicate IsNodeList(s: Schema)
  {
    s.ListSchema? && forall i :: 0 <= i < |s.items| ==> s.items[i].NodeSchema?
  }

  /** The json of a kept entry: child nodes contribute their collapsible
      json; anything else is serialised from the raw value. */
  function EntryJson(d: KeyImplementation, raw: Schema, parsed: Schema, env: Environment): Json
  {
    if parsed.NodeSchema? then parsed.node.collapsibleJson
    else if IsNodeList(parsed) then
      JArr(seq(|parsed.items|, i requires 0 <= i < |parsed.items| => parsed.items[i].node.collapsibleJson))
    else if d.serialize.Some? then d.serialize.value(raw)
    else env.defaultSerializer(raw)
  }

  function EntryChildren(parsed: Schema): (cs: seq<Node>)
    ensures parsed.NodeSchema? ==> cs == [parsed.node]
    ensures !parsed.NodeSchema? && !IsNodeList(parsed) ==> cs == []
  {
    if parsed.NodeSchema? then [parsed.node]
    else if IsNodeList(parsed) then seq(|parsed.items|, i requires 0 <= i < |parsed.items| => parsed.items[i].node)
    else []
  }

  /** One iteration of the entry loop. */
  function Step(kind: NodeKind, impl: Implementation, c: Collected, e: Entry, env: Environment): Result<Collected>
  {
    if e.0 !in impl.keys then Err(ParseError(InvalidKeyMessage(e.0, kind)))
    else
      var d := impl.keys[e.0];
      var parsed := ParsedValue(d, e.1);
      if Dropped(d, parsed) then Ok(c)
      else
        var j := EntryJson(d, e.1, parsed, env);
        Ok(Collected(
          c.inner + [(e.0, parsed)],
          c.json + [(e.0, j)],
          if d.meta then c.typeJson else c.typeJson + [(e.0, j)],
          c.children + EntryChildren(parsed)))
  }

  /** The entry loop run from `c` over the remaining entries `es`. */
  function ProcessFrom(kind: NodeKind, impl: Implementation, c: Collected, es: seq<Entry>, env: Environment): (r: Result<Collected>)
    requires Aligned(c)
    ensures r.Ok? ==> Aligned(r.value)
    ensures r.Ok? ==> |c.inner| <= |r.value.inner| <= |c.inner| + |es|
    decreases |es|
  {
    if |es| == 0 then Ok(c)
    else match Step(kind, impl, c, es[0], env)
      case Err(e) => Err(e)
      case Ok(next) => ProcessFrom(kind, impl, next, es[1..], env)
  }

  // ------------------------------------------------------------ the node

  /** Value of a field of a JSON object, by key. */
  function FieldValue(fields: seq<(string, Json)>, k: string): Option<Json>
  {
    if |fields| == 0 then None
    else if fields[0].0 == k then Some(fields[0].1)
    else FieldValue(fields[1..], k)
  }

  /** The single inner entry is the kind's collapse key. */
  predicate Collapses(impl: Implementation, c: Collected)
  {
    |c.inner| == 1 && impl.collapseKey == Some(c.inner[0].0)
  }

  /** `hasDomain(j, "object")`: arrays and objects, not null. */
  predicate IsObjectJson(j: Json)
  {
    j.JArr? || j.JObj?
  }

  function IdOf(kind: NodeKind, j: Json): string
  {
    KindName(kind) + Stringify(j)
  }

  /** The node built from what the loop collected. */
  function Assemble(kind: NodeKind, impl: Implementation, c: Collected): (n: Node)
    requires Aligned(c)
    ensures n.kind == kind && n.inner == c.inner && n.children == c.children
    ensures Collapses(impl, c) ==> Some(n.collapsibleJson) == FieldValue(c.json, impl.collapseKey.value)
    ensures !(Collapses(impl, c) && IsObjectJson(n.collapsibleJson)) ==>
              n.json == JObj(c.json) && n.typeJson == JObj(c.typeJson)
    ensures !Collapses(impl, c) ==> n.collapsibleJson == n.json
    ensures Collapses(impl, c) && IsObjectJson(n.collapsibleJson) ==>
              n.json == n.collapsibleJson && n.typeJson == n.collapsibleJson
    ensures n.id == KindName(kind) + Stringify(n.json)
    ensures n.typeId == KindName(kind) + Stringify(n.typeJson)
  {
    var collapses := Collapses(impl, c);
    var collapsible := if collapses then c.json[0].1 else JObj(c.json);
    var toObject := collapses && IsObjectJson(collapsible);
    var json := if toObject then collapsible else JObj(c.json);
    var typeJson := if toObject then collapsible else JObj(c.typeJson);
    Node(kind, c.inner, json, typeJson, collapsible, c.children, IdOf(kind, json), IdOf(kind, typeJson))
  }

  /** After the loop: the reduce hook, the parse cache, the unknown builtin,
      and otherwise the assembled node. A result of the reduce hook (when the
      context is not prereduced) is returned instead of building the node; a
      cached node under the id comes next, then the builtin `unknown` for its
      typeId. */
  function Finish(kind: NodeKind, impl: Implementation, ctx: ParseContext, c: Collected, env: Environment): (n: Node)
    requires Aligned(c)
    ensures !ctx.prereduced && impl.reduce.Some? && impl.reduce.value(c.inner).Some? ==>
              n == impl.reduce.value(c.inner).value
    ensures (ctx.prereduced || impl.reduce.None? || impl.reduce.value(c.inner).None?)
            && Assemble(kind, impl, c).id in env.parseCache
            ==> n == env.parseCache[Assemble(kind, impl, c).id]
    ensures (ctx.prereduced || impl.reduce.None? || impl.reduce.value(c.inner).None?)
            && Assemble(kind, impl, c).id !in env.parseCache
            && env.unknownBuiltin.Some? && env.unknownBuiltin.value.0 == Assemble(kind, impl, c).typeId
            ==> n == env.unknownBuiltin.value.1
    ensures ctx.prereduced || impl.reduce.None? || impl.reduce.value(c.inner).None? ==>
              n == Assemble(kind, impl, c) || n in env.parseCache.Values
              || (env.unknownBuiltin.Some? && n == env.unknownBuiltin.value.1)
    ensures (ctx.prereduced || impl.reduce.None? || impl.reduce.value(c.inner).None?)
            && Assemble(kind, impl, c).id !in env.parseCache
            && (env.unknownBuiltin.None? || env.unknownBuiltin.value.0 != Assemble(kind, impl, c).typeId)
            ==> n == Assemble(kind, impl, c)
  {
    if !ctx.prereduced && impl.reduce.Some? && impl.reduce.value(c.inner).Some? then
      impl.reduce.value(c.inner).value
    else
      var n := Assemble(kind, impl, c);
      if n.id in env.parseCache then env.parseCache[n.id]
      else if env.unknownBuiltin.Some? && env.unknownBuiltin.value.0 == n.typeId then env.unknownBuiltin.value.1
      else n
  }

  /** A reduction wins over everything after it: the cache, the builtin
      `unknown` and the serialiser are not consulted. A prereduced context
      finishes as if the kind had no reduce hook. */
  lemma ReductionShortCircuits(kind: NodeKind, impl: Implementation, ctx: ParseContext, c: Collected,
                               env: Environment, other: Environment)
    requires Aligned(c)
    ensures !ctx.prereduced && impl.reduce.Some? && impl.reduce.value(c.inner).Some? ==>
              Finish(kind, impl, ctx, c, env) == Finish(kind, impl, ctx, c, other)
    ensures ctx.prereduced ==> Finish(kind, impl, ctx, c, env) == Finish(kind, impl.(reduce := None), ctx, c, env)
  {
    assert Assemble(kind, impl.(reduce := None), c) == Assemble(kind, impl, c);
  }

  /** The entry loop over the entries in ascending key order. */
  function Collect(kind: NodeKind, impl: Implementation, es: seq<Entry>, env: Environment): (r: Result<Collected>)
    requires DistinctKeys(es)
    ensures r.Ok? ==> Aligned(r.value)
  {
    ProcessFrom(kind, impl, NothingCollected, SortEntries(es), env)
  }

  /** A node from the entries of a normalised schema. */
  function BuildNode(kind: NodeKind, impl: Implementation, ctx: ParseContext, es: seq<Entry>, env: Environment): Result<Node>
    requires DistinctKeys(es)
  {
    match Collect(kind, impl, es, env)
    case Err(e) => Err(e)
    case Ok(c) => Ok(Finish(kind, impl, ctx, c, env))
  }

  /** What `parseNode` returns. */
  function ParseSpec(kind: NodeKind, impl: Implementation, input: Schema, ctx: ParseContext, env: Environment): Result<Node>
    requires input.NodeSchema? || ObjectKeysDistinct(impl.normalize(input))
  {
    if input.NodeSchema? then Ok(input.node)
    else
      var normalized := impl.normalize(input);
      match EntriesOf(normalized)
      case Err(e) => Err(e)
      case Ok(es) =>
        EntriesOfDistinct(normalized);
        BuildNode(kind, impl, ctx, es, env)
  }

  /** `parseNode`: the entry loop over the sorted entries, then the reduce
      hook, the collapse of a lone collapse key, and the ids. */
  method ParseNode(kind: NodeKind, impl: Implementation, input: Schema, ctx: ParseContext, env: Environment)
    returns (r: Result<Node>)
    requires input.NodeSchema? || ObjectKeysDistinct(impl.normalize(input))
    ensures input.NodeSchema? ==> r == Ok(input.node)
    ensures r == ParseSpec(kind, impl, input, ctx, env)
  {
    if input.NodeSchema? {
      return Ok(input.node);
    }
    var normalized := impl.normalize(input);
    var found := EntriesOf(normalized);
    if found.Err? {
      return Err(found.error);
    }
    EntriesOfDistinct(normalized);
    var collected := EntryLoop(kind, impl, SortEntries(found.value), env);
    if collected.Err? {
      return Err(collected.error);
    }
    r := FinishNode(kind, impl, ctx, collected.value, env);
  }

  /** The loop of `parseNode` over the sorted entries, filling `inner`,
      `json`, `typeJson` and `children`. */
  method EntryLoop(kind: NodeKind, impl: Implementation, entries: seq<Entry>, env: Environment)
    returns (r: Result<Collected>)
    ensures r == ProcessFrom(kind, impl, NothingCollected, entries, env)
  {
    var inner: seq<Entry> := [];
    var json: seq<(string, Json)> := [];
    var typeJson: seq<(string, Json)> := [];
    var children: seq<Node> := [];
    var i := 0;
    while i < |entries|
      invariant 0 <= i <= |entries|
      invariant Aligned(Collected(inner, json, typeJson, children))
      invariant ProcessFrom(kind, impl, Collected(inner, json, typeJson, children), entries[i..], env)
             == ProcessFrom(kind, impl, NothingCollected, entries, env)
    {
      assert entries[i..][0] == entries[i] && entries[i..][1..] == entries[i + 1..];
      var (k, v) := entries[i];
      if k !in impl.keys {
        return Err(ParseError(InvalidKeyMessage(k, kind)));
      }
      var d := impl.keys[k];
      var innerValue := ParsedValue(d, v);
      if Dropped(d, innerValue) {
        i := i + 1;
        continue;
      }
      var j := EntryJson(d, v, innerValue, env);
      inner := inner + [(k, innerValue)];
      json := json + [(k, j)];
      if !d.meta {
        typeJson := typeJson + [(k, j)];
      }
      children := children + EntryChildren(innerValue);
      i := i + 1;
    }
    assert entries[i..] == [];
    r := Ok(Collected(inner, json, typeJson, children));
  }

  /** The part of `parseNode` after the entry loop. */
  method FinishNode(kind: NodeKind, impl: Implementation, ctx: ParseContext, c: Collected, env: Environment)
    returns (r: Result<Node>)
    requires Aligned(c)
    ensures r == Ok(Finish(kind, impl, ctx, c, env))
  {
    if !ctx.prereduced && impl.reduce.Some? {
      var reduced := impl.reduce.value(c.inner);
      if reduced.Some? {
        return Ok(reduced.value);
      }
    }
    ghost var assembled := Assemble(kind, impl, c);
    var collapsibleJson := JObj(c.json);
    var json := JObj(c.json);
    var typeJson := JObj(c.typeJson);
    if |c.inner| == 1 && impl.collapseKey == Some(c.inner[0].0) {
      collapsibleJson := c.json[0].1;
      if collapsibleJson.JArr? || collapsibleJson.JObj? {
        json := collapsibleJson;
        typeJson := collapsibleJson;
      }
    }
    assert json == assembled.json && typeJson == assembled.typeJson && collapsibleJson == assembled.collapsibleJson;
    var id := KindName(kind) + Stringify(json);
    if id in env.parseCache {
      return Ok(env.parseCache[id]);
    }
    var typeId := KindName(kind) + Stringify(typeJson);
    if env.unknownBuiltin.Some? && env.unknownBuiltin.value.0 == typeId {
      return Ok(env.unknownBuiltin.value.1);
    }
    r := Ok(Node(kind, c.inner, json, typeJson, collapsibleJson, c.children, id, typeId));
  }

  // ------------------------------------------------------------ properties

  /** The order in which the keys were supplied cannot be observed. */
  lemma BuildNodeOrderIndependent(kind: NodeKind, impl: Implementation, ctx: ParseContext,
                                  a: seq<Entry>, b: seq<Entry>, env: Environment)
    requires DistinctKeys(a) && DistinctKeys(b)
    requires multiset(a) == multiset(b)
    ensures BuildNode(kind, impl, ctx, a, env) == BuildNode(kind, impl, ctx, b, env)
  {
    var sa, sb := SortEntries(a), SortEntries(b);
    StrictlySortedKeysDistinct(sa);
    KeyOrderTotal(sa);
    Sorting.StrictlySortedUnique(sa, sb, KeyLt);
  }

  lemma ProcessFromRejectsFirstUndeclared(kind: NodeKind, impl: Implementation, c: Collected,
                                          es: seq<Entry>, env: Environment)
    requires Aligned(c)
    ensures ProcessFrom(kind, impl, c, es, env).Err? <==> exists i :: 0 <= i < |es| && es[i].0 !in impl.keys
    ensures ProcessFrom(kind, impl, c, es, env).Err? ==>
              exists i :: 0 <= i < |es| && es[i].0 !in impl.keys
                && (forall j :: 0 <= j < i ==> es[j].0 in impl.keys)
                && ProcessFrom(kind, impl, c, es, env).error == ParseError(InvalidKeyMessage(es[i].0, kind))
  {
    ProcessFromFailsOnUndeclared(kind, impl, c, es, env);
    ProcessFromNamesFirstUndeclared(kind, impl, c, es, env);
  }

  /** The loop fails exactly when some key is undeclared. */
  lemma {:induction false} ProcessFromFailsOnUndeclared(kind: NodeKind, impl: Implementation, c: Collected,
                                                        es: seq<Entry>, env: Environment)
    requires Aligned(c)
    ensures ProcessFrom(kind, impl, c, es, env).Err? <==> exists i :: 0 <= i < |es| && es[i].0 !in impl.keys
    decreases |es|
  {
    if |es| > 0 && es[0].0 in impl.keys {
      var next := Step(kind, impl, c, es[0], env).value;
      var rest := es[1..];
      ProcessFromFailsOnUndeclared(kind, impl, next, rest, env);
      assert ProcessFrom(kind, impl, c, es, env) == ProcessFrom(kind, impl, next, rest, env);
      if exists i :: 0 <= i < |es| && es[i].0 !in impl.keys {
        var i :| 0 <= i < |es| && es[i].0 !in impl.keys;
        assert rest[i - 1] == es[i];
      }
      if exists i :: 0 <= i < |rest| && rest[i].0 !in impl.keys {
        var i :| 0 <= i < |rest| && rest[i].0 !in impl.keys;
        assert es[i + 1] == rest[i];
      }
    }
  }

  /** A failing loop reports the first undeclared key. */
  lemma {:induction false} ProcessFromNamesFirstUndeclared(kind: NodeKind, impl: Implementation, c: Collected,
                                                           es: seq<Entry>, env: Environment)
    requires Aligned(c)
    ensures ProcessFrom(kind, impl, c, es, env).Err? ==>
              exists i :: 0 <= i < |es| && es[i].0 !in impl.keys
                && (forall j :: 0 <= j < i ==> es[j].0 in impl.keys)
                && ProcessFrom(kind, impl, c, es, env).error == ParseError(InvalidKeyMessage(es[i].0, kind))
    decreases |es|
  {
    if |es| > 0 && es[0].0 in impl.keys {
      var next := Step(kind, impl, c, es[0], env).value;
      var rest := es[1..];
      ProcessFromNamesFirstUndeclared(kind, impl, next, rest, env);
      assert ProcessFrom(kind, impl, c, es, env) == ProcessFrom(kind, impl, next, rest, env);
      if ProcessFrom(kind, impl, next, rest, env).Err? {
        var i :| 0 <= i < |rest| && rest[i].0 !in impl.keys
                 && (forall j :: 0 <= j < i ==> rest[j].0 in impl.keys)
                 && ProcessFrom(kind, impl, next, rest, env).error == ParseError(InvalidKeyMessage(rest[i].0, kind));
        assert es[i + 1] == rest[i];
        forall j | 0 <= j < i + 1 ensures es[j].0 in impl.keys {
          if j > 0 { assert es[j] == rest[j - 1]; }
        }
      }
    }
  }

  lemma SortEntriesSameElements(es: seq<Entry>)
    requires DistinctKeys(es)
    ensures forall e :: e in es <==> e in SortEntries(es)
  {
    var s := SortEntries(es);
    forall e | e in es ensures e in s { assert e in multiset(es); }
    forall e | e in s ensures e in es { assert e in multiset(s); }
  }

  lemma CollectRejectsUndeclaredKey(kind: NodeKind, impl: Implementation, es: seq<Entry>, env: Environment)
    requires DistinctKeys(es)
    ensures Collect(kind, impl, es, env).Err? <==> exists e :: e in es && e.0 !in impl.keys
    ensures Collect(kind, impl, es, env).Err? ==>
              exists e :: e in es && e.0 !in impl.keys
                && Collect(kind, impl, es, env).error == ParseError(InvalidKeyMessage(e.0, kind))
                && forall f :: f in es && f.0 !in impl.keys ==> f.0 == e.0 || StrLt(e.0, f.0)
  {
    var s := SortEntries(es);
    ProcessFromRejectsFirstUndeclared(kind, impl, NothingCollected, s, env);
    SortEntriesSameElements(es);
    if Collect(kind, impl, es, env).Err? {
      var i :| 0 <= i < |s| && s[i].0 !in impl.keys
               && (forall j :: 0 <= j < i ==> s[j].0 in impl.keys)
               && ProcessFrom(kind, impl, NothingCollected, s, env).error == ParseError(InvalidKeyMessage(s[i].0, kind));
      FirstUndeclaredIsLeast(impl, s, i);
      assert s[i] in es;
    }
  }

  /** In entries sorted by key, the first undeclared key is the least one. */
  lemma FirstUndeclaredIsLeast(impl: Implementation, s: seq<Entry>, i: nat)
    requires Sorting.StrictlySortedBy(s, KeyLt)
    requires i < |s| && forall j :: 0 <= j < i ==> s[j].0 in impl.keys
    ensures forall f :: f in s && f.0 !in impl.keys ==> f.0 == s[i].0 || StrLt(s[i].0, f.0)
  {
    forall f | f in s && f.0 !in impl.keys ensures f.0 == s[i].0 || StrLt(s[i].0, f.0) {
      var j :| 0 <= j < |s| && s[j] == f;
      if j > i { assert KeyLt(s[i], s[j]); }
    }
  }

  /** A key the kind does not declare aborts parsing with an error naming
      that key and the kind; with several, the least key is named. */
  lemma BuildNodeRejectsUndeclaredKey(kind: NodeKind, impl: Implementation, ctx: ParseContext,
                                      es: seq<Entry>, env: Environment)
    requires DistinctKeys(es)
    ensures BuildNode(kind, impl, ctx, es, env).Err? <==> exists e :: e in es && e.0 !in impl.keys
    ensures BuildNode(kind, impl, ctx, es, env).Err? ==>
              exists e :: e in es && e.0 !in impl.keys
                && BuildNode(kind, impl, ctx, es, env).error == ParseError(InvalidKeyMessage(e.0, kind))
                && forall f :: f in es && f.0 !in impl.keys ==> f.0 == e.0 || StrLt(e.0, f.0)
  {
    CollectRejectsUndeclaredKey(kind, impl, es, env);
  }

  /** `x` is what entry `e` contributes to `inner`. */
  predicate KeptAs(impl: Implementation, e: Entry, x: Entry)
  {
    e.0 in impl.keys && x == (e.0, ParsedValue(impl.keys[e.0], e.1)) && !Dropped(impl.keys[e.0], x.1)
  }

  lemma {:induction false} ProcessFromInner(kind: NodeKind, impl: Implementation, c: Collected,
                                            es: seq<Entry>, env: Environment)
    requires Aligned(c)
    requires ProcessFrom(kind, impl, c, es, env).Ok?
    ensures forall x :: x in ProcessFrom(kind, impl, c, es, env).value.inner <==>
              x in c.inner || exists i :: 0 <= i < |es| && KeptAs(impl, es[i], x)
    decreases |es|
  {
    if |es| > 0 {
      var next := Step(kind, impl, c, es[0], env).value;
      var rest := es[1..];
      ProcessFromInner(kind, impl, next, rest, env);
      var out := ProcessFrom(kind, impl, c, es, env).value;
      forall x ensures x in out.inner <==> x in c.inner || exists i :: 0 <= i < |es| && KeptAs(impl, es[i], x) {
        if exists i :: 0 <= i < |rest| && KeptAs(impl, rest[i], x) {
          var i :| 0 <= i < |rest| && KeptAs(impl, rest[i], x);
          assert KeptAs(impl, es[i + 1], x);
        }
        if exists i :: 0 <= i < |es| && KeptAs(impl, es[i], x) {
          var i :| 0 <= i < |es| && KeptAs(impl, es[i], x);
          if i > 0 { assert KeptAs(impl, rest[i - 1], x); }
        }
      }
    }
  }

  /** With every key declared, parsing collects exactly the parsed value of
      each entry that is not a dropped `undefined`; an `undefined` survives
      only under a `preserveUndefined` key. */
  lemma CollectKeepsParsedEntries(kind: NodeKind, impl: Implementation, es: seq<Entry>, env: Environment)
    requires DistinctKeys(es)
    requires forall e :: e in es ==> e.0 in impl.keys
    ensures Collect(kind, impl, es, env).Ok?
    ensures forall x :: x in Collect(kind, impl, es, env).value.inner <==> exists e :: e in es && KeptAs(impl, e, x)
    ensures forall x :: x in Collect(kind, impl, es, env).value.inner && x.1 == UndefinedSchema ==>
              x.0 in impl.keys && impl.keys[x.0].preserveUndefined
  {
    var s := SortEntries(es);
    CollectRejectsUndeclaredKey(kind, impl, es, env);
    SortEntriesSameElements(es);
    ProcessFromInner(kind, impl, NothingCollected, s, env);
    var inner := Collect(kind, impl, es, env).value.inner;
    forall x ensures x in inner <==> exists e :: e in es && KeptAs(impl, e, x) {
      if x in inner {
        var i :| 0 <= i < |s| && KeptAs(impl, s[i], x);
        assert s[i] in es;
      }
      if exists e :: e in es && KeptAs(impl, e, x) {
        var e :| e in es && KeptAs(impl, e, x);
        var i :| 0 <= i < |s| && s[i] == e;
      }
    }
  }

  // ------------------------------------------------------------ typeJson

  predicate IsMetaKey(impl: Implementation, k: string)
  {
    k in impl.keys && impl.keys[k].meta
  }

  /** A JSON object's fields without those under meta keys. */
  function NonMetaFields(impl: Implementation, fields: seq<(string, Json)>): (r: seq<(string, Json)>)
    ensures |r| <= |fields|
  {
    if |fields| == 0 then []
    else (if IsMetaKey(impl, fields[0].0) then [] else [fields[0]]) + NonMetaFields(impl, fields[1..])
  }

  lemma {:induction false} NonMetaFieldsAppend(impl: Implementation, a: seq<(string, Json)>, x: (string, Json))
    ensures NonMetaFields(impl, a + [x]) == NonMetaFields(impl, a) + (if IsMetaKey(impl, x.0) then [] else [x])
  {
    if a == [] {
      assert a + [x] == [x];
    } else {
      assert (a + [x])[1..] == a[1..] + [x];
      NonMetaFieldsAppend(impl, a[1..], x);
    }
  }

  lemma {:induction false} ProcessFromTypeJson(kind: NodeKind, impl: Implementation, c: Collected,
                                               es: seq<Entry>, env: Environment)
    requires Aligned(c) && c.typeJson == NonMetaFields(impl, c.json)
    requires ProcessFrom(kind, impl, c, es, env).Ok?
    ensures ProcessFrom(kind, impl, c, es, env).value.typeJson == NonMetaFields(impl, ProcessFrom(kind, impl, c, es, env).value.json)
    decreases |es|
  {
    if |es| > 0 {
      var next := Step(kind, impl, c, es[0], env).value;
      if next != c {
        NonMetaFieldsAppend(impl, c.json, next.json[|c.json|]);
        assert next.json == c.json + [next.json[|c.json|]];
      }
      ProcessFromTypeJson(kind, impl, next, es[1..], env);
    }
  }

  /** `typeJson` is `json` without the fields of meta keys. */
  lemma CollectTypeJsonIsNonMetaJson(kind: NodeKind, impl: Implementation, es: seq<Entry>, env: Environment)
    requires DistinctKeys(es)
    requires Collect(kind, impl, es, env).Ok?
    ensures Collect(kind, impl, es, env).value.typeJson == NonMetaFields(impl, Collect(kind, impl, es, env).value.json)
  {
    ProcessFromTypeJson(kind, impl, NothingCollected, SortEntries(es), env);
  }

  /** The entries whose keys are not meta keys. */
  function NonMetaEntries(impl: Implementation, es: seq<Entry>): (r: seq<Entry>)
    ensures forall x :: x in r ==> x in es && !IsMetaKey(impl, x.0)
  {
    if |es| == 0 then []
    else (if IsMetaKey(impl, es[0].0) then [] else [es[0]]) + NonMetaEntries(impl, es[1..])
  }

  lemma {:induction false} NonMetaEntriesCount(impl: Implementation, es: seq<Entry>, x: Entry)
    ensures multiset(NonMetaEntries(impl, es))[x] == if IsMetaKey(impl, x.0) then 0 else multiset(es)[x]
  {
    if es != [] {
      assert es == [es[0]] + es[1..];
      assert multiset(es) == multiset{es[0]} + multiset(es[1..]);
      NonMetaEntriesCount(impl, es[1..], x);
    }
  }

  lemma {:induction false} NonMetaEntriesSorted(impl: Implementation, s: seq<Entry>)
    requires Sorting.StrictlySortedBy(s, KeyLt)
    ensures Sorting.StrictlySortedBy(NonMetaEntries(impl, s), KeyLt)
  {
    if s != [] {
      NonMetaEntriesSorted(impl, s[1..]);
      var rest := NonMetaEntries(impl, s[1..]);
      forall y | y in rest ensures KeyLt(s[0], y) {
        var j :| 0 <= j < |s[1..]| && s[1..][j] == y;
        assert s[j + 1] == y;
      }
    }
  }

  lemma {:induction false} ProcessFromTypeJsonOnlyNonMeta(kind: NodeKind, impl: Implementation, c: Collected,
                                                          d: Collected, es: seq<Entry>, env: Environment)
    requires Aligned(c) && Aligned(d) && c.typeJson == d.typeJson
    requires forall i :: 0 <= i < |es| ==> es[i].0 in impl.keys
    ensures ProcessFrom(kind, impl, c, es, env).Ok?
    ensures ProcessFrom(kind, impl, d, NonMetaEntries(impl, es), env).Ok?
    ensures ProcessFrom(kind, impl, c, es, env).value.typeJson
         == ProcessFrom(kind, impl, d, NonMetaEntries(impl, es), env).value.typeJson
    decreases |es|
  {
    if |es| > 0 {
      var tail := es[1..];
      assert forall i :: 0 <= i < |tail| ==> tail[i].0 in impl.keys by {
        forall i | 0 <= i < |tail| ensures tail[i].0 in impl.keys { assert tail[i] == es[i + 1]; }
      }
      StepTypeJson(kind, impl, c, d, es[0], env);
      StepAligned(kind, impl, c, es[0], env);
      var c' := Step(kind, impl, c, es[0], env).value;
      ProcessFromFirst(kind, impl, c, es, env);
      if IsMetaKey(impl, es[0].0) {
        ProcessFromTypeJsonOnlyNonMeta(kind, impl, c', d, tail, env);
      } else {
        StepAligned(kind, impl, d, es[0], env);
        var d' := Step(kind, impl, d, es[0], env).value;
        ProcessFromFirst(kind, impl, d, NonMetaEntries(impl, es), env);
        ProcessFromTypeJsonOnlyNonMeta(kind, impl, c', d', tail, env);
      }
    }
  }

  /** The loop over entries with a declared first key is its step, then the
      loop over the rest; leaving out the meta entries keeps a first
      non-meta entry first. */
  lemma ProcessFromFirst(kind: NodeKind, impl: Implementation, c: Collected, es: seq<Entry>, env: Environment)
    requires Aligned(c) && |es| > 0 && es[0].0 in impl.keys
    ensures Step(kind, impl, c, es[0], env).Ok?
    ensures ProcessFrom(kind, impl, c, es, env) == ProcessFrom(kind, impl, Step(kind, impl, c, es[0], env).value, es[1..], env)
    ensures IsMetaKey(impl, es[0].0) ==> NonMetaEntries(impl, es) == NonMetaEntries(impl, es[1..])
    ensures !IsMetaKey(impl, es[0].0) ==>
              |NonMetaEntries(impl, es)| > 0 && NonMetaEntries(impl, es)[0] == es[0]
              && NonMetaEntries(impl, es)[1..] == NonMetaEntries(impl, es[1..])
  {
  }

  /** A step keeps `json` aligned with `inner`. */
  lemma StepAligned(kind: NodeKind, impl: Implementation, c: Collected, e: Entry, env: Environment)
    requires Aligned(c) && e.0 in impl.keys
    ensures Step(kind, impl, c, e, env).Ok? && Aligned(Step(kind, impl, c, e, env).value)
  {
  }

  /** One step on a declared key: a meta key leaves `typeJson` alone, and
      any other key extends two equal `typeJson`s alike. */
  lemma StepTypeJson(kind: NodeKind, impl: Implementation, c: Collected, d: Collected, e: Entry, env: Environment)
    requires c.typeJson == d.typeJson && e.0 in impl.keys
    ensures Step(kind, impl, c, e, env).Ok? && Step(kind, impl, d, e, env).Ok?
    ensures IsMetaKey(impl, e.0) ==> Step(kind, impl, c, e, env).value.typeJson == c.typeJson
    ensures Step(kind, impl, c, e, env).value.typeJson == Step(kind, impl, d, e, env).value.typeJson
  {
  }

  /** The single inner entry is the collapse key and its json is an object. */
  predicate CollapsesToObject(impl: Implementation, c: Collected)
    requires Aligned(c)
  {
    Collapses(impl, c) && IsObjectJson(c.json[0].1)
  }

  /** Sorting and then leaving out the meta entries gives the same sequence
      for any two inputs with the same non-meta entries. */
  lemma SortedNonMetaEntriesAgree(impl: Implementation, a: seq<Entry>, b: seq<Entry>)
    requires DistinctKeys(a) && DistinctKeys(b)
    requires multiset(NonMetaEntries(impl, a)) == multiset(NonMetaEntries(impl, b))
    ensures NonMetaEntries(impl, SortEntries(a)) == NonMetaEntries(impl, SortEntries(b))
  {
    var sa, sb := SortEntries(a), SortEntries(b);
    var na, nb := NonMetaEntries(impl, sa), NonMetaEntries(impl, sb);
    NonMetaEntriesSorted(impl, sa);
    NonMetaEntriesSorted(impl, sb);
    forall x ensures multiset(na)[x] == multiset(nb)[x] {
      NonMetaEntriesCount(impl, sa, x);
      NonMetaEntriesCount(impl, sb, x);
      NonMetaEntriesCount(impl, a, x);
      NonMetaEntriesCount(impl, b, x);
    }
    assert multiset(na) == multiset(nb);
    StrictlySortedKeysDistinct(na);
    KeyOrderTotal(na);
    Sorting.StrictlySortedUnique(na, nb, KeyLt);
  }

  /** Two schemas with the same non-meta entries get the same `typeJson`,
      hence the same `typeId`, unless one of them collapses to an object. */
  lemma MetaOnlyDifferenceSharesTypeId(kind: NodeKind, impl: Implementation, a: seq<Entry>, b: seq<Entry>, env: Environment)
    requires DistinctKeys(a) && DistinctKeys(b)
    requires forall e :: e in a ==> e.0 in impl.keys
    requires forall e :: e in b ==> e.0 in impl.keys
    requires multiset(NonMetaEntries(impl, a)) == multiset(NonMetaEntries(impl, b))
    ensures Collect(kind, impl, a, env).Ok? && Collect(kind, impl, b, env).Ok?
    ensures Collect(kind, impl, a, env).value.typeJson == Collect(kind, impl, b, env).value.typeJson
    ensures !CollapsesToObject(impl, Collect(kind, impl, a, env).value)
            && !CollapsesToObject(impl, Collect(kind, impl, b, env).value) ==>
              Assemble(kind, impl, Collect(kind, impl, a, env).value).typeId
              == Assemble(kind, impl, Collect(kind, impl, b, env).value).typeId
  {
    var sa, sb := SortEntries(a), SortEntries(b);
    SortEntriesSameElements(a);
    SortEntriesSameElements(b);
    SortedNonMetaEntriesAgree(impl, a, b);
    ProcessFromTypeJsonOnlyNonMeta(kind, impl, NothingCollected, NothingCollected, sa, env);
    ProcessFromTypeJsonOnlyNonMeta(kind, impl, NothingCollected, NothingCollected, sb, env);
  }

  // ------------------------------------------------------------ parseUnits

  /** The values without repetition, each kept where it first occurs. */
  function Dedup(values: seq<Value>): (u: seq<Value>)
    ensures |u| <= |values|
  {
    if |values| == 0 then []
    else
      var d := Dedup(values[..|values| - 1]);
      var last := values[|values| - 1];
      if last in d then d else d + [last]
  }

  /** `Dedup` keeps each value once, loses none, and orders them by first
      occurrence: every occurrence of a later value is preceded by an
      occurrence of each earlier one. */
  lemma {:induction false} DedupKeepsFirstOccurrences(values: seq<Value>)
    ensures Sorting.Distinct(Dedup(values))
    ensures forall v :: v in Dedup(values) <==> v in values
    ensures forall i, j, q :: 0 <= i < j < |Dedup(values)| && 0 <= q < |values| && values[q] == Dedup(values)[j]
              ==> Dedup(values)[i] in values[..q]
  {
    if |values| > 0 {
      var n := |values| - 1;
      var s := values[..n];
      var x := values[n];
      assert values == s + [x];
      DedupKeepsFirstOccurrences(s);
      var d := Dedup(s);
      var u := Dedup(values);
      forall i, j, q | 0 <= i < j < |u| && 0 <= q < |values| && values[q] == u[j]
        ensures u[i] in values[..q]
      {
        if q < n {
          assert values[..q] == s[..q];
          assert s[q] == u[j];
        } else {
          assert values[..q] == s;
          assert u[i] in d;
        }
      }
    }
  }

  /** The loop of `parseUnits` that collects the distinct values. */
  method UniqueValues(values: seq<Value>) returns (unique: seq<Value>)
    ensures unique == Dedup(values)
  {
    unique := [];
    var i := 0;
    while i < |values|
      invariant 0 <= i <= |values|
      invariant unique == Dedup(values[..i])
    {
      assert values[..i + 1][..i] == values[..i];
      if values[i] !in unique {
        unique := unique + [values[i]];
      }
      i := i + 1;
    }
    assert values[..i] == values;
  }

  /** `normalize` turns objects with distinct keys into objects with
      distinct keys. */
  ghost predicate KeepsKeysDistinct(impl: Implementation)
  {
    forall s :: ObjectKeysDistinct(s) ==> ObjectKeysDistinct(impl.normalize(s))
  }

  function UnitSchema(v: Value): (s: Schema)
    ensures ObjectKeysDistinct(s)
  {
    ObjectSchema([("is", ValueSchema(v))])
  }

  /** One prereduced unit node per value, stopping at the first error. */
  function ParseEachUnit(vs: seq<Value>, unitImpl: Implementation, env: Environment): (r: Result<seq<Node>>)
    requires KeepsKeysDistinct(unitImpl)
    ensures r.Ok? ==> |r.value| == |vs|
    ensures r.Ok? ==> forall i :: 0 <= i < |vs| ==>
              ParseSpec(Unit, unitImpl, UnitSchema(vs[i]), ParseContext(true), env) == Ok(r.value[i])
  {
    if |vs| == 0 then Ok([])
    else match ParseSpec(Unit, unitImpl, UnitSchema(vs[0]), ParseContext(true), env)
      case Err(e) => Err(e)
      case Ok(n) =>
        match ParseEachUnit(vs[1..], unitImpl, env)
        case Err(e) => Err(e)
        case Ok(ns) => Ok([n] + ns)
  }

  function UnionSchema(branches: seq<Node>): (s: Schema)
    ensures ObjectKeysDistinct(s)
  {
    ObjectSchema([("branches", ListSchema(seq(|branches|, i requires 0 <= i < |branches| => NodeSchema(branches[i]))))])
  }

  /** What `parseUnits` returns. */
  function ParseUnitsSpec(values: seq<Value>, unitImpl: Implementation, unionImpl: Implementation, env: Environment): Result<Node>
    requires KeepsKeysDistinct(unitImpl) && KeepsKeysDistinct(unionImpl)
  {
    match ParseEachUnit(Dedup(values), unitImpl, env)
    case Err(e) => Err(e)
    case Ok(branches) =>
      if |branches| == 1 then Ok(branches[0])
      else ParseSpec(Union, unionImpl, UnionSchema(branches), ParseContext(true), env)
  }

  /** `parseUnits`: a bare unit node for a single distinct value, else a
      prereduced union of one unit node per distinct value. */
  method ParseUnits(values: seq<Value>, unitImpl: Implementation, unionImpl: Implementation, env: Environment)
    returns (r: Result<Node>)
    requires KeepsKeysDistinct(unitImpl) && KeepsKeysDistinct(unionImpl)
    ensures r == ParseUnitsSpec(values, unitImpl, unionImpl, env)
    ensures |Dedup(values)| == 1 ==> r == ParseSpec(Unit, unitImpl, UnitSchema(Dedup(values)[0]), ParseContext(true), env)
  {
    var unique := UniqueValues(values);
    var parsed := ParseEachUnit(unique, unitImpl, env);
    if parsed.Err? {
      if |unique| == 1 {
        assert ParseEachUnit(unique[1..], unitImpl, env) == Ok([]);
      }
      return Err(parsed.error);
    }
    var branches := parsed.value;
    if |branches| == 1 {
      return Ok(branches[0]);
    }
    r := ParseNode(Union, unionImpl, UnionSchema(branches), ParseContext(true), env);
  }

  // ------------------------------------------------------------ schema kinds

  predicate HasKey(es: seq<Entry>, k: string)
  {
    exists i :: 0 <= i < |es| && es[i].0 == k
  }

  /** `schemaKindOf`: the basis kind when there is one, else the kind of a
      schema node, "morph" for objects with a `morph` key, "union" for
      arrays and objects with `branches`, "intersection" for other objects;
      anything else is a parse error. */
  function SchemaKindOf(input: Schema, basisKindOf: Schema -> Option<NodeKind>,
                        isSchemaNode: Node -> bool, printable: Schema -> string): (r: Result<NodeKind>)
    ensures basisKindOf(input).Some? ==> r == Ok(basisKindOf(input).value)
    ensures r.Err? <==> basisKindOf(input).None?
                        && (input.NodeSchema? ==> !isSchemaNode(input.node))
                        && (input.ValueSchema? ==> !input.value.Obj?)
                        && !input.ObjectSchema? && !input.ListSchema?
    ensures r.Err? ==> r.error == ParseError(printable(input) + " is not a valid type schema")
    ensures basisKindOf(input).None? && input.ListSchema? ==> r == Ok(Union)
    ensures basisKindOf(input).None? && input.ObjectSchema? ==> r.Ok? && r.value in {Morph, Union, Intersection}
  {
    var basis := basisKindOf(input);
    if basis.Some? then Ok(basis.value)
    else match input
      case NodeSchema(n) =>
        if isSchemaNode(n) then Ok(n.kind) else Err(ParseError(printable(input) + " is not a valid type schema"))
      case ObjectSchema(es) =>
        if HasKey(es, "morph") then Ok(Morph)
        else if HasKey(es, "branches") then Ok(Union)
        else Ok(Intersection)
      case ListSchema(_) => Ok(Union)
      case ValueSchema(v) =>
        if v.Obj? then Ok(Intersection) else Err(ParseError(printable(input) + " is not a valid type schema"))
  }

  function KindNames(kinds: seq<NodeKind>): (names: seq<string>)
    ensures |names| == |kinds|
  {
    seq(|kinds|, i requires 0 <= i < |kinds| => KindName(kinds[i]))
  }

  /** `parseSchemaFromKinds`: parses the input as the kind `schemaKindOf`
      reports, provided that kind is one of those allowed. */
  function ParseSchemaFromKinds(allowed: seq<NodeKind>, input: Schema, impls: NodeKind -> Implementation,
                                basisKindOf: Schema -> Option<NodeKind>, isSchemaNode: Node -> bool,
                                printable: Schema -> string, env: Environment): (r: Result<Node>)
    requires input.NodeSchema? || forall k :: ObjectKeysDistinct(impls(k).normalize(input))
    ensures r.Ok? ==> SchemaKindOf(input, basisKindOf, isSchemaNode, printable).Ok?
                      && SchemaKindOf(input, basisKindOf, isSchemaNode, printable).value in allowed
    ensures SchemaKindOf(input, basisKindOf, isSchemaNode, printable).Ok?
            && SchemaKindOf(input, basisKindOf, isSchemaNode, printable).value !in allowed ==>
              r == Err(ParseError("Schema of kind " + KindName(SchemaKindOf(input, basisKindOf, isSchemaNode, printable).value)
                                  + " should be one of " + Join(KindNames(allowed), ",")))
  {
    match SchemaKindOf(input, basisKindOf, isSchemaNode, printable)
    case Err(e) => Err(e)
    case Ok(kind) =>
      if kind !in allowed then
        Err(ParseError("Schema of kind " + KindName(kind) + " should be one of " + Join(KindNames(allowed), ",")))
      else ParseSpec(kind, impls(kind), input, ParseContext(false), env)
  }
}
