/** The scope of the type layer (ark/type/scope.ts): parsing of scope keys
    (`#local`, `generic<params>`), flattening of exported submodules into
    dotted names, `parseUnits`, resolution of dotted aliases into
    submodules, and the cache of parsed string definitions. Node creation,
    string parsing and the generic-parameter parser belong to code that is
    not part of this model; they are parameters. */
module ArkScope {
  import opened Wrappers
  import opened JsValue
  import opened JsText
  import SchemaParse

  // ------------------------------------------------------------ parseScopeKey

  datatype ParsedScopeKey = ParsedScopeKey(isLocal: bool, name: string, params: seq<string>)

  const GenericCloseMessage := "'>' must be the last character of a generic declaration in a scope"

  /** `parseScopeKey` as written: a leading "#" marks a local alias and is
      dropped from the name; with a "<", the key must end with ">", the
      parameters are parsed from between the first "<" and the last
      character, and the name is cut at the index of "<" in the key, which
      for a local key is one past the "<" in the name. */
  function ParseScopeKeyAsWritten(k: string, parseGenericParams: string -> seq<string>): (r: Result<ParsedScopeKey>)
    ensures r.Ok? ==> (r.value.isLocal <==> |k| > 0 && k[0] == '#')
    ensures '<' !in k ==> r.Ok? && r.value.params == [] && r.value.name == (if |k| > 0 && k[0] == '#' then k[1..] else k)
    ensures '<' in k ==> (r.Err? <==> k[|k| - 1] != '>')
    ensures r.Err? ==> r.error == ParseError(GenericCloseMessage)
    ensures r.Ok? && '<' in k ==>
              var start := if r.value.isLocal then 1 else 0;
              && IndexOf(k, '<') < |k| - 1
              && r.value.name == k[start..IndexOf(k, '<') + start]
              && r.value.params == parseGenericParams(k[IndexOf(k, '<') + 1..|k| - 1])
  {
    var isLocal := At(k, 0) == Some('#');
    var name := if isLocal then JsSlice(k, 1, |k|) else k;
    var firstParamIndex := IndexOf(k, '<');
    if firstParamIndex == -1 then Ok(ParsedScopeKey(isLocal, name, []))
    else if At(k, |k| - 1) != Some('>') then Err(ParseError(GenericCloseMessage))
    else Ok(ParsedScopeKey(isLocal, JsSlice(name, 0, firstParamIndex),
                           parseGenericParams(JsSlice(k, firstParamIndex + 1, -1))))
  }

  /** `k[i]` of the host: the character, or undefined past either end. */
  function At(s: string, i: int): (c: Option<char>)
    ensures c.Some? <==> 0 <= i < |s|
    ensures c.Some? ==> c.value == s[i]
  {
    if 0 <= i < |s| then Some(s[i]) else None
  }

  /** The key a scope declares: "#" for a local alias, the name, and for a
      generic its parameter text between "<" and ">". */
  function DeclarationKey(isLocal: bool, name: string, params: Option<string>): string
  {
    (if isLocal then "#" else "") + name + (if params.Some? then "<" + params.value + ">" else "")
  }

  /** A declaration the parser can read back: a name without "<" that does
      not itself start with "#". */
  predicate PlainName(name: string)
  {
    '<' !in name && (|name| > 0 ==> name[0] != '#')
  }

  /** As written, a local generic key keeps the "<" in its name: "#box<t>"
      is named "box<". */
  lemma LocalGenericNameAsWritten(name: string, params: string, parseGenericParams: string -> seq<string>)
    requires PlainName(name)
    ensures ParseScopeKeyAsWritten(DeclarationKey(true, name, Some(params)), parseGenericParams)
         == Ok(ParsedScopeKey(true, name + "<", parseGenericParams(params)))
  {
    var k := DeclarationKey(true, name, Some(params));
    GenericKeyParts(true, name, params);
    assert k == "#" + (name + "<") + (params + ">");
    assert k[1..|name| + 2] == name + "<";
  }

  /** "#box<t>" is named "box<" as written. */
  lemma BoxNamedWithBracket(parseGenericParams: string -> seq<string>)
    ensures ParseScopeKeyAsWritten("#box<t>", parseGenericParams).value.name == "box<"
  {
    var k := DeclarationKey(true, "box", Some("t"));
    assert k == "#box<t>";
    LocalGenericNameAsWritten("box", "t", parseGenericParams);
  }

  /** Where the parts of a generic declaration key sit. */
  lemma GenericKeyParts(isLocal: bool, name: string, params: string)
    requires PlainName(name)
    ensures var k := DeclarationKey(isLocal, name, Some(params));
      var start := if isLocal then 1 else 0;
      && IndexOf(k, '<') == start + |name|
      && (At(k, 0) == Some('#') <==> isLocal)
      && At(k, |k| - 1) == Some('>')
      && k[start..start + |name|] == name
      && k[start + |name| + 1..|k| - 1] == params
  {
    var prefix := if isLocal then "#" else "";
    var k := DeclarationKey(isLocal, name, Some(params));
    assert k == (prefix + name) + "<" + params + ">";
    BracketedTail(prefix + name, params);
    assert k[..|prefix| + |name|] == prefix + name;
    if !isLocal && |name| > 0 { assert k[0] == name[0]; }
    assert k[|prefix|..|prefix| + |name|] == name;
  }

  /** Where the bracketed parameter text sits after a head without "<". */
  lemma BracketedTail(head: string, params: string)
    requires '<' !in head
    ensures var k := head + "<" + params + ">";
      && IndexOf(k, '<') == |head|
      && At(k, |k| - 1) == Some('>')
      && k[|head| + 1..|k| - 1] == params
  {
    var k := head + "<" + params + ">";
    assert k == head + ("<" + (params + ">"));
    FirstBracketAfter(head, params + ">");
  }

  /** Where the parts of a plain declaration key sit. */
  lemma PlainKeyParts(isLocal: bool, name: string)
    requires PlainName(name)
    ensures var k := DeclarationKey(isLocal, name, None);
      && IndexOf(k, '<') == -1
      && (At(k, 0) == Some('#') <==> isLocal)
      && (if isLocal then k[1..] else k) == name
  {
    var prefix := if isLocal then "#" else "";
    var k := DeclarationKey(isLocal, name, None);
    assert k == prefix + name;
    if !isLocal && |name| > 0 { assert k[0] == name[0]; }
    assert isLocal ==> k[1..] == name;
  }

  /** `parseScopeKey` as evidently intended: the name is cut at the "<" of
      the key, after the "#" of a local key; the parameters are parsed from
      the text between the first "<" and the closing ">". */
  function ParseScopeKey(k: string, parseGenericParams: string -> seq<string>): (r: Result<ParsedScopeKey>)
    ensures r.Ok? ==> (r.value.isLocal <==> |k| > 0 && k[0] == '#')
    ensures '<' in k ==> (r.Err? <==> k[|k| - 1] != '>')
    ensures r.Err? ==> r.error == ParseError(GenericCloseMessage)
    ensures r.Ok? && '<' in k ==>
              var start := if r.value.isLocal then 1 else 0;
              && start <= IndexOf(k, '<') < |k| - 1
              && r.value.name == k[start..IndexOf(k, '<')]
              && r.value.params == parseGenericParams(k[IndexOf(k, '<') + 1..|k| - 1])
  {
    var isLocal := At(k, 0) == Some('#');
    var name := if isLocal then JsSlice(k, 1, |k|) else k;
    var firstParamIndex := IndexOf(k, '<');
    if firstParamIndex == -1 then Ok(ParsedScopeKey(isLocal, name, []))
    else if At(k, |k| - 1) != Some('>') then Err(ParseError(GenericCloseMessage))
    else
      var nameEnd := if isLocal then firstParamIndex - 1 else firstParamIndex;
      Ok(ParsedScopeKey(isLocal, JsSlice(name, 0, nameEnd), parseGenericParams(JsSlice(k, firstParamIndex + 1, -1))))
  }

  /** A parsed name never holds a "<": it stops before the first one. */
  lemma ParsedNameHasNoBracket(k: string, parseGenericParams: string -> seq<string>)
    ensures ParseScopeKey(k, parseGenericParams).Ok? ==> '<' !in ParseScopeKey(k, parseGenericParams).value.name
  {
    var r := ParseScopeKey(k, parseGenericParams);
    if r.Ok? && '<' in k {
      var i := IndexOf(k, '<');
      assert forall j :: 0 <= j < i ==> k[..i][j] == k[j];
    }
  }

  /** Every declaration key reads back as the alias it declares: locality,
      name, and the parameters parsed from its parameter text. */
  lemma ScopeKeyRoundTrip(isLocal: bool, name: string, params: Option<string>, parseGenericParams: string -> seq<string>)
    requires PlainName(name)
    ensures ParseScopeKey(DeclarationKey(isLocal, name, params), parseGenericParams)
         == Ok(ParsedScopeKey(isLocal, name, if params.Some? then parseGenericParams(params.value) else []))
  {
    if params.None? {
      PlainRoundTrip(isLocal, name, parseGenericParams);
    } else {
      GenericRoundTrip(isLocal, name, params.value, parseGenericParams);
    }
  }

  lemma PlainRoundTrip(isLocal: bool, name: string, parseGenericParams: string -> seq<string>)
    requires PlainName(name)
    ensures ParseScopeKey(DeclarationKey(isLocal, name, None), parseGenericParams) == Ok(ParsedScopeKey(isLocal, name, []))
  {
    var k := DeclarationKey(isLocal, name, None);
    PlainKeyParts(isLocal, name);
    if isLocal {
      assert JsSlice(k, 1, |k|) == k[1..];
    }
  }

  lemma GenericRoundTrip(isLocal: bool, name: string, params: string, parseGenericParams: string -> seq<string>)
    requires PlainName(name)
    ensures ParseScopeKey(DeclarationKey(isLocal, name, Some(params)), parseGenericParams)
         == Ok(ParsedScopeKey(isLocal, name, parseGenericParams(params)))
  {
    GenericKeyParts(isLocal, name, params);
  }

  /** The first "<" after a text without one is the one that follows it. */
  lemma {:induction false} FirstBracketAfter(head: string, tail: string)
    requires '<' !in head
    ensures IndexOf(head + ("<" + tail), '<') == |head|
  {
    if |head| > 0 {
      assert (head + ("<" + tail))[1..] == head[1..] + ("<" + tail);
      FirstBracketAfter(head[1..], tail);
    }
  }

  // ------------------------------------------------------------ resolutionsOfModule

  /** What a module exports under a key: a type, a generic, or a submodule
      with its own exports. */
  datatype Exported<T, G> =
    | ExportedType(node: T)
    | ExportedGeneric(generic: G)
    | Submodule(members: seq<(string, Exported<T, G>)>)

  /** The keys of a module object are distinct and free of dots, at every
      level. */
  predicate WellKeyed<T, G>(members: seq<(string, Exported<T, G>)>)
    decreases members
  {
    if |members| == 0 then true
    else
      var (k, v) := members[|members| - 1];
      assert v < members[|members| - 1];
      && WellKeyed(members[..|members| - 1])
      && '.' !in k
      && (forall j :: 0 <= j < |members| - 1 ==> members[j].0 != k)
      && (v.Submodule? ==> WellKeyed(v.members))
  }

  /** The keys of a well-keyed module object, flat. */
  lemma {:induction false} WellKeyedKeys<T, G>(members: seq<(string, Exported<T, G>)>)
    requires WellKeyed(members)
    ensures forall i :: 0 <= i < |members| ==> '.' !in members[i].0
    ensures forall i, j :: 0 <= i < j < |members| ==> members[i].0 != members[j].0
    ensures forall i :: 0 <= i < |members| && members[i].1.Submodule? ==> WellKeyed(members[i].1.members)
  {
    if |members| > 0 {
      var n := |members| - 1;
      WellKeyedKeys(members[..n]);
      assert forall i :: 0 <= i < n ==> members[..n][i] == members[i];
    }
  }

  /** The resolutions of the submodule `k`, under "k.<inner key>". */
  function Prefixed<T, G>(k: string, inner: map<string, Exported<T, G>>): (r: map<string, Exported<T, G>>)
    ensures forall ik :: ik in inner ==> k + "." + ik in r && r[k + "." + ik] == inner[ik]
    ensures forall x :: x in r ==> exists ik :: ik in inner && x == k + "." + ik
  {
    var keys := set ik | ik in inner :: k + "." + ik;
    forall ik | ik in inner
      ensures (k + "." + ik)[|k| + 1..] == ik
    {
    }
    map x | x in keys :: inner[x[|k| + 1..]]
  }

  /** The flat resolutions of a module: each type and generic under its key,
      each submodule's resolutions under its key and a dot, later entries
      overriding earlier ones. */
  function Resolutions<T, G>(members: seq<(string, Exported<T, G>)>): (r: map<string, Exported<T, G>>)
    ensures forall x :: x in r ==> !r[x].Submodule?
    decreases members
  {
    if |members| == 0 then map[]
    else
      var init := Resolutions(members[..|members| - 1]);
      var (k, v) := members[|members| - 1];
      assert v < members[|members| - 1];
      if v.Submodule? then init + Prefixed(k, Resolutions(v.members)) else init[k := v]
  }

  /** `resolutionsOfModule`: the loop over the module's keys, recursing into
      submodules. */
  method ResolutionsOfModule<T, G>(typeSet: seq<(string, Exported<T, G>)>) returns (result: map<string, Exported<T, G>>)
    ensures result == Resolutions(typeSet)
    decreases typeSet
  {
    result := map[];
    var i := 0;
    while i < |typeSet|
      invariant 0 <= i <= |typeSet|
      invariant result == Resolutions(typeSet[..i])
    {
      var (k, v) := typeSet[i];
      assert typeSet[..i + 1][..i] == typeSet[..i];
      assert typeSet[..i + 1][i] == typeSet[i];
      if v.Submodule? {
        assert v < typeSet[i];
        var innerResolutions := ResolutionsOfModule(v.members);
        result := result + Prefixed(k, innerResolutions);
      } else {
        result := result[k := v];
      }
      i := i + 1;
    }
    assert typeSet[..i] == typeSet;
  }

  /** A dotted name determines its first segment. */
  lemma DotSplit(a: string, s: string, b: string, t: string)
    requires '.' !in a && '.' !in b
    ensures a + "." + s == b + "." + t ==> a == b && s == t
  {
    FirstDotAfter(a, s);
    FirstDotAfter(b, t);
    assert a == (a + "." + s)[..|a|];
    assert b == (b + "." + t)[..|b|];
    assert s == (a + "." + s)[|a| + 1..];
    assert t == (b + "." + t)[|b| + 1..];
  }

  /** A dotted name has a dot. */
  lemma HasDot(a: string, s: string)
    ensures '.' in a + "." + s
  {
    assert (a + "." + s)[|a|] == '.';
  }

  lemma {:induction false} FirstDotAfter(head: string, tail: string)
    requires '.' !in head
    ensures IndexOf(head + "." + tail, '.') == |head|
  {
    if |head| > 0 {
      assert (head + "." + tail)[1..] == head[1..] + "." + tail;
      FirstDotAfter(head[1..], tail);
    }
  }

  /** Whether a key is produced by the entry `(k, v)` of a module. */
  predicate Produces<T, G>(k: string, v: Exported<T, G>, x: string)
  {
    if v.Submodule? then exists ik :: ik in Resolutions(v.members) && x == k + "." + ik else x == k
  }

  /** Resolutions of well-keyed modules keep everything: each type and generic
      under its own key, and each resolution of a submodule under the
      submodule's key, a dot and its own key. */
  lemma {:induction false} ResolutionsKeepEverything<T, G>(members: seq<(string, Exported<T, G>)>)
    requires WellKeyed(members)
    ensures forall i :: 0 <= i < |members| && !members[i].1.Submodule? ==>
      members[i].0 in Resolutions(members) && Resolutions(members)[members[i].0] == members[i].1
    ensures forall i, ik :: 0 <= i < |members| && members[i].1.Submodule? && ik in Resolutions(members[i].1.members) ==>
      members[i].0 + "." + ik in Resolutions(members)
      && Resolutions(members)[members[i].0 + "." + ik] == Resolutions(members[i].1.members)[ik]
  {
    if |members| > 0 {
      var n := |members| - 1;
      ResolutionsKeepEverything(members[..n]);
      WellKeyedKeys(members);
      forall i | 0 <= i < n {
        KeptPastLast(members, i);
      }
    }
  }

  /** An earlier entry's resolutions survive the last entry. */
  lemma KeptPastLast<T, G>(members: seq<(string, Exported<T, G>)>, i: nat)
    requires |members| > 0 && i < |members| - 1
    requires forall i :: 0 <= i < |members| ==> '.' !in members[i].0
    requires forall i, j :: 0 <= i < j < |members| ==> members[i].0 != members[j].0
    requires var init := members[..|members| - 1];
      && (!init[i].1.Submodule? ==> init[i].0 in Resolutions(init) && Resolutions(init)[init[i].0] == init[i].1)
      && (forall ik :: init[i].1.Submodule? && ik in Resolutions(init[i].1.members) ==>
            init[i].0 + "." + ik in Resolutions(init)
            && Resolutions(init)[init[i].0 + "." + ik] == Resolutions(init[i].1.members)[ik])
    ensures !members[i].1.Submodule? ==>
      members[i].0 in Resolutions(members) && Resolutions(members)[members[i].0] == members[i].1
    ensures forall ik :: members[i].1.Submodule? && ik in Resolutions(members[i].1.members) ==>
      members[i].0 + "." + ik in Resolutions(members)
      && Resolutions(members)[members[i].0 + "." + ik] == Resolutions(members[i].1.members)[ik]
  {
    var n := |members| - 1;
    assert members[..n][i] == members[i];
    var (k, v) := members[n];
    var (ki, vi) := members[i];
    if !vi.Submodule? {
      forall jk ensures ki != k + "." + jk {
        HasDot(k, jk);
      }
      NotProducedByLast(k, v, ki);
    } else {
      forall ik | ik in Resolutions(vi.members)
        ensures ki + "." + ik in Resolutions(members)
        ensures Resolutions(members)[ki + "." + ik] == Resolutions(vi.members)[ik]
      {
        HasDot(ki, ik);
        forall jk ensures ki + "." + ik != k + "." + jk {
          DotSplit(ki, ik, k, jk);
        }
        NotProducedByLast(k, v, ki + "." + ik);
      }
    }
  }

  /** The last entry of a module leaves alone every key that is not its own
      and does not start with its key and a dot. */
  lemma NotProducedByLast<T, G>(k: string, v: Exported<T, G>, x: string)
    requires '.' !in k
    requires x != k
    requires forall ik :: x != k + "." + ik
    ensures v.Submodule? ==> x !in Prefixed(k, Resolutions(v.members))
  {
  }

  /** Every flat resolution comes from an entry of the module. */
  lemma {:induction false} ResolutionsComeFromEntries<T, G>(members: seq<(string, Exported<T, G>)>, x: string)
    requires x in Resolutions(members)
    ensures exists i :: 0 <= i < |members| && Produces(members[i].0, members[i].1, x)
  {
    var n := |members| - 1;
    var (k, v) := members[n];
    if Produces(k, v, x) {
      assert Produces(members[n].0, members[n].1, x);
    } else {
      ResolutionsComeFromEntries(members[..n], x);
      var i :| 0 <= i < n && Produces(members[..n][i].0, members[..n][i].1, x);
      assert members[..n][i] == members[i];
    }
  }

  // ------------------------------------------------------------ parseUnits

  /** What `parseUnits` builds: the only unit node, or a prereduced root union
      of one unit node per distinct value. */
  datatype UnitsNode<N> = SingleUnit(node: N) | RootUnion(branches: seq<N>, root: bool, prereduced: bool)

  /** `parseUnits`: the distinct values in order of first occurrence, a unit
      node for each, and the single node when there is exactly one. */
  method ParseUnits<N>(values: seq<Value>, unitNode: Value -> N) returns (r: UnitsNode<N>)
    ensures var unique := SchemaParse.Dedup(values);
      if |unique| == 1 then r == SingleUnit(unitNode(unique[0]))
      else r == RootUnion(seq(|unique|, i requires 0 <= i < |unique| => unitNode(unique[i])), true, true)
  {
    var uniqueValues := SchemaParse.UniqueValues(values);
    var branches := seq(|uniqueValues|, i requires 0 <= i < |uniqueValues| => unitNode(uniqueValues[i]));
    if |branches| == 1 {
      return SingleUnit(branches[0]);
    }
    return RootUnion(branches, true, true);
  }

  /** A value however often repeated is one distinct value, so
      `parseUnits` builds that value's unit node alone. */
  lemma {:induction false} RepeatedUnitIsSingle(v: Value, n: nat)
    requires n >= 1
    ensures SchemaParse.Dedup(seq(n, i => v)) == [v]
  {
    if n > 1 {
      RepeatedUnitIsSingle(v, n - 1);
      assert seq(n, i => v)[..n - 1] == seq(n - 1, i => v);
    }
  }

  // ------------------------------------------------------------ the scope

  /** What a root alias is, as far as dotted lookup asks: a module with its
      members, or any other definition. */
  datatype Alias<T, G> = ModuleAlias(members: seq<(string, Exported<T, G>)>) | DefinitionAlias

  /** The first member under the key, if any. */
  function Member<T, G>(members: seq<(string, Exported<T, G>)>, key: string): (r: Option<Exported<T, G>>)
    ensures r.None? <==> forall i :: 0 <= i < |members| ==> members[i].0 != key
    ensures r.Some? ==> exists i :: 0 <= i < |members| && members[i] == (key, r.value)
  {
    if |members| == 0 then None
    else if members[0].0 == key then Some(members[0].1)
    else
      var r := Member(members[1..], key);
      assert r.Some? ==> members[1..][0..] == members[1..];
      r
  }

  /** A definition as `parse` receives it: a string, an object, or a value of
      another domain. */
  datatype Definition<O> = StringDefinition(text: string) | ObjectDefinition(obj: O) | OtherDefinition(domain: Domain)

  /** The state of a scope that dotted resolution and parsing update. */
  class Scope<T, G> {
    var aliases: map<string, Alias<T, G>>
    var resolutions: map<string, Exported<T, G>>
    var parseCache: map<string, T>

    constructor(aliases: map<string, Alias<T, G>>, resolutions: map<string, Exported<T, G>>)
      ensures this.aliases == aliases && this.resolutions == resolutions && parseCache == map[]
    {
      this.aliases := aliases;
      this.resolutions := resolutions;
      parseCache := map[];
    }

    /** `maybeResolveSubalias(name)`: a name without "." resolves to nothing;
        when the part before the first "." names a module alias, the member
        under the rest is recorded as the name's resolution and returned,
        and a missing member is an "unresolvable" parse error; another alias
        before the "." is a "non-submodule dot" parse error; an unknown
        prefix resolves to nothing. */
    method MaybeResolveSubalias(name: string, unresolvableMessage: string -> string, nonSubmoduleDotMessage: string -> string)
      returns (r: Result<Option<Exported<T, G>>>)
      modifies this
      ensures aliases == old(aliases) && parseCache == old(parseCache)
      ensures '.' !in name ==> r == Ok(None) && resolutions == old(resolutions)
      ensures '.' in name ==> r == SubaliasOf(old(aliases), name, unresolvableMessage, nonSubmoduleDotMessage)
      ensures r.Ok? && r.value.Some? ==> resolutions == old(resolutions)[name := r.value.value]
      ensures !(r.Ok? && r.value.Some?) ==> resolutions == old(resolutions)
    {
      var dotIndex := IndexOf(name, '.');
      if dotIndex == -1 {
        return Ok(None);
      }
      var dotPrefix := name[..dotIndex];
      if dotPrefix in aliases && aliases[dotPrefix].ModuleAlias? {
        var resolution := Member(aliases[dotPrefix].members, name[dotIndex + 1..]);
        if resolution.None? {
          return Err(ParseError(unresolvableMessage(name)));
        }
        resolutions := resolutions[name := resolution.value];
        return Ok(resolution);
      }
      if dotPrefix in aliases {
        return Err(ParseError(nonSubmoduleDotMessage(dotPrefix)));
      }
      return Ok(None);
    }

    /** `parse(def, ctx)`: a string with contextual arguments is parsed
        afresh; a string without them is parsed once and served from the
        cache afterwards; an object is parsed as an object; any other value
        is a parse error naming its domain. */
    method Parse<O>(def: Definition<O>, hasArgs: bool, parseString: string -> T, parseObject: O -> T,
                    badDefinitionMessage: Domain -> string) returns (r: Result<T>)
      modifies this
      ensures aliases == old(aliases) && resolutions == old(resolutions)
      ensures !def.StringDefinition? || hasArgs ==> parseCache == old(parseCache)
      ensures def.StringDefinition? && hasArgs ==> r == Ok(parseString(def.text))
      ensures def.StringDefinition? && !hasArgs && def.text in old(parseCache) ==>
        r == Ok(old(parseCache)[def.text]) && parseCache == old(parseCache)
      ensures def.StringDefinition? && !hasArgs && def.text !in old(parseCache) ==>
        r == Ok(parseString(def.text)) && parseCache == old(parseCache)[def.text := parseString(def.text)]
      ensures def.ObjectDefinition? ==> r == Ok(parseObject(def.obj))
      ensures def.OtherDefinition? ==> r == Err(ParseError(badDefinitionMessage(def.domain)))
    {
      match def
      case StringDefinition(text) =>
        if hasArgs {
          return Ok(parseString(text));
        }
        if text !in parseCache {
          parseCache := parseCache[text := parseString(text)];
        }
        return Ok(parseCache[text]);
      case ObjectDefinition(obj) =>
        return Ok(parseObject(obj));
      case OtherDefinition(domain) =>
        return Err(ParseError(badDefinitionMessage(domain)));
    }
  }

  /** What dotted resolution answers for a name holding a ".". */
  function SubaliasOf<T, G>(aliases: map<string, Alias<T, G>>, name: string,
                            unresolvableMessage: string -> string, nonSubmoduleDotMessage: string -> string): (r: Result<Option<Exported<T, G>>>)
    requires '.' in name
  {
    var dotIndex := IndexOf(name, '.');
    var dotPrefix := name[..dotIndex];
    if dotPrefix in aliases && aliases[dotPrefix].ModuleAlias? then
      match Member(aliases[dotPrefix].members, name[dotIndex + 1..])
      case None => Err(ParseError(unresolvableMessage(name)))
      case Some(resolution) => Ok(Some(resolution))
    else if dotPrefix in aliases then Err(ParseError(nonSubmoduleDotMessage(dotPrefix)))
    else Ok(None)
  }

  /** Dotted resolution of "<module>.<member>" finds the member of the module
      alias, and a member the module lacks is an "unresolvable" error. */
  lemma SubaliasFindsMember<T, G>(aliases: map<string, Alias<T, G>>, prefix: string, member: string,
                                  unresolvableMessage: string -> string, nonSubmoduleDotMessage: string -> string)
    requires '.' !in prefix
    ensures var r := SubaliasOf(aliases, prefix + "." + member, unresolvableMessage, nonSubmoduleDotMessage);
      && (prefix !in aliases ==> r == Ok(None))
      && (prefix in aliases && aliases[prefix].DefinitionAlias? ==> r == Err(ParseError(nonSubmoduleDotMessage(prefix))))
      && (prefix in aliases && aliases[prefix].ModuleAlias? ==>
            r == (match Member(aliases[prefix].members, member)
                  case None => Err(ParseError(unresolvableMessage(prefix + "." + member)))
                  case Some(m) => Ok(Some(m))))
  {
    var name := prefix + "." + member;
    FirstDotAfter(prefix, member);
    assert name[..|prefix|] == prefix;
    assert name[|prefix| + 1..] == member;
  }
}
