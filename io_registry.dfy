/** The registry of values that emitted code refers to by name
    (ark/schema/io/registry.ts). A value is stored under the first free
    candidate of its base name — baseName, baseName2, baseName3, ... — and
    is referred to as `$ark.<name>`. */
module IoRegistry {
  import opened Wrappers
  import opened JsValue
  import opened JsText

  /** The n-th candidate name: the base name itself, then the base name
      followed by 2, 3, ... */
  function Candidate(baseName: string, n: nat): string
    requires n >= 1
  {
    if n == 1 then baseName else baseName + NatToDecimal(n)
  }

  /** A name can hold the value when it is unused or already holds it. */
  predicate Usable(slots: map<string, Value>, name: string, value: Value)
  {
    name !in slots || slots[name] == value
  }

  /** Candidates are pairwise different, so the search never retries a name. */
  lemma CandidatesDistinct(baseName: string, i: nat, j: nat)
    requires 1 <= i < j
    ensures Candidate(baseName, i) != Candidate(baseName, j)
  {
    if i > 1 {
      var ci, cj := Candidate(baseName, i), Candidate(baseName, j);
      if ci == cj {
        assert NatToDecimal(i) == ci[|baseName|..] == cj[|baseName|..] == NatToDecimal(j);
        NatToDecimalInjective(i, j);
      }
    }
  }

  /** The first k - 1 candidates, as a set. */
  function CandidateSet(baseName: string, k: nat): (names: set<string>)
    requires k >= 1
    ensures forall j :: 1 <= j < k ==> Candidate(baseName, j) in names
  {
    set j | 1 <= j < k :: Candidate(baseName, j)
  }

  lemma {:induction false} CandidateSetSize(baseName: string, k: nat)
    requires k >= 1
    ensures |CandidateSet(baseName, k)| == k - 1
  {
    if k > 1 {
      CandidateSetSize(baseName, k - 1);
      var last := Candidate(baseName, k - 1);
      forall j | 1 <= j < k - 1 ensures Candidate(baseName, j) != last {
        CandidatesDistinct(baseName, j, k - 1);
      }
      assert CandidateSet(baseName, k) == CandidateSet(baseName, k - 1) + {last};
    }
  }

  /** If the first k - 1 candidates are all taken, the registry holds at
      least k - 1 names. */
  lemma OccupiedCandidatesBound(slots: map<string, Value>, baseName: string, k: nat)
    requires k >= 1
    requires forall j :: 1 <= j < k ==> Candidate(baseName, j) in slots
    ensures k - 1 <= |slots.Keys|
  {
    CandidateSetSize(baseName, k);
    assert CandidateSet(baseName, k) <= slots.Keys;
    SubsetCardinality(CandidateSet(baseName, k), slots.Keys);
  }

  lemma SubsetCardinality<T>(a: set<T>, b: set<T>)
    requires a <= b
    ensures |a| <= |b|
  {
    assert b == a + (b - a);
  }

  /** The index of the candidate `register` settles on when the search starts
      at candidate k: the first usable one. Some candidate among the first
      |slots| + 1 is always usable, so the search ends. */
  function ChosenIndex(slots: map<string, Value>, baseName: string, value: Value, k: nat): (i: nat)
    requires k >= 1
    requires forall j :: 1 <= j < k ==> !Usable(slots, Candidate(baseName, j), value)
    ensures k <= i <= |slots.Keys| + 1
    ensures Usable(slots, Candidate(baseName, i), value)
    ensures forall j :: 1 <= j < i ==> !Usable(slots, Candidate(baseName, j), value)
    decreases |slots.Keys| + 1 - k
  {
    assert forall j :: 1 <= j < k ==> Candidate(baseName, j) in slots by {
      forall j | 1 <= j < k ensures Candidate(baseName, j) in slots {
        assert !Usable(slots, Candidate(baseName, j), value);
      }
    }
    OccupiedCandidatesBound(slots, baseName, k);
    if Usable(slots, Candidate(baseName, k), value) then k
    else
      OccupiedCandidatesBound(slots, baseName, k + 1);
      ChosenIndex(slots, baseName, value, k + 1)
  }

  /** The name `register` chooses for a value. */
  function ChosenName(slots: map<string, Value>, baseName: string, value: Value): string
  {
    Candidate(baseName, ChosenIndex(slots, baseName, value, 1))
  }

  /** The first usable candidate is unique: any usable candidate preceded
      only by unusable ones is the chosen one. */
  lemma ChosenIndexIsFirstUsable(slots: map<string, Value>, baseName: string, value: Value, i: nat)
    requires i >= 1
    requires Usable(slots, Candidate(baseName, i), value)
    requires forall j :: 1 <= j < i ==> !Usable(slots, Candidate(baseName, j), value)
    ensures ChosenIndex(slots, baseName, value, 1) == i
  {
  }

  /** Registering a value a second time under the same base name picks the
      same name, hence the same reference, and leaves the slots as they are. */
  lemma RegisterAgainSameName(slots: map<string, Value>, baseName: string, value: Value)
    ensures ChosenName(slots[ChosenName(slots, baseName, value) := value], baseName, value)
         == ChosenName(slots, baseName, value)
    ensures var after := slots[ChosenName(slots, baseName, value) := value];
            after[ChosenName(after, baseName, value) := value] == after
  {
    var i := ChosenIndex(slots, baseName, value, 1);
    var name := Candidate(baseName, i);
    var after := slots[name := value];
    forall j | 1 <= j < i ensures !Usable(after, Candidate(baseName, j), value) {
      CandidatesDistinct(baseName, j, i);
    }
    ChosenIndexIsFirstUsable(after, baseName, value, i);
  }

  /** The registry; `slots` also holds the names the registry object has
      before anything is registered (its own methods and those it inherits),
      since `in` sees them too. */
  class Registry {
    var slots: map<string, Value>

    constructor (inherited: map<string, Value>)
      ensures slots == inherited
    {
      slots := inherited;
    }

    /** `reference`: the expression emitted code uses for a name. */
    static function Reference(name: string): (r: string)
      ensures |r| == 5 + |name| && r[..5] == "$ark." && r[5..] == name
    {
      "$ark." + name
    }

    /** `register`: try baseName, baseName2, baseName3, ... until a name is
        unused or already holds the value, store the value there and return
        its reference. */
    method Register(value: Value, baseName: string) returns (reference: string)
      modifies this
      ensures reference == Reference(ChosenName(old(slots), baseName, value))
      ensures slots == old(slots)[ChosenName(old(slots), baseName, value) := value]
      ensures forall n :: n in old(slots) && old(slots)[n] != value ==> n in slots && slots[n] == old(slots)[n]
    {
      var variableName := baseName;
      var suffix: nat := 2;
      while variableName in slots && slots[variableName] != value
        invariant slots == old(slots)
        invariant suffix >= 2 && variableName == Candidate(baseName, suffix - 1)
        invariant forall j :: 1 <= j < suffix - 1 ==> !Usable(slots, Candidate(baseName, j), value)
        invariant suffix - 1 <= |slots.Keys| + 1
        decreases |slots.Keys| + 1 - (suffix - 1)
      {
        OccupiedCandidatesBound(slots, baseName, suffix);
        variableName := baseName + NatToDecimal(suffix);
        suffix := suffix + 1;
      }
      ChosenIndexIsFirstUsable(slots, baseName, value, suffix - 1);
      slots := slots[variableName := value];
      reference := Reference(variableName);
    }
  }

  /** `String.prototype.toLowerCase` on one character, for ASCII letters. */
  function LowerAscii(c: char): (l: char)
    ensures 'A' <= c <= 'Z' ==> 'a' <= l <= 'z'
    ensures !('A' <= c <= 'Z') ==> l == c
  {
    if 'A' <= c <= 'Z' then (c as int + 32) as char else c
  }

  function UnexpectedValueMessage(v: Value): string
  {
    "Unexpected attempt to register serializable value of type " + DomainName(DomainOf(v))
  }

  /** `baseNameFor`: an object's kind (or "object") with a lower-case first
      letter, a function's name or a symbol's description when it can follow
      a dot (else "anonymousFunction" / "anonymousSymbol"); anything else is
      an internal error. An object kind that is the empty string would make
      the host fail on `prefix[0].toLowerCase()`. */
  function BaseNameFor(v: Value): (r: Result<string>)
    ensures v.Obj? && v.objectKind.None? ==> r == Ok("object")
    ensures v.Obj? && v.objectKind.Some? && v.objectKind.value != "" ==>
      r.Ok? && |r.value| == |v.objectKind.value| && r.value[0] == LowerAscii(v.objectKind.value[0])
      && r.value[1..] == v.objectKind.value[1..]
    ensures v.Fn? ==> r == Ok(if IsDotAccessible(v.name) then v.name else "anonymousFunction")
    ensures v.Sym? ==>
      r == Ok(if v.description.Some? && IsDotAccessible(v.description.value) then v.description.value
              else "anonymousSymbol")
    ensures !(v.Obj? || v.Fn? || v.Sym?) ==> r == Err(InternalError(UnexpectedValueMessage(v)))
    ensures r.Ok? ==> IsDotAccessible(r.value) || v.Obj?
  {
    match v
    case Obj(_, kind) =>
      var prefix := if kind.Some? then kind.value else "object";
      assert LowerAscii('o') == 'o' && "object" == ['o'] + "object"[1..];
      if prefix == "" then Err(HostTypeError("Cannot read properties of undefined (reading 'toLowerCase')"))
      else Ok([LowerAscii(prefix[0])] + prefix[1..])
    case Fn(_, name) => Ok(if IsDotAccessible(name) then name else "anonymousFunction")
    case Sym(_, description) =>
      Ok(if description.Some? && IsDotAccessible(description.value) then description.value else "anonymousSymbol")
    case _ => Err(InternalError(UnexpectedValueMessage(v)))
  }

  /** `register` with its default base name: the base name's error, if any,
      is raised before anything is stored. */
  method RegisterByKind(registry: Registry, value: Value) returns (r: Result<string>)
    modifies registry
    ensures BaseNameFor(value).Err? ==> r == Err(BaseNameFor(value).error) && registry.slots == old(registry.slots)
    ensures BaseNameFor(value).Ok? ==>
      var name := ChosenName(old(registry.slots), BaseNameFor(value).value, value);
      r == Ok(Registry.Reference(name)) && registry.slots == old(registry.slots)[name := value]
  {
    var baseName := BaseNameFor(value);
    if baseName.Err? {
      return Err(baseName.error);
    }
    var reference := registry.Register(value, baseName.value);
    r := Ok(reference);
  }
}
