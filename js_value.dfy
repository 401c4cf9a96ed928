/** Host (JavaScript) values as the constraint system sees them.

    Reference values (symbols, objects, functions) carry an identity number
    together with the attributes that never change for that reference (a
    symbol's description, an object's builtin kind, a function's name), so
    equality of `Value`s is the strict equality `===` of the host language.
    Numbers are integers: floating point and NaN are not modelled. */
module JsValue {
  import opened Wrappers
  import opened JsText

  datatype Value =
    | Undefined
    | Null
    | Bool(b: bool)
    | Num(n: int)
    | BigInt(i: int)
    | Str(s: string)
    | Sym(symbolId: nat, description: Option<string>)
    | Obj(objectId: nat, objectKind: Option<string>)
    | Fn(functionId: nat, name: string)

  /** JSON data, objects keeping their insertion order. */
  datatype Json =
    | JNull
    | JBool(b: bool)
    | JNum(n: int)
    | JStr(s: string)
    | JArr(items: seq<Json>)
    | JObj(fields: seq<(string, Json)>)

  /** `JSON.stringify` of JSON data. */
  function Stringify(j: Json): (s: string)
    ensures |s| >= 1
  {
    match j
    case JNull => "null"
    case JBool(b) => if b then "true" else "false"
    case JNum(n) => IntToDecimal(n)
    case JStr(t) => JsonQuote(t)
    case JArr(items) =>
      "[" + Join(seq(|items|, i requires 0 <= i < |items| => Stringify(items[i])), ",") + "]"
    case JObj(fields) =>
      "{" + Join(seq(|fields|, i requires 0 <= i < |fields| =>
                   JsonQuote(fields[i].0) + ":" + Stringify(fields[i].1)), ",") + "}"
  }

  function Abs(x: int): (a: nat)
    ensures a == x || a == -x
  {
    if x < 0 then -x else x
  }

  /** The host's remainder operator `%` on integral numbers: it truncates
      toward zero, so the remainder takes the sign of the dividend (and a
      zero remainder of a negative dividend is -0, which `===` equates
      with 0). */
  function JsRemainder(a: int, b: int): (r: int)
    requires b != 0
    ensures Abs(r) < Abs(b)
    ensures a >= 0 ==> r >= 0
    ensures a <= 0 ==> r <= 0
  {
    if a >= 0 then a % Abs(b) else -((-a) % Abs(b))
  }

  /** The remainder is what is left of the dividend after taking away a
      whole multiple of the divisor. */
  lemma JsDivision(a: int, b: int) returns (q: int)
    requires b != 0
    ensures a == q * b + JsRemainder(a, b)
  {
    var m := Abs(b);
    if a >= 0 {
      assert a == (a / m) * m + a % m;
      q := if b > 0 then a / m else -(a / m);
    } else {
      assert -a == ((-a) / m) * m + (-a) % m;
      q := if b > 0 then -((-a) / m) else (-a) / m;
    }
  }

  /** The domains of the system: the result of `domainOf`. */
  datatype Domain =
    | DUndefined | DNull | DBoolean | DNumber | DBigint | DString | DSymbol | DObject

  /** `domainOf`: like `typeof`, except that `null` has its own domain and
      functions belong to the object domain. */
  function DomainOf(v: Value): (d: Domain)
    ensures d == DObject <==> v.Obj? || v.Fn?
    ensures d == DNull <==> v == Null
    ensures d == DUndefined <==> v == Undefined
  {
    match v
    case Undefined => DUndefined
    case Null => DNull
    case Bool(_) => DBoolean
    case Num(_) => DNumber
    case BigInt(_) => DBigint
    case Str(_) => DString
    case Sym(_, _) => DSymbol
    case Obj(_, _) => DObject
    case Fn(_, _) => DObject
  }

  /** The name under which a domain is written in schemas and emitted code. */
  function DomainName(d: Domain): string
  {
    match d
    case DUndefined => "undefined"
    case DNull => "null"
    case DBoolean => "boolean"
    case DNumber => "number"
    case DBigint => "bigint"
    case DString => "string"
    case DSymbol => "symbol"
    case DObject => "object"
  }

  /** The domain a schema string names, if any. */
  function DomainNamed(name: string): (d: Option<Domain>)
    ensures d.Some? ==> DomainName(d.value) == name
    ensures forall k: Domain :: DomainName(k) == name ==> d == Some(k)
  {
    if name == "undefined" then Some(DUndefined)
    else if name == "null" then Some(DNull)
    else if name == "boolean" then Some(DBoolean)
    else if name == "number" then Some(DNumber)
    else if name == "bigint" then Some(DBigint)
    else if name == "string" then Some(DString)
    else if name == "symbol" then Some(DSymbol)
    else if name == "object" then Some(DObject)
    else None
  }

  /** Distinct domains have distinct names. */
  lemma DomainNameInjective(a: Domain, b: Domain)
    requires DomainName(a) == DomainName(b)
    ensures a == b
  {
    var _ := DomainNamed(DomainName(a));
  }

  /** The host language's `typeof` operator. */
  function Typeof(v: Value): string
  {
    match v
    case Undefined => "undefined"
    case Null => "object"
    case Bool(_) => "boolean"
    case Num(_) => "number"
    case BigInt(_) => "bigint"
    case Str(_) => "string"
    case Sym(_, _) => "symbol"
    case Obj(_, _) => "object"
    case Fn(_, _) => "function"
  }

  /** Outside null, undefined and the object domain, `typeof` names the domain. */
  lemma TypeofAgreesWithDomain(v: Value)
    requires DomainOf(v) !in {DObject, DNull}
    ensures Typeof(v) == DomainName(DomainOf(v))
  {
  }
}
