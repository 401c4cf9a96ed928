/** The boolean expressions that the compiler emits as test conditions, as a
    small syntax tree with the meaning the host language gives them
    (`Eval`) and the text that is emitted for them (`Print`). Every test is
    over a single data operand. */
module JsExpr {
  import opened JsValue
  import opened JsText

  datatype Literal = NullLiteral | UndefinedLiteral

  datatype Expr =
    | TypeofIs(typeName: string)           // typeof x === "t"
    | TypeofIsNot(typeName: string)        // typeof x !== "t"
    | IsLiteral(lit: Literal)              // x === null
    | IsNotLiteral(lit: Literal)           // x !== null
    | RemainderIsZero(divisor: int)        // x % d === 0
    | RemainderIsNotZero(divisor: int)     // x % d !== 0
    | IsValue(value: Value, text: string)  // x === <text>, text serialising value
    | IsNotValue(value: Value, text: string) // x !== <text>
    | And(left: Expr, right: Expr)
    | Or(left: Expr, right: Expr)

  function LiteralText(lit: Literal): string
  {
    match lit
    case NullLiteral => "null"
    case UndefinedLiteral => "undefined"
  }

  function LiteralValue(lit: Literal): Value
  {
    match lit
    case NullLiteral => Null
    case UndefinedLiteral => Undefined
  }

  /** The remainder test `x % d === 0`: only numbers reach it; any other
      operand, and a zero divisor, give NaN, which equals nothing. */
  predicate RemainderZero(v: Value, d: int)
  {
    v.Num? && d != 0 && JsRemainder(v.n, d) == 0
  }

  /** What the expression evaluates to when its operand holds `v`. */
  predicate Eval(e: Expr, v: Value)
  {
    match e
    case TypeofIs(t) => Typeof(v) == t
    case TypeofIsNot(t) => Typeof(v) != t
    case IsLiteral(lit) => v == LiteralValue(lit)
    case IsNotLiteral(lit) => v != LiteralValue(lit)
    case RemainderIsZero(d) => RemainderZero(v, d)
    case RemainderIsNotZero(d) => !RemainderZero(v, d)
    case IsValue(u, _) => v == u
    case IsNotValue(u, _) => v != u
    case And(a, b) => Eval(a, v) && Eval(b, v)
    case Or(a, b) => Eval(a, v) || Eval(b, v)
  }

  /** The emitted text, every compound wrapped in parentheses. */
  function Print(e: Expr, operand: string): string
  {
    match e
    case TypeofIs(t) => "typeof " + operand + " === \"" + t + "\""
    case TypeofIsNot(t) => "typeof " + operand + " !== \"" + t + "\""
    case IsLiteral(lit) => operand + " === " + LiteralText(lit)
    case IsNotLiteral(lit) => operand + " !== " + LiteralText(lit)
    case RemainderIsZero(d) => operand + " % " + IntToDecimal(d) + " === 0"
    case RemainderIsNotZero(d) => operand + " % " + IntToDecimal(d) + " !== 0"
    case IsValue(_, text) => operand + " === " + text
    case IsNotValue(_, text) => operand + " !== " + text
    case And(a, b) => "(" + Print(a, operand) + " && " + Print(b, operand) + ")"
    case Or(a, b) => "(" + Print(a, operand) + " || " + Print(b, operand) + ")"
  }

  /** The emitted text without parentheses around the outermost compound. */
  function PrintBare(e: Expr, operand: string): string
  {
    match e
    case And(a, b) => Print(a, operand) + " && " + Print(b, operand)
    case Or(a, b) => Print(a, operand) + " || " + Print(b, operand)
    case _ => Print(e, operand)
  }

  /** The negation normal form: `!e`, pushed down to the tests. */
  function Negate(e: Expr): (n: Expr)
  {
    match e
    case TypeofIs(t) => TypeofIsNot(t)
    case TypeofIsNot(t) => TypeofIs(t)
    case IsLiteral(lit) => IsNotLiteral(lit)
    case IsNotLiteral(lit) => IsLiteral(lit)
    case RemainderIsZero(d) => RemainderIsNotZero(d)
    case RemainderIsNotZero(d) => RemainderIsZero(d)
    case IsValue(u, text) => IsNotValue(u, text)
    case IsNotValue(u, text) => IsValue(u, text)
    case And(a, b) => Or(Negate(a), Negate(b))
    case Or(a, b) => And(Negate(a), Negate(b))
  }

  /** `Negate` is the logical negation: on every operand exactly one of a
      condition and its negation holds. */
  lemma {:induction false} NegateIsComplement(e: Expr, v: Value)
    ensures Eval(Negate(e), v) == !Eval(e, v)
  {
    match e
    case And(a, b) => NegateIsComplement(a, v); NegateIsComplement(b, v);
    case Or(a, b) => NegateIsComplement(a, v); NegateIsComplement(b, v);
    case _ =>
  }
}
