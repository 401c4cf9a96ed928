/** String operations of the host language that the emitted code and the
    messages of the system rely on: identifier tests, decimal rendering of
    numbers, JSON string quoting, `slice`, `indexOf`, `join` and the string
    order `<`. Characters are Unicode scalar values; `<` compares the UTF-16
    code units the host stores, while lengths and indices count
    characters. */
module JsText {
  import opened Wrappers

  predicate IsIdentifierStart(c: char)
  {
    ('a' <= c <= 'z') || ('A' <= c <= 'Z') || c == '_' || c == '$'
  }

  predicate IsIdentifierPart(c: char)
  {
    IsIdentifierStart(c) || ('0' <= c <= '9')
  }

  /** `isDotAccessible`: the name matches `^[a-zA-Z_$][a-zA-Z_$0-9]*$`, so it
      can follow a `.` in emitted property access. */
  function IsDotAccessible(name: string): (b: bool)
    ensures b ==> |name| > 0 && '.' !in name && '[' !in name && '"' !in name
    ensures b <==> |name| > 0 && IsIdentifierStart(name[0])
                   && forall i :: 1 <= i < |name| ==> IsIdentifierPart(name[i])
  {
    |name| > 0 && IsIdentifierStart(name[0])
    && forall i :: 1 <= i < |name| ==> IsIdentifierPart(name[i])
  }

  // ---------------------------------------------------------------- numbers

  function DigitChar(d: nat): (c: char)
    requires d < 10
    ensures '0' <= c <= '9'
  {
    (48 + d) as char
  }

  /** Decimal rendering of a natural number, as template literals print it. */
  function NatToDecimal(n: nat): (s: string)
    ensures |s| >= 1
    ensures forall i :: 0 <= i < |s| ==> '0' <= s[i] <= '9'
    ensures n >= 10 ==> |s| >= 2
  {
    if n < 10 then [DigitChar(n)] else NatToDecimal(n / 10) + [DigitChar(n % 10)]
  }

  /** Distinct numbers render differently. */
  lemma {:induction false} NatToDecimalInjective(a: nat, b: nat)
    requires NatToDecimal(a) == NatToDecimal(b)
    ensures a == b
  {
    var sa, sb := NatToDecimal(a), NatToDecimal(b);
    if a < 10 && b < 10 {
      assert sa[0] == sb[0];
    } else if a >= 10 && b >= 10 {
      var pa, pb := NatToDecimal(a / 10), NatToDecimal(b / 10);
      assert sa == pa + [DigitChar(a % 10)];
      assert sb == pb + [DigitChar(b % 10)];
      assert |pa| == |pb|;
      assert sa[|sa| - 1] == sb[|sb| - 1];
      assert a % 10 == b % 10;
      assert pa == sa[..|sa| - 1] == sb[..|sb| - 1] == pb;
      NatToDecimalInjective(a / 10, b / 10);
    }
  }

  /** Decimal rendering of an integer, with a leading minus sign. */
  function IntToDecimal(i: int): (s: string)
    ensures |s| >= 1
    ensures i < 0 <==> s[0] == '-'
  {
    if i < 0 then "-" + NatToDecimal(-i) else NatToDecimal(i)
  }

  /** Distinct integers render differently. */
  lemma IntToDecimalInjective(a: int, b: int)
    requires IntToDecimal(a) == IntToDecimal(b)
    ensures a == b
  {
    if a < 0 {
      assert b < 0;
      assert NatToDecimal(-a) == IntToDecimal(a)[1..] == IntToDecimal(b)[1..] == NatToDecimal(-b);
      NatToDecimalInjective(-a, -b);
    } else {
      assert b >= 0;
      NatToDecimalInjective(a, b);
    }
  }

  // ----------------------------------------------------------- JSON strings

  function HexDigit(d: nat): (c: char)
    requires d < 16
  {
    if d < 10 then (48 + d) as char else (87 + d) as char
  }

  function HexValue(c: char): Option<nat>
  {
    if '0' <= c <= '9' then Some(c as int - 48)
    else if 'a' <= c <= 'f' then Some(c as int - 87)
    else if 'A' <= c <= 'F' then Some(c as int - 55)
    else None
  }

  /** How `JSON.stringify` writes one character inside a string literal. */
  function EscapeChar(c: char): (e: string)
    ensures |e| >= 1
    ensures e[0] == '\\' || (e == [c] && c != '"')
  {
    var n := c as int;
    if c == '"' then ['\\', '"']
    else if c == '\\' then ['\\', '\\']
    else if n == 8 then ['\\', 'b']
    else if n == 9 then ['\\', 't']
    else if n == 10 then ['\\', 'n']
    else if n == 12 then ['\\', 'f']
    else if n == 13 then ['\\', 'r']
    else if n < 32 then ['\\', 'u', '0', '0', HexDigit(n / 16), HexDigit(n % 16)]
    else [c]
  }

  function EscapeString(s: string): string
  {
    if s == [] then [] else EscapeChar(s[0]) + EscapeString(s[1..])
  }

  /** `JSON.stringify` of a string. */
  function JsonQuote(s: string): (q: string)
    ensures |q| >= 2 && q[0] == '"' && q[|q| - 1] == '"'
  {
    "\"" + EscapeString(s) + "\""
  }

  function Prepend(c: char, r: Option<string>): Option<string>
  {
    if r.Some? then Some([c] + r.value) else None
  }

  /** Reads back the inside of a JSON string literal. */
  function DecodeEscaped(t: string): Option<string>
    decreases |t|
  {
    if t == [] then Some([])
    else if t[0] == '"' then None
    else if t[0] != '\\' then Prepend(t[0], DecodeEscaped(t[1..]))
    else if |t| < 2 then None
    else if t[1] == '"' || t[1] == '\\' || t[1] == '/' then Prepend(t[1], DecodeEscaped(t[2..]))
    else if t[1] == 'b' then Prepend(8 as char, DecodeEscaped(t[2..]))
    else if t[1] == 't' then Prepend(9 as char, DecodeEscaped(t[2..]))
    else if t[1] == 'n' then Prepend(10 as char, DecodeEscaped(t[2..]))
    else if t[1] == 'f' then Prepend(12 as char, DecodeEscaped(t[2..]))
    else if t[1] == 'r' then Prepend(13 as char, DecodeEscaped(t[2..]))
    else if t[1] == 'u' && |t| >= 6 then
      var h0, h1, h2, h3 := HexValue(t[2]), HexValue(t[3]), HexValue(t[4]), HexValue(t[5]);
      if h0.Some? && h1.Some? && h2.Some? && h3.Some? then
        var v := h0.value * 4096 + h1.value * 256 + h2.value * 16 + h3.value;
        if v < 0xD800 || 0xE000 <= v < 0x11_0000 then Prepend(v as char, DecodeEscaped(t[6..]))
        else None
      else None
    else None
  }

  /** Reads back a JSON string literal. */
  function Unquote(q: string): Option<string>
  {
    if |q| >= 2 && q[0] == '"' && q[|q| - 1] == '"' then DecodeEscaped(q[1..|q| - 1]) else None
  }

  lemma HexRoundTrip(d: nat)
    requires d < 16
    ensures HexValue(HexDigit(d)) == Some(d)
  {
  }

  lemma DecodeEscapeChar(c: char, rest: string)
    ensures DecodeEscaped(EscapeChar(c) + rest) == Prepend(c, DecodeEscaped(rest))
  {
    var n := c as int;
    var t := EscapeChar(c) + rest;
    if n < 32 && n !in {8, 9, 10, 12, 13} {
      HexRoundTrip(n / 16);
      HexRoundTrip(n % 16);
      assert t[6..] == rest;
    } else if c == '"' || c == '\\' || n in {8, 9, 10, 12, 13} {
      assert t[2..] == rest;
    } else {
      assert t[1..] == rest;
    }
  }

  lemma {:induction false} DecodeEscapeString(s: string)
    ensures DecodeEscaped(EscapeString(s)) == Some(s)
  {
    if s != [] {
      DecodeEscapeString(s[1..]);
      DecodeEscapeChar(s[0], EscapeString(s[1..]));
      assert [s[0]] + s[1..] == s;
    }
  }

  /** Reading back a quoted string gives the string: quoting is lossless. */
  lemma JsonQuoteRoundTrip(s: string)
    ensures Unquote(JsonQuote(s)) == Some(s)
  {
    var q := JsonQuote(s);
    assert q[1..|q| - 1] == EscapeString(s);
    DecodeEscapeString(s);
  }

  /** Distinct strings quote differently. */
  lemma JsonQuoteInjective(a: string, b: string)
    requires JsonQuote(a) == JsonQuote(b)
    ensures a == b
  {
    JsonQuoteRoundTrip(a);
    JsonQuoteRoundTrip(b);
  }

  // ------------------------------------------------------- slicing, search

  /** A relative index of `slice`: negative values count from the end, and
      the result is clamped to the string. */
  function RelativeIndex(len: nat, i: int): (r: nat)
    ensures r <= len
    ensures 0 <= i <= len ==> r == i
    ensures i < 0 && len + i >= 0 ==> r == len + i
  {
    if i < 0 then (if len + i < 0 then 0 else len + i) else if i > len then len else i
  }

  /** `s.slice(start, end)`. */
  function JsSlice(s: string, start: int, end: int): (r: string)
    ensures |r| <= |s|
  {
    var from, to := RelativeIndex(|s|, start), RelativeIndex(|s|, end);
    if from >= to then "" else s[from..to]
  }

  /** `s.indexOf(c)`: the first position of `c`, or -1. */
  function IndexOf(s: string, c: char): (i: int)
    ensures -1 <= i < |s|
    ensures i >= 0 ==> s[i] == c && c !in s[..i]
    ensures i == -1 <==> c !in s
  {
    if |s| == 0 then -1
    else if s[0] == c then 0
    else
      var j := IndexOf(s[1..], c);
      if j == -1 then -1 else j + 1
  }

  /** `s.lastIndexOf(c)`: the last position of `c`, or -1. */
  function LastIndexOf(s: string, c: char): (i: int)
    ensures -1 <= i < |s|
    ensures i >= 0 ==> s[i] == c && c !in s[i + 1..]
    ensures i == -1 <==> c !in s
  {
    if |s| == 0 then -1
    else if s[|s| - 1] == c then |s| - 1
    else
      var i := LastIndexOf(s[..|s| - 1], c);
      assert s[..|s| - 1] + [s[|s| - 1]] == s;
      if i >= 0 then assert s[i + 1..] == s[..|s| - 1][i + 1..] + [s[|s| - 1]]; i
      else i
  }

  /** `parts.join(sep)`. */
  function Join(parts: seq<string>, sep: string): string
  {
    if |parts| == 0 then "" else if |parts| == 1 then parts[0] else parts[0] + sep + Join(parts[1..], sep)
  }

  /** Joining two non-empty lists is joining each and putting the separator
      between the two results. */
  lemma {:induction false} JoinAppend(a: seq<string>, b: seq<string>, sep: string)
    requires |a| > 0 && |b| > 0
    ensures Join(a + b, sep) == Join(a, sep) + sep + Join(b, sep)
  {
    if |a| == 1 {
      assert (a + b)[1..] == b;
    } else {
      assert (a + b)[1..] == a[1..] + b;
      JoinAppend(a[1..], b, sep);
    }
  }

  // ------------------------------------------------------------ string order

  /** The UTF-16 code units of one character: itself below 0x10000, else its
      surrogate pair. */
  function CodeUnits(c: char): (u: seq<int>)
    ensures c as int < 0x10000 ==> u == [c as int] && !(0xD800 <= u[0] < 0xDC00)
    ensures c as int >= 0x10000 ==> |u| == 2 && 0xD800 <= u[0] < 0xDC00 && 0xDC00 <= u[1] < 0xE000
    ensures |u| == 2 ==> 0x10000 + (u[0] - 0xD800) * 0x400 + (u[1] - 0xDC00) == c as int
  {
    var v := c as int;
    if v < 0x10000 then [v]
    else [0xD800 + (v - 0x10000) / 0x400, 0xDC00 + (v - 0x10000) % 0x400]
  }

  /** The string as the host stores it: its UTF-16 code units, in order. */
  function Utf16(s: string): (u: seq<int>)
    ensures |u| >= |s|
    ensures |s| > 0 ==> u == CodeUnits(s[0]) + Utf16(s[1..])
  {
    if |s| == 0 then [] else CodeUnits(s[0]) + Utf16(s[1..])
  }

  /** Lexicographic order on code-unit sequences. */
  predicate UnitsLt(a: seq<int>, b: seq<int>)
  {
    if |a| == 0 then |b| > 0
    else if |b| == 0 then false
    else if a[0] == b[0] then UnitsLt(a[1..], b[1..])
    else a[0] < b[0]
  }

  /** The host language's `a < b` on strings: lexicographic by UTF-16 code
      unit, so a character above U+FFFF compares by its high surrogate. */
  predicate StrLt(a: string, b: string)
  {
    UnitsLt(Utf16(a), Utf16(b))
  }

  /** U+1F600 sorts before U+FF61: its high surrogate 0xD83D is below
      0xFF61, though its code point is above. */
  lemma SurrogatePairSortsByHighUnit()
    ensures StrLt("\U{1F600}", "\U{FF61}") && !StrLt("\U{FF61}", "\U{1F600}")
  {
    assert Utf16("\U{1F600}") == [0xD83D, 0xDE00];
    assert Utf16("\U{FF61}") == [0xFF61];
  }

  /** Distinct strings have distinct code units. */
  lemma {:induction false} Utf16Injective(a: string, b: string)
    requires Utf16(a) == Utf16(b)
    ensures a == b
  {
    if |a| > 0 && |b| > 0 {
      CodeUnitsPrefixFree(a[0], b[0], Utf16(a[1..]), Utf16(b[1..]));
      Utf16Injective(a[1..], b[1..]);
      assert a == [a[0]] + a[1..] && b == [b[0]] + b[1..];
    }
  }

  /** The code units of one character are never a proper prefix of another
      character's: a surrogate pair starts with a high surrogate, a single
      unit never is one. */
  lemma CodeUnitsPrefixFree(c: char, d: char, restC: seq<int>, restD: seq<int>)
    requires CodeUnits(c) + restC == CodeUnits(d) + restD
    ensures c == d && restC == restD
  {
    var uc, ud := CodeUnits(c), CodeUnits(d);
    var whole := uc + restC;
    assert whole[0] == uc[0] && whole[0] == ud[0];
    if |uc| == 2 {
      assert |ud| == 2;
      assert whole[1] == uc[1] && whole[1] == ud[1];
    }
    assert c as int == d as int;
    assert restC == whole[|uc|..] && restD == whole[|ud|..];
  }

  lemma {:induction false} UnitsLtIrreflexive(a: seq<int>)
    ensures !UnitsLt(a, a)
  {
    if |a| > 0 { UnitsLtIrreflexive(a[1..]); }
  }

  lemma {:induction false} UnitsLtAsymmetric(a: seq<int>, b: seq<int>)
    requires UnitsLt(a, b)
    ensures !UnitsLt(b, a)
  {
    if |a| > 0 && |b| > 0 && a[0] == b[0] { UnitsLtAsymmetric(a[1..], b[1..]); }
  }

  lemma {:induction false} UnitsLtTransitive(a: seq<int>, b: seq<int>, c: seq<int>)
    requires UnitsLt(a, b) && UnitsLt(b, c)
    ensures UnitsLt(a, c)
  {
    if |a| > 0 && |b| > 0 && |c| > 0 && a[0] == b[0] && b[0] == c[0] {
      UnitsLtTransitive(a[1..], b[1..], c[1..]);
    }
  }

  lemma {:induction false} UnitsLtTotal(a: seq<int>, b: seq<int>)
    requires a != b
    ensures UnitsLt(a, b) || UnitsLt(b, a)
  {
    if |a| > 0 && |b| > 0 && a[0] == b[0] {
      assert a == [a[0]] + a[1..] && b == [b[0]] + b[1..];
      UnitsLtTotal(a[1..], b[1..]);
    }
  }

  lemma StrLtIrreflexive(a: string)
    ensures !StrLt(a, a)
  {
    UnitsLtIrreflexive(Utf16(a));
  }

  lemma StrLtAsymmetric(a: string, b: string)
    requires StrLt(a, b)
    ensures !StrLt(b, a)
  {
    UnitsLtAsymmetric(Utf16(a), Utf16(b));
  }

  lemma StrLtTransitive(a: string, b: string, c: string)
    requires StrLt(a, b) && StrLt(b, c)
    ensures StrLt(a, c)
  {
    UnitsLtTransitive(Utf16(a), Utf16(b), Utf16(c));
  }

  /** On distinct strings the order is total, because distinct strings have
      distinct code units. */
  lemma StrLtTotal(a: string, b: string)
    requires a != b
    ensures StrLt(a, b) || StrLt(b, a)
  {
    if Utf16(a) == Utf16(b) {
      Utf16Injective(a, b);
    }
    UnitsLtTotal(Utf16(a), Utf16(b));
  }
}
