/** Date literals of the string parser (src/parse/string/shift/operand/date.ts):
    `d'<source>'` or `d"<source>"`, the source read out of them, the message
    for a source the host cannot parse, and what a failed parse does. */
module DateLiteral {
  import opened Wrappers
  import opened JsText

  /** `s[i]` of the host: the character, or undefined past either end. */
  function At(s: string, i: int): (c: Option<char>)
    ensures c.Some? <==> 0 <= i < |s|
    ensures c.Some? ==> c.value == s[i]
  {
    if 0 <= i < |s| then Some(s[i]) else None
  }

  predicate IsQuote(c: Option<char>)
  {
    c == Some('\'') || c == Some('"')
  }

  /** `isDateLiteral` as written: "d", then a quote, and the last character
      equal to that quote. A two-character "d'" passes: its closing quote is
      its opening quote. */
  function IsDateLiteralAsWritten(s: string): (b: bool)
    ensures b <==> |s| >= 2 && s[0] == 'd' && (s[1] == '\'' || s[1] == '"') && s[|s| - 1] == s[1]
  {
    At(s, 0) == Some('d') && IsQuote(At(s, 1)) && At(s, |s| - 1) == At(s, 1)
  }

  /** A date literal as its type describes it: "d", a quote, the source, and
      the same quote again. */
  function Literal(quote: char, source: string): string
  {
    ['d', quote] + source + [quote]
  }

  /** `isDateLiteral` as evidently intended: only texts of the literal form,
      so at least three characters. */
  function IsDateLiteral(s: string): (b: bool)
    ensures b <==> IsDateLiteralAsWritten(s) && |s| >= 3
  {
    IsDateLiteralAsWritten(s) && |s| >= 3
  }

  /** `extractDateLiteralSource`: without the first two characters and the
      last. */
  function ExtractDateLiteralSource(literal: string): (source: string)
    ensures |literal| >= 3 ==> source == literal[2..|literal| - 1]
    ensures |literal| < 3 ==> source == ""
  {
    JsSlice(literal, 2, -1)
  }

  /** Every literal form passes the test, and reading its source gives the
      source back. */
  lemma LiteralRoundTrip(quote: char, source: string)
    requires quote == '\'' || quote == '"'
    ensures IsDateLiteral(Literal(quote, source))
    ensures ExtractDateLiteralSource(Literal(quote, source)) == source
  {
    var s := Literal(quote, source);
    assert s[2..|s| - 1] == source;
  }

  /** Conversely, every text that passes is the literal form of its own
      source. */
  lemma LiteralsAreWellFormed(s: string)
    requires IsDateLiteral(s)
    ensures s == Literal(s[1], ExtractDateLiteralSource(s))
  {
    assert s == [s[0], s[1]] + s[2..|s| - 1] + [s[|s| - 1]];
  }

  /** As written, "d'" passes the test though it is no literal form: its
      source would come out empty. */
  lemma BareQuoteAcceptedAsWritten()
    ensures IsDateLiteralAsWritten("d'") && !IsDateLiteral("d'")
    ensures forall q, source :: Literal(q, source) != "d'"
    ensures ExtractDateLiteralSource("d'") == ""
  {
    forall q, source ensures Literal(q, source) != "d'" {
      assert |Literal(q, source)| >= 3;
    }
  }

  /** `writeInvalidDateMessage`. */
  function WriteInvalidDateMessage(source: string): (m: string)
    ensures |m| == |source| + 46 && m[..1] == "'" && m[1..|source| + 1] == source
  {
    "'" + source + "' could not be parsed by the Date constructor"
  }

  /** Two messages differ whenever their sources do. */
  lemma MessageNamesSource(a: string, b: string)
    requires WriteInvalidDateMessage(a) == WriteInvalidDateMessage(b)
    ensures a == b
  {
    assert |a| == |b|;
  }

  /** The `errorOnFail` argument: omitted, a boolean, or a message. */
  datatype ErrorOnFail = Omitted | Flag(flag: bool) | Message(message: string)

  /** The host's truthiness of `errorOnFail`: `true` or a non-empty string. */
  predicate Truthy(e: ErrorOnFail)
  {
    e == Flag(true) || (e.Message? && e.message != "")
  }

  /** `maybeParseDate`: the host's `Date` of the text, else the `Date` of
      the epoch milliseconds the text is a well-formed number for; if
      neither is a valid date, a parse error with the default message when
      `errorOnFail` is `true`, with `errorOnFail` itself when it is a
      non-empty string, and no date at all when it is falsy. The host's
      `Date` constructor and number parser are parameters, each answering
      None where the host's result is invalid or undefined. */
  function MaybeParseDate<D>(source: string, dateOfText: string -> Option<D>, wellFormedNumber: string -> Option<int>,
                             dateOfEpoch: int -> Option<D>, errorOnFail: ErrorOnFail): (r: Result<Option<D>>)
    ensures dateOfText(source).Some? ==> r == Ok(dateOfText(source))
    ensures dateOfText(source).None? && wellFormedNumber(source).Some? && dateOfEpoch(wellFormedNumber(source).value).Some? ==>
      r == Ok(dateOfEpoch(wellFormedNumber(source).value))
    ensures r.Ok? && r.value.None? <==> !Parsed(source, dateOfText, wellFormedNumber, dateOfEpoch) && !Truthy(errorOnFail)
    ensures r.Err? <==> !Parsed(source, dateOfText, wellFormedNumber, dateOfEpoch) && Truthy(errorOnFail)
    ensures r.Err? && errorOnFail == Flag(true) ==> r.error == ParseError(WriteInvalidDateMessage(source))
    ensures r.Err? && errorOnFail.Message? ==> r.error == ParseError(errorOnFail.message)
  {
    var stringParsedDate := dateOfText(source);
    if stringParsedDate.Some? then Ok(stringParsedDate)
    else
      var epochMillis := wellFormedNumber(source);
      if epochMillis.Some? && dateOfEpoch(epochMillis.value).Some? then Ok(dateOfEpoch(epochMillis.value))
      else if Truthy(errorOnFail) then
        Err(ParseError(if errorOnFail == Flag(true) then WriteInvalidDateMessage(source) else errorOnFail.message))
      else Ok(None)
  }

  /** Some reading of the text gives a valid date. */
  predicate Parsed<D>(source: string, dateOfText: string -> Option<D>, wellFormedNumber: string -> Option<int>,
                      dateOfEpoch: int -> Option<D>)
  {
    dateOfText(source).Some? || (wellFormedNumber(source).Some? && dateOfEpoch(wellFormedNumber(source).value).Some?)
  }
}
