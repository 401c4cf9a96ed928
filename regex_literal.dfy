/** The regex node of the src/nodes snapshot (src/nodes/primitive/regex.ts):
    a serialized regex literal `/<source>/<flags>`, the source read back from
    it, and the emitted test and description. */
module RegexLiteral {
  import opened JsText

  /** `serializeRegex`: the host writes a regex as its source between slashes,
      followed by its flags (which never hold a slash). */
  function SerializeRegex(source: string, flags: string): (literal: string)
    requires '/' !in flags
    ensures |literal| == |source| + |flags| + 2 && literal[0] == '/'
  {
    "/" + source + "/" + flags
  }

  /** `sourceFromRegexLiteral`: the text after the first character, up to the
      last "/". */
  function SourceFromRegexLiteral(literal: string): (source: string)
  {
    JsSlice(literal, 1, LastIndexOf(literal, '/'))
  }

  /** The last slash of a text that ends with a slash and slash-free flags is
      that slash. */
  lemma {:induction false} LastSlashBeforeFlags(body: string, flags: string)
    requires '/' !in flags
    ensures LastIndexOf(body + "/" + flags, '/') == |body|
  {
    var s := body + "/" + flags;
    if |flags| > 0 {
      var shorter := flags[..|flags| - 1];
      assert s[..|s| - 1] == body + "/" + shorter;
      LastSlashBeforeFlags(body, shorter);
    }
  }

  /** Reading the source back from a serialized regex gives the source, even
      when the source itself holds slashes. */
  lemma SourceRoundTrip(source: string, flags: string)
    requires '/' !in flags
    ensures SourceFromRegexLiteral(SerializeRegex(source, flags)) == source
  {
    var literal := SerializeRegex(source, flags);
    assert literal == ("/" + source) + "/" + flags;
    LastSlashBeforeFlags("/" + source, flags);
    assert literal[1..|source| + 1] == source;
  }

  /** "/a/b/gi" reads back as "a/b". */
  lemma SlashInSourceSurvives()
    ensures SourceFromRegexLiteral("/a/b/gi") == "a/b"
  {
    SourceRoundTrip("a/b", "gi");
    assert SerializeRegex("a/b", "gi") == "/a/b/gi";
  }

  /** `compile`: the literal's `test` applied to the input. */
  function Compile(rule: string, input: string): (s: string)
    ensures |s| == |rule| + |input| + 7
    ensures s[..|rule|] == rule
  {
    rule + ".test(" + input + ")"
  }

  /** `describe`: "matched by " and the literal. */
  function Describe(rule: string): (s: string)
    ensures |s| == |rule| + 11
    ensures s[11..] == rule
  {
    "matched by " + rule
  }

  /** Over the same input, the emitted test and the description each tell
      the literal apart. */
  lemma TextsNameTheRule(rule1: string, rule2: string, input: string)
    ensures Compile(rule1, input) == Compile(rule2, input) ==> rule1 == rule2
    ensures Describe(rule1) == Describe(rule2) ==> rule1 == rule2
  {
    if Compile(rule1, input) == Compile(rule2, input) {
      assert |rule1| == |rule2|;
      assert rule1 == Compile(rule1, input)[..|rule1|];
    }
  }
}
