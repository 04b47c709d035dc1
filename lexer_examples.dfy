/** The lexer's unit tests, and the lexer's quirks, as facts about the
    specification functions. */
module LexerExamples {
  import opened JsonTypes
  import opened SourceScanning
  import opened LexerSpec
  import opened LexerGrammar

  /** `["\""]` lexes to a bracket, one string holding an escaped quote, and a
      bracket. */
  lemma QuotedQuoteTokens()
    ensures Lex("[\"\\\"\"]") == LexOk([
      Token(LeftBracket, "[", 1, 0, 1),
      Token(String, "\"\\\"\"", 1, 1, 5),
      Token(RightBracket, "]", 1, 5, 6)])
  {
    var src := "[\"\\\"\"]";
    assert NextToken(src, 0) == Matched(LeftBracket, 1);
    assert Escape(src, 2) == EscapeOk(4);
    assert StringFrom(src, 2, src[2]) == Matched(String, 5);
    assert NextToken(src, 1) == Matched(String, 5);
    assert NextToken(src, 5) == Matched(RightBracket, 6);
    assert src[0..1] == "[" && src[1..5] == "\"\\\"\"" && src[5..6] == "]";
  }

  /** The single-token tests of `get_next_token`. */
  lemma NextTokenTests()
    ensures NextToken("{", 0) == Matched(LeftBrace, 1)
    ensures NextToken("true", 0) == Matched(Boolean, 4)
    ensures NextToken("null", 0) == Matched(Null, 4)
    ensures NextToken("123", 0) == Matched(Number, 3)
    ensures NextToken("unquoted string", 0) == Failed(UnexpectedCharacter, 1)
    ensures NextToken("0e", 0) == Failed(ExpectedExponentDigit, 2)
    ensures NextToken("0123", 0) == Failed(LeadingZeros, 1)
  {
    assert DigitsEnd("123", 0) == 3;
  }

  /** A stretch of plain characters is read one at a time. */
  lemma {:induction false} PlainStretch(src: string, j: nat, k: nat, last: char)
    requires j < k <= |src|
    requires forall i :: j <= i < k ==> IsPlain(src[i])
    ensures StringFrom(src, j, last) == StringFrom(src, k, src[k - 1])
    decreases k - j
  {
    if j + 1 < k {
      PlainStretch(src, j + 1, k, src[j]);
    }
  }

  /** The string tests of `get_next_token`: a terminated string, one
      holding an escaped quote, and one missing its closing quote. */
  lemma TerminatedTest()
    ensures NextToken("\"test string\"", 0) == Matched(String, 13)
  {
    var a := "\"test string\"";
    PlainStretch(a, 1, 12, a[1]);
    assert StringFrom(a, 12, a[11]) == Matched(String, 13);
  }

  lemma EscapedQuoteTest()
    ensures NextToken("\"\\\"\"", 0) == Matched(String, 4)
  {
    var b := "\"\\\"\"";
    assert Escape(b, 1) == EscapeOk(3);
    assert StringFrom(b, 3, b[2]) == Matched(String, 4);
    assert StringFrom(b, 1, b[1]) == Matched(String, 4);
  }

  lemma UnterminatedTest()
    ensures NextToken("\"test string", 0) == Failed(UnterminatedString, 12)
  {
    var c := "\"test string";
    PlainStretch(c, 1, 12, c[1]);
    assert StringFrom(c, 12, c[11]) == Failed(UnterminatedString, 12);
  }

  /** An escaped quote at the very end of the text is taken for the closing
      quote: `"\"` is a complete string token. */
  lemma EscapedQuoteAtEndIsAString()
    ensures NextToken("\"\\\"", 0) == Matched(String, 3)
    ensures Lex("\"\\\"") == LexOk([Token(String, "\"\\\"", 1, 0, 3)])
  {
    var s := "\"\\\"";
    assert Escape(s, 1) == EscapeOk(3);
    assert StringFrom(s, 1, s[1]) == Matched(String, 3);
    assert s[0..3] == s;
  }

  /** A raw newline, a raw tab and an unknown escape inside a string are errors. */
  lemma StringRejections()
    ensures NextToken("\"a\nb\"", 0) == Failed(UnescapedNewline, 2)
    ensures NextToken("\"a\tb\"", 0) == Failed(UnescapedTab, 2)
    ensures NextToken("\"\\x\"", 0) == Failed(InvalidEscape, 2)
    ensures NextToken("\"\\u12g4\"", 0) == Failed(InvalidEscape, 5)
  {
    var s := "\"\\u12g4\"";
    assert HexCount(s, 3, 4) == 2;
  }

  /** The lax spots of the number grammar: a fraction without digits and a
      lone minus are numbers; so is a minus followed by a fraction. */
  lemma LaxNumbers()
    ensures NextToken("1.", 0) == Matched(Number, 2)
    ensures NextToken("-", 0) == Matched(Number, 1)
    ensures NextToken("-.5", 0) == Matched(Number, 3)
  {
    assert DigitsEnd("1.", 0) == 1;
    assert DigitsEnd("-.5", 2) == 3;
  }

  /** Exponents with and without a sign. */
  lemma ExponentNumbers()
    ensures NextToken("1e10", 0) == Matched(Number, 4)
    ensures NextToken("1E-10", 0) == Matched(Number, 5)
    ensures NextToken("1.5e+3", 0) == Matched(Number, 6)
  {
    assert DigitsEnd("1e10", 0) == 1 && DigitsEnd("1e10", 2) == 4;
    assert DigitsEnd("1E-10", 0) == 1 && DigitsEnd("1E-10", 3) == 5;
    assert DigitsEnd("1.5e+3", 0) == 1 && DigitsEnd("1.5e+3", 2) == 3 && DigitsEnd("1.5e+3", 5) == 6;
  }

  /** A keyword cut short by the end of the text makes `match_keyword` advance
      past the end: the scan panics. */
  lemma TruncatedKeywordPanics()
    ensures Lex("tru") == LexPanic
    ensures Lex("[nul") == LexPanic
  {
    var s := "tru";
    assert SkipWs(s, 0) == 0;
    assert MatchKeywordFrom(s, 0, "true", 3, Boolean) == Panicked;
    assert NextToken(s, 0) == Panicked;
    var t := "[nul";
    assert SkipWs(t, 0) == 0 && SkipWs(t, 1) == 1;
    assert NextToken(t, 0) == Matched(LeftBracket, 1);
    assert MatchKeywordFrom(t, 1, "null", 3, Null) == Panicked;
    assert NextToken(t, 1) == Panicked;
  }

  /** A keyword mismatch on a newline consumes it, so the reported line starts
      after the error's own start: the column arithmetic of the error display
      would underflow. */
  lemma KeywordErrorPastNewline()
    ensures Lex("t\n") == LexErr(ScanError(2, 2, "t\n", 0, 2, MessageText(ExpectedKeywordChar('r', 1))))
    ensures Lex("t\n").error.lineStart > Lex("t\n").error.positionStart
  {
    var s := "t\n";
    assert NextToken(s, 0) == Failed(ExpectedKeywordChar('r', 1), 2);
    assert LineAt(s, 2) == 2 && LineStartAt(s, 2) == 2;
    assert s[0..2] == s;
  }
}
