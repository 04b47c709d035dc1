/** The fail-fast tokenizer: `get_tokens` drives a SourceScanner, and each
    `match_*` routine advances it through one token. Every method here is
    proved to do exactly what the matching function of LexerSpec describes. */
module Lexer {
  import opened JsonTypes
  import opened SourceScanning
  import L = LexerSpec

  /** What `get_next_token` and the `match_*` routines return: a token kind, an
      error message, or a panic (an unwrap on an exhausted character iterator). */
  datatype Scanned = ScanOk(kind: TokenType) | ScanFail(message: L.Message) | ScanPanicked

  /** r is the outcome o of the specification, and the cursor is where o ends. */
  predicate Describes(o: L.MatchOutcome, r: Scanned, cursor: nat)
  {
    match o
    case Matched(k, e) => r == ScanOk(k) && cursor == e
    case Failed(m, e) => r == ScanFail(m) && cursor == e
    case Panicked => r == ScanPanicked
  }

  method MatchSymbol(s: SourceScanner, symbol: char, kind: TokenType) returns (r: Scanned)
    requires s.Valid() && s.cursor < |s.source|
    modifies s
    ensures s.Valid() && Describes(L.MatchSymbol(s.source, old(s.cursor), symbol, kind), r, s.cursor)
    ensures s.tokenStart == old(s.tokenStart) && s.tokens == old(s.tokens) && s.errors == old(s.errors)
  {
    var c := s.Advance();
    if c == symbol {
      r := ScanOk(kind);
    } else {
      r := ScanFail(L.ExpectedSymbol(symbol));
    }
  }

  method MatchKeyword(s: SourceScanner, keyword: string, kind: TokenType) returns (r: Scanned)
    requires s.Valid() && s.cursor < |s.source| && |keyword| > 0
    modifies s
    ensures s.Valid() && Describes(L.MatchKeyword(s.source, old(s.cursor), keyword, kind), r, s.cursor)
    ensures s.tokenStart == old(s.tokenStart) && s.tokens == old(s.tokens) && s.errors == old(s.errors)
  {
    ghost var start := s.cursor;
    var i := 0;
    while i < |keyword|
      invariant 0 <= i <= |keyword| && s.cursor == start + i
      invariant s.Valid() && s.tokenStart == old(s.tokenStart)
      invariant s.tokens == old(s.tokens) && s.errors == old(s.errors)
      invariant L.MatchKeywordFrom(s.source, start, keyword, i, kind)
                == L.MatchKeyword(s.source, start, keyword, kind)
    {
      if s.IsAtEnd() {
        // the character iterator is exhausted: `next().unwrap()` panics
        return ScanPanicked;
      }
      var c := s.Advance();
      if c != keyword[i] {
        return ScanFail(L.ExpectedKeywordChar(keyword[i], i));
      }
      i := i + 1;
    }
    r := ScanOk(kind);
  }

  lemma {:induction false} HexCountIs(src: string, m: nat, n: nat, c: nat)
    requires c <= n
    requires forall k :: m <= k < m + c ==> L.IsHex(PeekAt(src, k))
    requires c < n ==> !L.IsHex(PeekAt(src, m + c))
    ensures L.HexCount(src, m, n) == c
    decreases c
  {
    if c > 0 {
      assert L.IsHex(PeekAt(src, m));
      HexCountIs(src, m + 1, n - 1, c - 1);
    }
  }

  /** The escape branch of `match_string`, entered with the cursor on the
      backslash; last is the new `final_char`. */
  method MatchEscape(s: SourceScanner) returns (ok: bool, last: char)
    requires s.Valid() && s.cursor < |s.source| && s.source[s.cursor] == '\\'
    modifies s
    ensures s.Valid()
    ensures ok <==> L.Escape(s.source, old(s.cursor)).EscapeOk?
    ensures s.cursor == L.Escape(s.source, old(s.cursor)).end
    ensures ok ==> last == s.source[s.cursor - 1]
    ensures s.tokenStart == old(s.tokenStart) && s.tokens == old(s.tokens) && s.errors == old(s.errors)
  {
    ghost var j := s.cursor;
    var _ := s.Advance();
    var e := s.Peek();
    if L.IsSimpleEscape(e) {
      last := s.Advance();
      return true, last;
    } else if e == 'u' {
      last := s.Advance();
      for n := 0 to 4
        invariant s.Valid() && s.cursor == j + 2 + n
        invariant s.tokenStart == old(s.tokenStart)
        invariant s.tokens == old(s.tokens) && s.errors == old(s.errors)
        invariant forall k :: j + 2 <= k < j + 2 + n ==> L.IsHex(PeekAt(s.source, k))
        invariant last == s.source[s.cursor - 1]
      {
        if L.IsHex(s.Peek()) {
          last := s.Advance();
        } else {
          HexCountIs(s.source, j + 2, 4, n);
          return false, last;
        }
      }
      HexCountIs(s.source, j + 2, 4, 4);
      return true, last;
    }
    return false, e;
  }

  method MatchString(s: SourceScanner) returns (r: Scanned)
    requires s.Valid() && s.cursor < |s.source|
    modifies s
    ensures s.Valid() && Describes(L.MatchString(s.source, old(s.cursor)), r, s.cursor)
    ensures s.tokenStart == old(s.tokenStart) && s.tokens == old(s.tokens) && s.errors == old(s.errors)
  {
    ghost var spec := L.MatchString(s.source, s.cursor);
    var c := s.Advance();
    if c != '"' {
      return ScanFail(L.ExpectedOpeningQuote);
    }
    var finalChar := s.Peek();
    while true
      invariant s.Valid() && s.tokenStart == old(s.tokenStart)
      invariant s.tokens == old(s.tokens) && s.errors == old(s.errors)
      invariant L.StringFrom(s.source, s.cursor, finalChar) == spec
      decreases |s.source| - s.cursor
    {
      if s.IsAtEnd() {
        break;
      }
      if s.Peek() == '\n' {
        return ScanFail(L.UnescapedNewline);
      }
      if s.Peek() == '\t' {
        return ScanFail(L.UnescapedTab);
      }
      if s.Peek() == '"' {
        finalChar := s.Advance();
        break;
      } else if s.Peek() == '\\' {
        ghost var j, prev := s.cursor, finalChar;
        var ok;
        ok, finalChar := MatchEscape(s);
        if !ok {
          return ScanFail(L.InvalidEscape);
        }
        assert L.StringFrom(s.source, j, prev) == L.StringFrom(s.source, s.cursor, finalChar);
      } else {
        finalChar := s.Advance();
      }
    }
    if finalChar != '"' {
      return ScanFail(L.UnterminatedString);
    }
    r := ScanOk(String);
  }

  /** One of the `while peek().is_ascii_digit()` loops of `match_number`. */
  method SkipDigits(s: SourceScanner)
    requires s.Valid()
    modifies s
    ensures s.Valid() && s.cursor == L.DigitsEnd(s.source, old(s.cursor))
    ensures s.tokenStart == old(s.tokenStart) && s.tokens == old(s.tokens) && s.errors == old(s.errors)
  {
    ghost var start := s.cursor;
    while L.IsDigit(s.Peek())
      invariant s.Valid() && start <= s.cursor <= |s.source|
      invariant L.DigitsEnd(s.source, s.cursor) == L.DigitsEnd(s.source, start)
      invariant s.tokenStart == old(s.tokenStart) && s.tokens == old(s.tokens) && s.errors == old(s.errors)
      decreases |s.source| - s.cursor
    {
      var _ := s.Advance();
    }
  }

  /** The exponent part of `match_number`, from the cursor on. */
  method MatchExponent(s: SourceScanner) returns (r: Scanned)
    requires s.Valid()
    modifies s
    ensures s.Valid() && Describes(L.ExponentOutcome(s.source, old(s.cursor)), r, s.cursor)
    ensures s.tokenStart == old(s.tokenStart) && s.tokens == old(s.tokens) && s.errors == old(s.errors)
  {
    ghost var j := s.cursor;
    var c: char;
    if s.Peek() == 'e' || s.Peek() == 'E' {
      c := s.Advance();
      if s.Peek() == '+' || s.Peek() == '-' {
        c := s.Advance();
      }
      assert s.cursor == L.ExponentSignEnd(s.source, j);
      if !L.IsDigit(s.Peek()) {
        return ScanFail(L.ExpectedExponentDigit);
      }
      SkipDigits(s);
    }
    r := ScanOk(Number);
  }

  /** The sign and integer part of `match_number`; false on a leading zero. */
  method MatchInteger(s: SourceScanner) returns (ok: bool)
    requires s.Valid() && s.cursor < |s.source|
    modifies s
    ensures s.Valid()
    ensures ok <==> !L.LeadingZero(s.source, L.SignEnd(s.source, old(s.cursor)))
    ensures !ok ==> s.cursor == L.SignEnd(s.source, old(s.cursor)) + 1
    ensures ok ==> s.cursor == L.IntegerEnd(s.source, L.SignEnd(s.source, old(s.cursor)))
    ensures s.tokenStart == old(s.tokenStart) && s.tokens == old(s.tokens) && s.errors == old(s.errors)
  {
    var c: char;
    if s.Peek() == '-' {
      c := s.Advance();
    }
    if s.Peek() == '0' {
      c := s.Advance();
      if L.IsDigit(s.Peek()) {
        return false;
      }
    } else {
      SkipDigits(s);
    }
    ok := true;
  }

  method MatchNumber(s: SourceScanner) returns (r: Scanned)
    requires s.Valid() && s.cursor < |s.source|
    requires L.IsDigit(s.source[s.cursor]) || s.source[s.cursor] == '-'
    modifies s
    ensures s.Valid() && Describes(L.MatchNumber(s.source, old(s.cursor)), r, s.cursor)
    ensures s.tokenStart == old(s.tokenStart) && s.tokens == old(s.tokens) && s.errors == old(s.errors)
  {
    ghost var src, i := s.source, s.cursor;
    var ok := MatchInteger(s);
    if !ok {
      return ScanFail(L.LeadingZeros);
    }
    ghost var j1 := s.cursor;
    if s.Peek() == '.' {
      var _ := s.Advance();
      SkipDigits(s);
    }
    assert s.cursor == L.FractionEnd(src, j1);
    assert L.MatchNumber(src, i) == L.ExponentOutcome(src, s.cursor);
    r := MatchExponent(s);
  }

  method GetNextToken(s: SourceScanner) returns (r: Scanned)
    requires s.Valid() && s.cursor < |s.source|
    modifies s
    ensures s.Valid() && Describes(L.NextToken(s.source, old(s.cursor)), r, s.cursor)
    ensures s.tokenStart == old(s.tokenStart) && s.tokens == old(s.tokens) && s.errors == old(s.errors)
  {
    match s.Peek()
    case '{' => r := MatchSymbol(s, '{', LeftBrace);
    case '}' => r := MatchSymbol(s, '}', RightBrace);
    case '[' => r := MatchSymbol(s, '[', LeftBracket);
    case ']' => r := MatchSymbol(s, ']', RightBracket);
    case ':' => r := MatchSymbol(s, ':', Colon);
    case ',' => r := MatchSymbol(s, ',', Comma);
    case 't' => r := MatchKeyword(s, "true", Boolean);
    case 'f' => r := MatchKeyword(s, "false", Boolean);
    case 'n' => r := MatchKeyword(s, "null", Null);
    case '"' => r := MatchString(s);
    case _ =>
      if L.IsDigit(s.Peek()) || s.Peek() == '-' {
        r := MatchNumber(s);
      } else {
        var _ := s.Advance();
        r := ScanFail(L.UnexpectedCharacter);
      }
  }

  /** Skipping whitespace once more changes nothing, so lexing may start
      before or after a run of whitespace. */
  lemma {:induction false} LexFromSkips(src: string, i: nat, acc: seq<Token>)
    requires i <= |src|
    ensures L.LexFrom(src, i, acc) == L.LexFrom(src, SkipWs(src, i), acc)
  {
    var p := SkipWs(src, i);
    assert SkipWs(src, p) == p;
  }

  /** `get_tokens`: the tokens of the whole text, or the first error. */
  method GetTokens(source: string) returns (r: L.LexResult)
    ensures r == L.Lex(source)
  {
    var scanner := new SourceScanner(source);
    LexFromSkips(source, 0, []);
    scanner.SkipWhitespace();
    assert SkipWs(source, scanner.cursor) == scanner.cursor;
    while !scanner.IsAtEnd()
      invariant scanner.Valid() && scanner.source == source
      invariant scanner.tokenStart == scanner.cursor == SkipWs(source, scanner.cursor)
      invariant L.LexFrom(source, scanner.cursor, scanner.tokens) == L.Lex(source)
      decreases |source| - scanner.cursor
    {
      ghost var p := scanner.cursor;
      var result := GetNextToken(scanner);
      match result {
        case ScanOk(k) =>
          scanner.AddToken(k);
        case ScanFail(m) =>
          var e := scanner.ReportError(L.MessageText(m));
          return L.LexErr(e);
        case ScanPanicked =>
          return L.LexPanic;
      }
      LexFromSkips(source, scanner.cursor, scanner.tokens);
      scanner.SkipWhitespace();
      assert SkipWs(source, scanner.cursor) == scanner.cursor;
    }
    r := L.LexOk(scanner.tokens);
  }
}
