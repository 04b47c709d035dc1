/** A character cursor over the source text with line bookkeeping. The text is
    taken to be ASCII, so a character offset is also a byte offset. */
module SourceScanning {
  import opened JsonTypes

  /** The 1-based line number after consuming s[..i]. */
  function LineAt(s: string, i: nat): (l: nat)
    requires i <= |s|
    ensures l >= 1
  {
    if i == 0 then 1 else LineAt(s, i - 1) + (if s[i - 1] == '\n' then 1 else 0)
  }

  /** The offset just past the last newline in s[..i], or 0 if there is none. */
  function LineStartAt(s: string, i: nat): (ls: nat)
    requires i <= |s|
    ensures ls <= i
    ensures ls == 0 || s[ls - 1] == '\n'
    ensures forall k :: ls <= k < i ==> s[k] != '\n'
  {
    if i == 0 then 0 else if s[i - 1] == '\n' then i else LineStartAt(s, i - 1)
  }

  /** The characters `skip_whitespace` consumes. */
  predicate IsWhitespace(c: char)
  {
    c == ' ' || c == '\r' || c == '\t' || c == '\n'
  }

  /** What `peek` sees at offset i: the character there, or NUL past the end. */
  function PeekAt(s: string, i: nat): (c: char)
    ensures i < |s| ==> c == s[i]
    ensures i >= |s| ==> c == '\0'
  {
    if i >= |s| then '\0' else s[i]
  }

  /** The first offset at or after i that does not hold a whitespace character. */
  function SkipWs(s: string, i: nat): (j: nat)
    requires i <= |s|
    ensures i <= j <= |s|
    ensures forall k :: i <= k < j ==> IsWhitespace(s[k])
    ensures j == |s| || !IsWhitespace(s[j])
    decreases |s| - i
  {
    if i < |s| && IsWhitespace(s[i]) then SkipWs(s, i + 1) else i
  }

  class SourceScanner {
    const source: string
    var tokenStart: nat
    var cursor: nat
    var line: nat
    var lineStart: nat
    var tokens: seq<Token>
    var errors: seq<ScanError>

    /** The cursor stays within the text, the current token starts at or before
        it, and line and lineStart are those of the text consumed so far. */
    ghost predicate Valid()
      reads this
    {
      tokenStart <= cursor <= |source| &&
      line == LineAt(source, cursor) && lineStart == LineStartAt(source, cursor)
    }

    constructor (text: string)
      ensures Valid()
      ensures source == text && cursor == 0 && tokenStart == 0
      ensures line == 1 && lineStart == 0 && tokens == [] && errors == []
    {
      source := text;
      tokenStart := 0;
      cursor := 0;
      line := 1;
      lineStart := 0;
      tokens := [];
      errors := [];
    }

    predicate IsAtEnd()
      reads this
      ensures IsAtEnd() <==> cursor >= |source|
    {
      cursor >= |source|
    }

    /** The character under the cursor, without moving it; NUL at the end. */
    function Peek(): (c: char)
      reads this
      ensures cursor >= |source| ==> c == '\0'
      ensures cursor < |source| ==> c == source[cursor]
    {
      if IsAtEnd() then '\0' else source[cursor]
    }

    /** Consumes one character. Calling it at the end is a panic in the source,
        so callers must not. */
    method Advance() returns (c: char)
      requires Valid() && cursor < |source|
      modifies this
      ensures Valid()
      ensures cursor == old(cursor) + 1 && c == source[old(cursor)]
      ensures c == '\n' ==> line == old(line) + 1 && lineStart == cursor
      ensures c != '\n' ==> line == old(line) && lineStart == old(lineStart)
      ensures tokenStart == old(tokenStart) && tokens == old(tokens) && errors == old(errors)
    {
      cursor := cursor + 1;
      c := source[cursor - 1];
      if c == '\n' {
        line := line + 1;
        lineStart := cursor;
      }
    }

    /** Consumes a run of whitespace and starts the next lexeme there. */
    method SkipWhitespace()
      requires Valid()
      modifies this
      ensures Valid()
      ensures cursor == SkipWs(source, old(cursor)) && tokenStart == cursor
      ensures tokens == old(tokens) && errors == old(errors)
    {
      while Peek() == ' ' || Peek() == '\r' || Peek() == '\t' || Peek() == '\n'
        invariant Valid() && old(cursor) <= cursor <= |source|
        invariant SkipWs(source, old(cursor)) == SkipWs(source, cursor)
        invariant tokens == old(tokens) && errors == old(errors)
        decreases |source| - cursor
      {
        var _ := Advance();
      }
      tokenStart := cursor;
    }

    /** Appends the token spanning source[tokenStart..cursor]. */
    method AddToken(tokenType: TokenType)
      requires Valid()
      modifies this`tokens
      ensures tokens == old(tokens) +
        [Token(tokenType, source[tokenStart..cursor], line, tokenStart, cursor)]
    {
      var lexeme := source[tokenStart..cursor];
      tokens := tokens + [Token(tokenType, lexeme, line, tokenStart, cursor)];
    }

    /** Records and returns the error spanning source[tokenStart..cursor]. */
    method ReportError(message: string) returns (e: ScanError)
      requires Valid()
      modifies this`errors
      ensures e == ScanError(line, lineStart, source[tokenStart..cursor],
                             tokenStart, cursor, message)
      ensures errors == old(errors) + [e]
    {
      var lexeme := source[tokenStart..cursor];
      e := ScanError(line, lineStart, lexeme, tokenStart, cursor, message);
      errors := errors + [e];
    }
  }

  /** The unit test on "ab\ncd": the line counter moves past each newline. */
  lemma AdvanceTracksLines()
    ensures LineAt("ab\ncd", 2) == 1 && LineAt("ab\ncd", 3) == 2 && LineAt("ab\ncd", 5) == 2
    ensures LineStartAt("ab\ncd", 2) == 0 && LineStartAt("ab\ncd", 5) == 3
  {
  }
}
