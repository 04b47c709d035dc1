/** The lexer's behaviour as functions of the source text and an offset. Each
    `match_*` routine is described by the outcome it reaches and the cursor
    offset it leaves behind. */
module LexerSpec {
  import opened JsonTypes
  import opened SourceScanning

  predicate IsDigit(c: char)
  {
    '0' <= c <= '9'
  }

  predicate IsHex(c: char)
  {
    IsDigit(c) || ('a' <= c <= 'f') || ('A' <= c <= 'F')
  }

  /** The escape letters accepted after a backslash, `u` aside. */
  predicate IsSimpleEscape(c: char)
  {
    c == '\\' || c == '/' || c == '"' || c == 'b' || c == 'f' || c == 'n' || c == 'r' || c == 't'
  }

  /** The error messages of the `match_*` routines, one constructor per message
      text; MessageText renders each as the source formats it. */
  datatype Message =
    | ExpectedSymbol(symbol: char)
    | ExpectedKeywordChar(expected: char, index: nat)
    | ExpectedOpeningQuote
    | UnescapedNewline
    | UnescapedTab
    | InvalidEscape
    | UnterminatedString
    | LeadingZeros
    | ExpectedExponentDigit
    | UnexpectedCharacter

  function MessageText(m: Message): string
  {
    match m
    case ExpectedSymbol(c) => "Expected '" + [c] + "' after '" + [c] + "'"
    case ExpectedKeywordChar(c, j) => "Expected '" + [c] + "' at index " + NatToString(j) + " of keyword"
    case ExpectedOpeningQuote => "Expected '\"' at start of string"
    case UnescapedNewline => "Unescaped newline in string"
    case UnescapedTab => "Unescaped tab in string"
    case InvalidEscape => "Invalid escape character"
    case UnterminatedString => "Unterminated string"
    case LeadingZeros => "Invalid number - no leading zeros"
    case ExpectedExponentDigit => "Expected digit after exponent"
    case UnexpectedCharacter => "Unexpected character"
  }

  /** What one `match_*` call returns, with the cursor it leaves behind. */
  datatype MatchOutcome =
    | Matched(kind: TokenType, end: nat)
    | Failed(message: Message, end: nat)
    | Panicked

  /** The outcome consumed at least one character and stayed within the text. */
  predicate Progress(o: MatchOutcome, i: nat, n: nat)
  {
    match o
    case Matched(_, e) => i < e <= n
    case Failed(_, e) => i < e <= n
    case Panicked => true
  }

  function MatchSymbol(src: string, i: nat, symbol: char, kind: TokenType): (o: MatchOutcome)
    requires i < |src|
    ensures Progress(o, i, |src|)
  {
    if src[i] == symbol then Matched(kind, i + 1)
    else Failed(ExpectedSymbol(symbol), i + 1)
  }

  /** Compares kw[j..] with the text from i + j on. Advancing past the end of the
      text unwraps an exhausted character iterator: a panic. */
  function MatchKeywordFrom(src: string, i: nat, kw: string, j: nat, kind: TokenType): (o: MatchOutcome)
    requires j <= |kw| && i + j <= |src|
    ensures o.Matched? ==> o.end == i + |kw| <= |src|
    ensures o.Failed? ==> i + j < o.end <= |src|
    decreases |kw| - j
  {
    if j == |kw| then Matched(kind, i + |kw|)
    else if i + j >= |src| then Panicked
    else if src[i + j] != kw[j] then
      Failed(ExpectedKeywordChar(kw[j], j), i + j + 1)
    else MatchKeywordFrom(src, i, kw, j + 1, kind)
  }

  function MatchKeyword(src: string, i: nat, kw: string, kind: TokenType): (o: MatchOutcome)
    requires i < |src| && |kw| > 0
    ensures Progress(o, i, |src|)
  {
    MatchKeywordFrom(src, i, kw, 0, kind)
  }

  /** The number of hex digits, at most n, found from offset m on. */
  function HexCount(src: string, m: nat, n: nat): (c: nat)
    ensures c <= n
    ensures forall k :: m <= k < m + c ==> IsHex(PeekAt(src, k))
    ensures c < n ==> !IsHex(PeekAt(src, m + c))
    decreases n
  {
    if n == 0 || !IsHex(PeekAt(src, m)) then 0 else 1 + HexCount(src, m + 1, n - 1)
  }

  /** How an escape sequence ends: after its last character, or with the
      cursor where the invalid character was found. */
  datatype EscapeOutcome = EscapeOk(end: nat) | EscapeBad(end: nat)

  /** The escape sequence whose backslash is at offset j: a simple escape
      letter, or `u` and four hex digits. */
  function Escape(src: string, j: nat): (o: EscapeOutcome)
    requires j < |src| && src[j] == '\\'
    ensures o.EscapeOk? ==> j + 2 <= o.end <= |src|
    ensures o.EscapeBad? ==> j < o.end <= |src|
  {
    var e := PeekAt(src, j + 1);
    if IsSimpleEscape(e) then EscapeOk(j + 2)
    else if e == 'u' then
      var h := HexCount(src, j + 2, 4);
      if h < 4 then EscapeBad(j + 2 + h) else EscapeOk(j + 6)
    else EscapeBad(j + 1)
  }

  /** The body loop of `match_string`: j is the cursor and last the most
      recently consumed character (`final_char`). */
  function StringFrom(src: string, j: nat, last: char): (o: MatchOutcome)
    requires j <= |src|
    ensures o.Matched? ==> o.kind == String && j <= o.end <= |src|
    ensures o.Failed? ==> j <= o.end <= |src|
    ensures !o.Panicked?
    decreases |src| - j
  {
    if j >= |src| then
      (if last == '"' then Matched(String, j) else Failed(UnterminatedString, j))
    else if src[j] == '\n' then Failed(UnescapedNewline, j)
    else if src[j] == '\t' then Failed(UnescapedTab, j)
    else if src[j] == '"' then Matched(String, j + 1)
    else if src[j] == '\\' then
      match Escape(src, j)
      case EscapeOk(e) => StringFrom(src, e, src[e - 1])
      case EscapeBad(e) => Failed(InvalidEscape, e)
    else StringFrom(src, j + 1, src[j])
  }

  function MatchString(src: string, i: nat): (o: MatchOutcome)
    requires i < |src|
    ensures Progress(o, i, |src|)
  {
    if src[i] != '"' then Failed(ExpectedOpeningQuote, i + 1)
    else StringFrom(src, i + 1, PeekAt(src, i + 1))
  }

  /** The first offset at or after j that does not hold a digit. */
  function DigitsEnd(src: string, j: nat): (k: nat)
    requires j <= |src|
    ensures j <= k <= |src|
    ensures forall m :: j <= m < k ==> IsDigit(src[m])
    ensures !IsDigit(PeekAt(src, k))
    decreases |src| - j
  {
    if j < |src| && IsDigit(src[j]) then DigitsEnd(src, j + 1) else j
  }

  /** The offset after an optional leading minus sign. */
  function SignEnd(src: string, i: nat): (j: nat)
    requires i < |src|
    ensures i <= j <= |src| && (j == i + 1 <==> src[i] == '-')
  {
    if PeekAt(src, i) == '-' then i + 1 else i
  }

  /** A `0` that starts the integer part is followed directly by a digit. */
  predicate LeadingZero(src: string, j: nat)
  {
    PeekAt(src, j) == '0' && IsDigit(PeekAt(src, j + 1))
  }

  /** The offset after the integer part: a single `0`, or a possibly empty
      run of digits. */
  function IntegerEnd(src: string, j: nat): (k: nat)
    requires j <= |src|
    ensures j <= k <= |src|
  {
    if PeekAt(src, j) == '0' then j + 1 else DigitsEnd(src, j)
  }

  /** The offset after an optional fraction: a dot and a possibly empty run of
      digits. */
  function FractionEnd(src: string, j: nat): (k: nat)
    requires j <= |src|
    ensures j <= k <= |src|
  {
    if PeekAt(src, j) == '.' then DigitsEnd(src, j + 1) else j
  }

  /** The offset after the exponent marker and its optional sign. */
  function ExponentSignEnd(src: string, j: nat): (k: nat)
    requires j < |src|
    ensures j < k <= |src|
  {
    if PeekAt(src, j + 1) == '+' || PeekAt(src, j + 1) == '-' then j + 2 else j + 1
  }

  /** The optional exponent, from offset j on: the marker, an optional sign and
      at least one digit. */
  function ExponentOutcome(src: string, j: nat): (o: MatchOutcome)
    requires j <= |src|
    ensures o.Matched? ==> o.kind == Number && j <= o.end <= |src|
    ensures o.Failed? ==> j < o.end <= |src|
    ensures !o.Panicked?
  {
    if PeekAt(src, j) == 'e' || PeekAt(src, j) == 'E' then
      var k := ExponentSignEnd(src, j);
      if !IsDigit(PeekAt(src, k)) then Failed(ExpectedExponentDigit, k)
      else Matched(Number, DigitsEnd(src, k))
    else Matched(Number, j)
  }

  /** `match_number`: optional minus, integer part, optional fraction, optional
      exponent, each decided by a look at the next character. */
  function MatchNumber(src: string, i: nat): (o: MatchOutcome)
    requires i < |src|
    requires IsDigit(src[i]) || src[i] == '-'
    ensures Progress(o, i, |src|)
    ensures o.Matched? ==> o.kind == Number
    ensures !o.Panicked?
  {
    var j0 := SignEnd(src, i);
    if LeadingZero(src, j0) then Failed(LeadingZeros, j0 + 1)
    else ExponentOutcome(src, FractionEnd(src, IntegerEnd(src, j0)))
  }

  /** `get_next_token`: dispatch on the character under the cursor. */
  function NextToken(src: string, i: nat): (o: MatchOutcome)
    requires i < |src|
    ensures Progress(o, i, |src|)
  {
    match src[i]
    case '{' => MatchSymbol(src, i, '{', LeftBrace)
    case '}' => MatchSymbol(src, i, '}', RightBrace)
    case '[' => MatchSymbol(src, i, '[', LeftBracket)
    case ']' => MatchSymbol(src, i, ']', RightBracket)
    case ':' => MatchSymbol(src, i, ':', Colon)
    case ',' => MatchSymbol(src, i, ',', Comma)
    case 't' => MatchKeyword(src, i, "true", Boolean)
    case 'f' => MatchKeyword(src, i, "false", Boolean)
    case 'n' => MatchKeyword(src, i, "null", Null)
    case '"' => MatchString(src, i)
    case _ =>
      if IsDigit(src[i]) || src[i] == '-' then MatchNumber(src, i)
      else Failed(UnexpectedCharacter, i + 1)
  }

  /** The result of `get_tokens`: the tokens, the first scan error, or a panic. */
  datatype LexResult =
    | LexOk(tokens: seq<Token>)
    | LexErr(error: ScanError)
    | LexPanic

  /** The token `add_token` records for source[p..e]. */
  function MakeToken(src: string, p: nat, e: nat, kind: TokenType): Token
    requires p <= e <= |src|
  {
    Token(kind, src[p..e], LineAt(src, e), p, e)
  }

  /** The error `report_error` records for source[p..e]. */
  function MakeError(src: string, p: nat, e: nat, message: Message): ScanError
    requires p <= e <= |src|
  {
    ScanError(LineAt(src, e), LineStartAt(src, e), src[p..e], p, e, MessageText(message))
  }

  /** The `get_tokens` loop from offset i, with the tokens found so far. */
  function LexFrom(src: string, i: nat, acc: seq<Token>): LexResult
    requires i <= |src|
    decreases |src| - i
  {
    var p := SkipWs(src, i);
    if p == |src| then LexOk(acc)
    else
      match NextToken(src, p)
      case Matched(k, e) => LexFrom(src, e, acc + [MakeToken(src, p, e, k)])
      case Failed(m, e) => LexErr(MakeError(src, p, e, m))
      case Panicked => LexPanic
  }

  function Lex(src: string): LexResult
  {
    LexFrom(src, 0, [])
  }
}
