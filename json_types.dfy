/** Shared types of the JSON validator: token kinds, tokens, scan errors and
    their textual rendering. */
module JsonTypes {

  /** The closed set of token kinds the lexer produces. */
  datatype TokenType =
    | LeftBrace | RightBrace | LeftBracket | RightBracket | Colon | Comma
    | String | Number | Boolean | Null

  /** A value-bearing token kind, as opposed to punctuation. */
  predicate IsLiteral(t: TokenType)
    ensures IsLiteral(t) <==>
      !(t == LeftBrace || t == RightBrace || t == LeftBracket ||
        t == RightBracket || t == Colon || t == Comma)
  {
    match t
    case String => true
    case Number => true
    case Boolean => true
    case Null => true
    case _ => false
  }

  /** A classified token; positions are offsets into the source text. */
  datatype Token = Token(tokenType: TokenType, lexeme: string, line: nat,
                         positionStart: nat, positionEnd: nat)

  /** The single lexical error that ends a scan. */
  datatype ScanError = ScanError(line: nat, lineStart: nat, lexeme: string,
                                 positionStart: nat, positionEnd: nat,
                                 message: string)

  // ---------------------------------------------------------------------
  // Decimal rendering of counters, used by the Display implementations.

  predicate IsDigitChar(c: char) { '0' <= c <= '9' }

  function DigitChar(d: nat): (c: char)
    requires d < 10
    ensures IsDigitChar(c) && c as int - '0' as int == d
  {
    (d + '0' as int) as char
  }

  /** The decimal digits of n, most significant first, without leading zeros. */
  function NatToString(n: nat): (s: string)
    ensures |s| > 0
    ensures forall k :: 0 <= k < |s| ==> IsDigitChar(s[k])
  {
    if n < 10 then [DigitChar(n)] else NatToString(n / 10) + [DigitChar(n % 10)]
  }

  function DigitOf(c: char): nat
    requires IsDigitChar(c)
  {
    c as int - '0' as int
  }

  /** The number denoted by an all-digit string (0 for the empty string). */
  function DigitsValue(s: string): nat
    requires forall k :: 0 <= k < |s| ==> IsDigitChar(s[k])
  {
    if s == [] then 0 else DigitsValue(s[..|s| - 1]) * 10 + DigitOf(s[|s| - 1])
  }

  /** Length of the longest all-digit prefix of s. */
  function DigitRun(s: string): (k: nat)
    ensures k <= |s|
    ensures forall j :: 0 <= j < k ==> IsDigitChar(s[j])
    ensures k == |s| || !IsDigitChar(s[k])
  {
    if s == [] || !IsDigitChar(s[0]) then 0 else 1 + DigitRun(s[1..])
  }

  /** Reads a leading decimal number and returns it with the rest of the text. */
  function ReadNat(s: string): (string, nat)
  {
    var k := DigitRun(s);
    (s[k..], DigitsValue(s[..k]))
  }

  lemma {:induction false} DigitsValueOfNatToString(n: nat)
    ensures DigitsValue(NatToString(n)) == n
  {
    if n >= 10 {
      var s := NatToString(n);
      assert s[..|s| - 1] == NatToString(n / 10);
      DigitsValueOfNatToString(n / 10);
    }
  }

  lemma {:induction false} DigitRunOfDigitsThen(d: string, rest: string)
    requires forall k :: 0 <= k < |d| ==> IsDigitChar(d[k])
    requires rest == [] || !IsDigitChar(rest[0])
    ensures DigitRun(d + rest) == |d|
  {
    if d != [] {
      assert (d + rest)[1..] == d[1..] + rest;
      DigitRunOfDigitsThen(d[1..], rest);
    } else {
      assert d + rest == rest;
    }
  }

  /** Reading back a rendered number recovers it, whatever non-digit text follows. */
  lemma ReadNatRoundTrip(n: nat, rest: string)
    requires rest == [] || !IsDigitChar(rest[0])
    ensures ReadNat(NatToString(n) + rest) == (rest, n)
  {
    var d := NatToString(n);
    DigitRunOfDigitsThen(d, rest);
    assert (d + rest)[..|d|] == d;
    assert (d + rest)[|d|..] == rest;
    DigitsValueOfNatToString(n);
  }

  // ---------------------------------------------------------------------
  // Display of tokens and scan errors.

  /** `[line L, position S..E] TYPE "lexeme"` for a token. */
  function TokenTypeName(t: TokenType): string
  {
    match t
    case LeftBrace => "LeftBrace"
    case RightBrace => "RightBrace"
    case LeftBracket => "LeftBracket"
    case RightBracket => "RightBracket"
    case Colon => "Colon"
    case Comma => "Comma"
    case String => "String"
    case Number => "Number"
    case Boolean => "Boolean"
    case Null => "Null"
  }

  /** The common `[line L, position A..B]` header followed by the rest of the text. */
  function Header(l: nat, a: nat, b: nat, tail: string): string
  {
    "[line " + (NatToString(l) + (", position " + (NatToString(a) + (".." + (NatToString(b) + tail)))))
  }

  function TokenDisplay(t: Token): string
  {
    Header(t.line, t.positionStart, t.positionEnd,
           "] " + TokenTypeName(t.tokenType) + " \"" + t.lexeme + "\"")
  }

  /** The columns a scan error reports: offsets relative to the start of its
      line. The subtraction is on unsigned integers, so it is defined only when
      the line started no later than each position. */
  function ErrorColumns(e: ScanError): (cols: (nat, nat))
    requires e.lineStart <= e.positionStart && e.lineStart <= e.positionEnd
    ensures cols.0 + e.lineStart == e.positionStart
    ensures cols.1 + e.lineStart == e.positionEnd
  {
    (e.positionStart - e.lineStart, e.positionEnd - e.lineStart)
  }

  /** `[line L, position C1..C2] Error: message "lexeme"` for a scan error. */
  function ScanErrorDisplay(e: ScanError): string
    requires e.lineStart <= e.positionStart && e.lineStart <= e.positionEnd
  {
    var cols := ErrorColumns(e);
    Header(e.line, cols.0, cols.1, "] Error: " + e.message + " \"" + e.lexeme + "\"")
  }

  /** Reads the three numbers of a `[line L, position A..B]` header:
      L, then A, then B. */
  function ReadHeader(s: string): (nat, nat, nat)
  {
    if |s| < 6 then (0, 0, 0) else
    var r1 := ReadNat(s[6..]);
    if |r1.0| < 11 then (0, 0, 0) else
    var r2 := ReadNat(r1.0[11..]);
    if |r2.0| < 2 then (0, 0, 0) else
    var r3 := ReadNat(r2.0[2..]);
    (r1.1, r2.1, r3.1)
  }

  lemma HeaderRoundTrip(l: nat, a: nat, b: nat, tail: string)
    requires tail == [] || !IsDigitChar(tail[0])
    ensures ReadHeader(Header(l, a, b, tail)) == (l, a, b)
  {
    var rb := NatToString(b) + tail;
    var ra := NatToString(a) + (".." + rb);
    var rl := NatToString(l) + (", position " + ra);
    assert Header(l, a, b, tail)[6..] == rl;
    ReadNatRoundTrip(l, ", position " + ra);
    assert (", position " + ra)[11..] == ra;
    ReadNatRoundTrip(a, ".." + rb);
    assert (".." + rb)[2..] == rb;
    ReadNatRoundTrip(b, tail);
  }

  /** A rendered token shows its line, then its start and end offsets, in that
      order, and they can be read back from the text. */
  lemma TokenDisplayHeader(t: Token)
    ensures ReadHeader(TokenDisplay(t)) == (t.line, t.positionStart, t.positionEnd)
  {
    HeaderRoundTrip(t.line, t.positionStart, t.positionEnd,
                    "] " + TokenTypeName(t.tokenType) + " \"" + t.lexeme + "\"");
  }

  /** A rendered scan error shows its line and its two columns, in that order. */
  lemma ScanErrorDisplayHeader(e: ScanError)
    requires e.lineStart <= e.positionStart && e.lineStart <= e.positionEnd
    ensures ReadHeader(ScanErrorDisplay(e)) ==
            (e.line, e.positionStart - e.lineStart, e.positionEnd - e.lineStart)
  {
    var tail := "] Error: " + e.message + " \"" + e.lexeme + "\"";
    assert tail[0] == ']';
    assert ScanErrorDisplay(e) == Header(e.line, e.positionStart - e.lineStart,
                                         e.positionEnd - e.lineStart, tail);
    HeaderRoundTrip(e.line, e.positionStart - e.lineStart, e.positionEnd - e.lineStart, tail);
  }
}
