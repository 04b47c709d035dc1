/** The languages the token matchers accept, each defined on its own and
    proved equal to what the matcher does: keywords by exact comparison,
    strings by the escape grammar of section 7 of RFC 8259 (with the lexer's
    deviations), numbers by the grammar of section 6 of RFC 8259 loosened
    where the lexer is lax. */
module LexerGrammar {
  import opened JsonTypes
  import opened SourceScanning
  import opened LexerSpec

  // ---------------------------------------------------------------------
  // Keywords

  lemma {:induction false} KeywordFrom(src: string, i: nat, kw: string, j: nat, kind: TokenType)
    requires j <= |kw| && i + j <= |src| && src[i..i + j] == kw[..j]
    ensures var o := MatchKeywordFrom(src, i, kw, j, kind);
      (o.Matched? <==> i + |kw| <= |src| && src[i..i + |kw|] == kw) &&
      (o.Matched? ==> o == Matched(kind, i + |kw|)) &&
      (o.Panicked? <==> |src| - i < |kw| && src[i..] == kw[..|src| - i]) &&
      (o.Failed? ==>
        var m := o.end - i - 1;
        j <= m < |kw| && i + m < |src| && src[i..i + m] == kw[..m] && src[i + m] != kw[m] &&
        o.message == ExpectedKeywordChar(kw[m], m))
    decreases |kw| - j
  {
    if j == |kw| {
      assert kw[..j] == kw;
    } else if i + j >= |src| {
      assert src[i..] == src[i..i + j];
    } else if src[i + j] != kw[j] {
      if i + |kw| <= |src| {
        assert src[i..i + |kw|][j] == src[i + j];
      }
      if |src| - i < |kw| {
        assert src[i..][j] == src[i + j];
        assert kw[..|src| - i][j] == kw[j];
      }
    } else {
      assert src[i..i + j + 1] == src[i..i + j] + [src[i + j]];
      assert kw[..j + 1] == kw[..j] + [kw[j]];
      KeywordFrom(src, i, kw, j + 1, kind);
    }
  }

  /** `match_keyword` accepts exactly the keyword's own text, panics exactly
      when the text ends inside a prefix of the keyword, and otherwise fails
      at the first mismatching index, naming the expected character. */
  lemma {:induction false} KeywordExact(src: string, i: nat, kw: string, kind: TokenType)
    requires i < |src| && |kw| > 0
    ensures var o := MatchKeyword(src, i, kw, kind);
      (o.Matched? <==> i + |kw| <= |src| && src[i..i + |kw|] == kw) &&
      (o.Matched? ==> o == Matched(kind, i + |kw|)) &&
      (o.Panicked? <==> |src| - i < |kw| && src[i..] == kw[..|src| - i]) &&
      (o.Failed? ==>
        var m := o.end - i - 1;
        m < |kw| && i + m < |src| && src[i..i + m] == kw[..m] && src[i + m] != kw[m] &&
        o.message == ExpectedKeywordChar(kw[m], m))
  {
    assert src[i..i] == kw[..0];
    KeywordFrom(src, i, kw, 0, kind);
  }

  // ---------------------------------------------------------------------
  // Strings

  /** A character that may stand for itself inside a string. Control
      characters other than newline and tab are not rejected. */
  predicate IsPlain(c: char)
  {
    c != '"' && c != '\\' && c != '\n' && c != '\t'
  }

  /** The text between the quotes of an accepted string: plain characters,
      simple escapes, and `\u` escapes with exactly four hex digits. */
  predicate ValidBody(b: string)
    decreases |b|
  {
    if b == [] then true
    else if IsPlain(b[0]) then ValidBody(b[1..])
    else if b[0] == '\\' && |b| >= 2 && IsSimpleEscape(b[1]) then ValidBody(b[2..])
    else if b[0] == '\\' && |b| >= 6 && b[1] == 'u' &&
            IsHex(b[2]) && IsHex(b[3]) && IsHex(b[4]) && IsHex(b[5]) then ValidBody(b[6..])
    else false
  }

  /** How the body loop may end with success from offset j: at a closing
      quote after a valid body, or at the end of the text after a valid body
      whose last consumed character (`final_char`) is a quote. */
  predicate BodyEnds(src: string, j: nat, e: nat, last: char)
    requires j <= e <= |src|
  {
    (j < e && src[e - 1] == '"' && ValidBody(src[j..e - 1])) ||
    (e == |src| && ValidBody(src[j..e]) && (if e == j then last else src[e - 1]) == '"')
  }

  /** src[j..j + w] is one unit of a body: a plain character, a simple
      escape, or a `\u` escape with four hex digits. */
  predicate UnitAt(src: string, j: nat, w: nat)
    requires j + w <= |src|
  {
    (w == 1 && IsPlain(src[j])) ||
    (w == 2 && src[j] == '\\' && IsSimpleEscape(src[j + 1])) ||
    (w == 6 && src[j] == '\\' && src[j + 1] == 'u' &&
     IsHex(src[j + 2]) && IsHex(src[j + 3]) && IsHex(src[j + 4]) && IsHex(src[j + 5]))
  }

  /** A valid body starting with one unit of length w is that unit followed
      by a valid body. */
  lemma {:induction false} BodyUnit(src: string, j: nat, w: nat, m: nat)
    requires j + w <= m <= |src| && UnitAt(src, j, w)
    ensures ValidBody(src[j..m]) <==> ValidBody(src[j + w..m])
  {
    var b := src[j..m];
    assert b[w..] == src[j + w..m];
    if w == 1 {
      assert b[0] == src[j];
    } else if w == 2 {
      assert b[0] == src[j] && b[1] == src[j + 1];
    } else {
      assert b[0] == src[j] && b[1] == src[j + 1] && b[2] == src[j + 2];
      assert b[3] == src[j + 3] && b[4] == src[j + 4] && b[5] == src[j + 5];
    }
  }

  /** An ending of the body loop after one unit is an ending before it. */
  lemma {:induction false} BodyEndsUnit(src: string, j: nat, w: nat, e: nat, last: char)
    requires j + w <= e <= |src| && UnitAt(src, j, w)
    requires BodyEnds(src, j + w, e, src[j + w - 1])
    ensures BodyEnds(src, j, e, last)
  {
    if j + w <= e - 1 {
      BodyUnit(src, j, w, e - 1);
    }
    BodyUnit(src, j, w, e);
  }

  /** A body that starts with a character that is not plain cannot be
      extended past it unless that character begins an escape. */
  lemma {:induction false} BodyHead(src: string, j: nat, m: nat)
    requires j < m <= |src| && ValidBody(src[j..m])
    ensures src[j] != '"' && src[j] != '\n' && src[j] != '\t'
    ensures src[j] == '\\' ==> (j + 1 < m &&
      (IsSimpleEscape(src[j + 1]) ||
       (src[j + 1] == 'u' && j + 5 < m &&
        IsHex(src[j + 2]) && IsHex(src[j + 3]) && IsHex(src[j + 4]) && IsHex(src[j + 5]))))
  {
    var b := src[j..m];
    assert b[0] == src[j];
    if |b| >= 2 { assert b[1] == src[j + 1]; }
    if |b| >= 6 {
      assert b[2] == src[j + 2] && b[3] == src[j + 3] && b[4] == src[j + 4] && b[5] == src[j + 5];
    }
  }

  lemma {:induction false} HexFour(src: string, m: nat)
    requires m + 4 <= |src|
    ensures HexCount(src, m, 4) == 4 <==>
      IsHex(src[m]) && IsHex(src[m + 1]) && IsHex(src[m + 2]) && IsHex(src[m + 3])
  {
    assert HexCount(src, m, 4) == 4 ==> IsHex(PeekAt(src, m + 3));
  }

  /** An accepted escape is one unit of a body. */
  lemma {:induction false} EscapeOkUnit(src: string, j: nat)
    requires j < |src| && src[j] == '\\' && Escape(src, j).EscapeOk?
    ensures j + 2 <= Escape(src, j).end <= |src| && UnitAt(src, j, Escape(src, j).end - j)
  {
    if !IsSimpleEscape(PeekAt(src, j + 1)) {
      HexFour(src, j + 2);
    }
  }

  /** Every success of the body loop is one of the two endings of BodyEnds. */
  lemma {:induction false} StringFromSound(src: string, j: nat, last: char)
    requires j <= |src|
    ensures var o := StringFrom(src, j, last);
      o.Matched? ==> j <= o.end <= |src| && BodyEnds(src, j, o.end, last)
    decreases |src| - j
  {
    var o := StringFrom(src, j, last);
    if j >= |src| || src[j] == '\n' || src[j] == '\t' {
    } else if src[j] == '"' {
      assert src[j..j] == [];
    } else if src[j] == '\\' {
      match Escape(src, j)
      case EscapeOk(n) =>
        StringFromSound(src, n, src[n - 1]);
        if o.Matched? {
          EscapeOkUnit(src, j);
          BodyEndsUnit(src, j, n - j, o.end, last);
        }
      case EscapeBad(_) =>
    } else {
      StringFromSound(src, j + 1, src[j]);
      if o.Matched? {
        BodyEndsUnit(src, j, 1, o.end, last);
      }
    }
  }

  /** Every ending of BodyEnds is reached by the body loop. */
  lemma {:induction false} StringFromComplete(src: string, j: nat, e: nat, last: char)
    requires j <= e <= |src| && BodyEnds(src, j, e, last)
    ensures StringFrom(src, j, last) == Matched(String, e)
    decreases |src| - j
  {
    if j == e {
      assert e == |src|;
    } else if j == e - 1 && src[e - 1] == '"' && ValidBody(src[j..e - 1]) {
    } else {
      // the body is non-empty and starts at j
      var m := if j < e && src[e - 1] == '"' && ValidBody(src[j..e - 1]) then e - 1 else e;
      assert j < m;
      BodyHead(src, j, m);
      if src[j] == '\\' {
        var w: nat := if IsSimpleEscape(src[j + 1]) then 2 else 6;
        if w == 6 {
          HexFour(src, j + 2);
        }
        BodyUnit(src, j, w, m);
        assert Escape(src, j) == EscapeOk(j + w);
        StringFromComplete(src, j + w, e, src[j + w - 1]);
      } else {
        BodyUnit(src, j, 1, m);
        StringFromComplete(src, j + 1, e, src[j]);
      }
    }
  }

  /** `match_string` accepts from offset i exactly a quote, a valid body and a
      closing quote, or, as a quirk of the `final_char` check, a quote and a
      valid body ending in the escaped quote `\"` at the very end of the
      text (so `"\"` is a complete string). */
  lemma {:induction false} StringGrammar(src: string, i: nat, e: nat)
    requires i < |src|
    ensures MatchString(src, i) == Matched(String, e) <==>
      src[i] == '"' && i + 2 <= e <= |src| && src[e - 1] == '"' &&
      (ValidBody(src[i + 1..e - 1]) || (e == |src| && ValidBody(src[i + 1..e])))
  {
    if src[i] == '"' {
      StringFromSound(src, i + 1, PeekAt(src, i + 1));
      if i + 2 <= e <= |src| && src[e - 1] == '"' &&
         (ValidBody(src[i + 1..e - 1]) || (e == |src| && ValidBody(src[i + 1..e]))) {
        StringFromComplete(src, i + 1, e, PeekAt(src, i + 1));
      }
    }
  }

  // ---------------------------------------------------------------------
  // Numbers

  predicate AllDigits(s: string)
  {
    forall k :: 0 <= k < |s| ==> IsDigit(s[k])
  }

  predicate SignPart(s: string)
  {
    s == [] || s == "-"
  }

  /** The integer part as the lexer reads it: a lone `0`, or digits without a
      leading zero, possibly none. */
  predicate LaxInt(s: string)
  {
    s == "0" || (AllDigits(s) && (s == [] || s[0] != '0'))
  }

  /** The fraction as the lexer reads it: absent, or a dot and digits,
      possibly none. */
  predicate LaxFrac(s: string)
  {
    s == [] || (s[0] == '.' && AllDigits(s[1..]))
  }

  /** The exponent: absent, or `e`/`E`, an optional sign and at least one digit. */
  predicate ExpPart(s: string)
  {
    s == [] ||
    (|s| >= 2 && (s[0] == 'e' || s[0] == 'E') &&
     ((IsDigit(s[1]) && AllDigits(s[1..])) ||
      (|s| >= 3 && (s[1] == '+' || s[1] == '-') && AllDigits(s[2..]))))
  }

  /** The integer part of section 6 of RFC 8259: `0`, or a digit 1-9 followed
      by digits. */
  predicate RfcInt(s: string)
  {
    s == "0" || (|s| > 0 && '1' <= s[0] <= '9' && AllDigits(s))
  }

  /** The fraction of section 6 of RFC 8259: absent, or a dot and at least
      one digit. */
  predicate RfcFrac(s: string)
  {
    s == [] || (|s| >= 2 && s[0] == '.' && AllDigits(s[1..]))
  }

  /** A character that cannot continue a number. */
  predicate EndsNumber(c: char)
  {
    !IsDigit(c) && c != '.' && c != 'e' && c != 'E'
  }

  lemma {:induction false} DigitsSlice(src: string, a: nat)
    requires a <= |src|
    ensures AllDigits(src[a..DigitsEnd(src, a)])
  {
    var b := DigitsEnd(src, a);
    forall k | 0 <= k < b - a
      ensures IsDigit(src[a..b][k])
    {
      assert src[a..b][k] == src[a + k];
    }
  }

  /** A run of digits in the text ending before a non-digit is exactly what
      DigitsEnd skips. */
  lemma {:induction false} DigitsEndOf(src: string, a: nat, b: nat)
    requires a <= b <= |src| && AllDigits(src[a..b]) && !IsDigit(PeekAt(src, b))
    ensures DigitsEnd(src, a) == b
    decreases b - a
  {
    if a < b {
      assert src[a..b][0] == src[a];
      assert src[a..b][1..] == src[a + 1..b];
      DigitsEndOf(src, a + 1, b);
    }
  }

  lemma {:induction false} IntegerSound(src: string, a: nat)
    requires a <= |src| && !LeadingZero(src, a)
    ensures LaxInt(src[a..IntegerEnd(src, a)]) && !IsDigit(PeekAt(src, IntegerEnd(src, a)))
  {
    var b := IntegerEnd(src, a);
    if PeekAt(src, a) == '0' {
      assert src[a..b] == [src[a]];
    } else {
      DigitsSlice(src, a);
      if a < b {
        assert src[a..b][0] == src[a];
      }
    }
  }

  lemma {:induction false} FractionSound(src: string, b: nat)
    requires b <= |src| && !IsDigit(PeekAt(src, b))
    ensures LaxFrac(src[b..FractionEnd(src, b)]) && !IsDigit(PeekAt(src, FractionEnd(src, b)))
    ensures b < FractionEnd(src, b) || PeekAt(src, b) != '.'
  {
    if PeekAt(src, b) == '.' {
      var c := FractionEnd(src, b);
      DigitsSlice(src, b + 1);
      assert src[b..c][0] == src[b];
      assert src[b..c][1..] == src[b + 1..c];
    }
  }

  lemma {:induction false} ExponentSound(src: string, c: nat)
    requires c <= |src| && ExponentOutcome(src, c).Matched? && !IsDigit(PeekAt(src, c))
    ensures var e := ExponentOutcome(src, c).end;
      ExpPart(src[c..e]) && !IsDigit(PeekAt(src, e))
  {
    var e := ExponentOutcome(src, c).end;
    if PeekAt(src, c) == 'e' || PeekAt(src, c) == 'E' {
      var k := ExponentSignEnd(src, c);
      DigitsSlice(src, k);
      var x := src[c..e];
      assert x[0] == src[c] && x[1] == src[c + 1];
      if k == c + 2 {
        assert x[2..] == src[k..e];
      } else {
        assert x[1..] == src[k..e];
      }
    }
  }

  /** Every number `match_number` accepts splits into an optional minus, a
      lax integer part, a lax fraction and an exponent, and is not followed by
      a digit. */
  lemma {:induction false} NumberSound(src: string, i: nat) returns (a: nat, b: nat, c: nat)
    requires i < |src| && (IsDigit(src[i]) || src[i] == '-')
    requires MatchNumber(src, i).Matched?
    ensures var e := MatchNumber(src, i).end;
      i <= a <= b <= c <= e <= |src| &&
      SignPart(src[i..a]) && LaxInt(src[a..b]) && LaxFrac(src[b..c]) && ExpPart(src[c..e]) &&
      !IsDigit(PeekAt(src, e))
  {
    a := SignEnd(src, i);
    b := IntegerEnd(src, a);
    c := FractionEnd(src, b);
    if a == i + 1 {
      assert src[i..a] == [src[i]];
    }
    IntegerSound(src, a);
    FractionSound(src, b);
    ExponentSound(src, c);
  }

  lemma {:induction false} IntegerPhase(src: string, a: nat, b: nat)
    requires a <= b <= |src| && LaxInt(src[a..b]) && !IsDigit(PeekAt(src, b))
    ensures IntegerEnd(src, a) == b && !LeadingZero(src, a)
  {
    if src[a..b] == "0" {
      assert src[a] == src[a..b][0];
    } else {
      if a < b { assert src[a] == src[a..b][0]; }
      DigitsEndOf(src, a, b);
    }
  }

  lemma {:induction false} FractionPhase(src: string, b: nat, c: nat)
    requires b <= c <= |src| && LaxFrac(src[b..c]) && !IsDigit(PeekAt(src, c))
    requires b == c ==> PeekAt(src, b) != '.'
    ensures FractionEnd(src, b) == c
  {
    if b < c {
      assert src[b] == src[b..c][0];
      assert src[b + 1..c] == src[b..c][1..];
      DigitsEndOf(src, b + 1, c);
    }
  }

  lemma {:induction false} ExponentPhase(src: string, c: nat, e: nat)
    requires c <= e <= |src| && ExpPart(src[c..e]) && !IsDigit(PeekAt(src, e))
    requires c == e ==> PeekAt(src, c) != 'e' && PeekAt(src, c) != 'E'
    ensures ExponentOutcome(src, c) == Matched(Number, e)
  {
    if c < e {
      var x := src[c..e];
      assert src[c] == x[0] && src[c + 1] == x[1];
      var k := ExponentSignEnd(src, c);
      if x[1] == '+' || x[1] == '-' {
        assert src[k..e] == x[2..];
        assert src[k] == x[2];
      } else {
        assert src[k..e] == x[1..];
      }
      DigitsEndOf(src, k, e);
    }
  }

  /** Every text made of an optional minus, a lax integer part (non-empty
      unless the minus is present), a lax fraction and an exponent, at the
      offsets i <= a <= b <= c <= e, followed by a character that cannot
      continue a number, is accepted whole. */
  lemma {:induction false} NumberComplete(src: string, i: nat, a: nat, b: nat, c: nat, e: nat)
    requires i <= a <= b <= c <= e <= |src| && i < b
    requires SignPart(src[i..a]) && LaxInt(src[a..b]) && LaxFrac(src[b..c]) && ExpPart(src[c..e])
    requires EndsNumber(PeekAt(src, e))
    ensures i < |src| && (IsDigit(src[i]) || src[i] == '-')
    ensures MatchNumber(src, i) == Matched(Number, e)
  {
    if i < a {
      assert src[i] == src[i..a][0];
    } else {
      assert src[i] == src[a..b][0];
    }
    assert SignEnd(src, i) == a;
    if b < c {
      assert src[b] == src[b..c][0];
    } else if c < e {
      assert src[b] == src[c..e][0];
    }
    IntegerPhase(src, a, b);
    if c < e {
      assert src[c] == src[c..e][0];
    }
    FractionPhase(src, b, c);
    ExponentPhase(src, c, e);
  }

  /** Every number of section 6 of RFC 8259 followed by a character that cannot
      continue it is accepted whole. */
  lemma {:induction false} RfcNumberAccepted(src: string, i: nat, a: nat, b: nat, c: nat, e: nat)
    requires i <= a <= b <= c <= e <= |src|
    requires SignPart(src[i..a]) && RfcInt(src[a..b]) && RfcFrac(src[b..c]) && ExpPart(src[c..e])
    requires EndsNumber(PeekAt(src, e))
    ensures MatchNumber(src, i) == Matched(Number, e)
  {
    assert LaxInt(src[a..b]);
    NumberComplete(src, i, a, b, c, e);
  }
}
