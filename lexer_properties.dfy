/** What `get_tokens` computes, stated without reference to the scanning loop:
    a successful scan tiles the text into recognised tokens separated by
    whitespace, and a failed scan stops at the first token that does not
    match. */
module LexerProperties {
  import opened JsonTypes
  import opened SourceScanning
  import opened LexerSpec

  /** Only whitespace in src[a..b]. */
  predicate Blank(src: string, a: nat, b: nat)
    requires a <= b <= |src|
  {
    forall k :: a <= k < b ==> IsWhitespace(src[k])
  }

  /** Where the whitespace before token k begins: the end of token k - 1, or 0. */
  function GapStart(ts: seq<Token>, k: nat): nat
    requires k <= |ts|
  {
    if k == 0 then 0 else ts[k - 1].positionEnd
  }

  /** t is what `get_next_token` recognises at t's start offset, and it records
      its own source slice and the line on which it ends. */
  predicate TokenAt(src: string, t: Token)
  {
    t.positionStart < t.positionEnd <= |src| &&
    NextToken(src, t.positionStart) == Matched(t.tokenType, t.positionEnd) &&
    t.lexeme == src[t.positionStart..t.positionEnd] &&
    t.line == LineAt(src, t.positionEnd)
  }

  /** The tokens lie in the text in order, without overlap, each starting at a
      non-whitespace character after a run of whitespace only. */
  predicate Tiling(src: string, ts: seq<Token>)
  {
    forall k {:trigger TokenAt(src, ts[k])} :: 0 <= k < |ts| ==>
      TokenAt(src, ts[k]) && GapStart(ts, k) <= ts[k].positionStart &&
      Blank(src, GapStart(ts, k), ts[k].positionStart) &&
      !IsWhitespace(src[ts[k].positionStart])
  }

  /** Only whitespace follows the last token. */
  predicate BlankTail(src: string, ts: seq<Token>)
  {
    GapStart(ts, |ts|) <= |src| && Blank(src, GapStart(ts, |ts|), |src|)
  }

  /** From a run of whitespace that ends at a non-whitespace character (or the
      end of the text), whitespace skipping lands on that character. */
  lemma {:induction false} SkipWsOverBlank(src: string, a: nat, b: nat)
    requires a <= b <= |src| && Blank(src, a, b)
    requires b == |src| || !IsWhitespace(src[b])
    ensures SkipWs(src, a) == b
    decreases b - a
  {
    if a < b {
      SkipWsOverBlank(src, a + 1, b);
    }
  }

  lemma {:induction false} TilingBounds(src: string, ts: seq<Token>, j: nat)
    requires Tiling(src, ts) && j <= |ts|
    ensures GapStart(ts, j) <= |src|
    ensures j < |ts| ==> GapStart(ts, j) <= ts[j].positionStart < ts[j].positionEnd <= |src|
  {
    if j > 0 {
      assert TokenAt(src, ts[j - 1]);
    }
    if j < |ts| {
      assert TokenAt(src, ts[j]);
    }
  }

  /** One turn of the scanning loop that recognises a token. */
  lemma {:induction false} LexFromMatched(src: string, i: nat, acc: seq<Token>, p: nat, kind: TokenType, e: nat)
    requires i <= |src| && p == SkipWs(src, i) && p < |src|
    requires NextToken(src, p) == Matched(kind, e)
    ensures p < e <= |src|
    ensures LexFrom(src, i, acc) == LexFrom(src, e, acc + [MakeToken(src, p, e, kind)])
  {
  }

  /** A token preceded by whitespace only is what the scanning loop takes next. */
  lemma {:induction false} TokenStep(src: string, g: nat, acc: seq<Token>, t: Token)
    requires g <= t.positionStart && TokenAt(src, t)
    requires Blank(src, g, t.positionStart) && !IsWhitespace(src[t.positionStart])
    ensures LexFrom(src, g, acc) == LexFrom(src, t.positionEnd, acc + [t])
  {
    SkipWsOverBlank(src, g, t.positionStart);
    LexFromMatched(src, g, acc, t.positionStart, t.tokenType, t.positionEnd);
    assert MakeToken(src, t.positionStart, t.positionEnd, t.tokenType) == t;
  }

  /** One step of the scanning loop over a tiling consumes its next token. */
  lemma {:induction false} TilingStep(src: string, ts: seq<Token>, j: nat)
    requires Tiling(src, ts) && j < |ts|
    ensures GapStart(ts, j) <= |src| && GapStart(ts, j + 1) <= |src|
    ensures LexFrom(src, GapStart(ts, j), ts[..j]) == LexFrom(src, GapStart(ts, j + 1), ts[..j + 1])
  {
    TilingBounds(src, ts, j);
    assert TokenAt(src, ts[j]);
    TokenStep(src, GapStart(ts, j), ts[..j], ts[j]);
    TakeOneMore(ts, j);
  }

  lemma {:induction false} TakeOneMore(ts: seq<Token>, j: nat)
    requires j < |ts|
    ensures ts[..j] + [ts[j]] == ts[..j + 1]
  {
  }

  /** A tiling drives the scanning loop token by token: resuming after its
      first j tokens leads to the same result as resuming after all of them. */
  lemma {:induction false} TilingRuns(src: string, ts: seq<Token>, j: nat)
    requires Tiling(src, ts) && j <= |ts|
    ensures GapStart(ts, j) <= |src| && GapStart(ts, |ts|) <= |src|
    ensures LexFrom(src, GapStart(ts, j), ts[..j]) == LexFrom(src, GapStart(ts, |ts|), ts)
    decreases |ts| - j, 1
  {
    if j < |ts| {
      TilingRunsOn(src, ts, j);
    } else {
      TilingBounds(src, ts, j);
      assert ts[..j] == ts;
    }
  }

  lemma {:induction false} TilingRunsOn(src: string, ts: seq<Token>, j: nat)
    requires Tiling(src, ts) && j < |ts|
    ensures GapStart(ts, j) <= |src| && GapStart(ts, |ts|) <= |src|
    ensures LexFrom(src, GapStart(ts, j), ts[..j]) == LexFrom(src, GapStart(ts, |ts|), ts)
    decreases |ts| - j, 0
  {
    TilingStep(src, ts, j);
    TilingRuns(src, ts, j + 1);
  }

  /** Each step of the scanning loop extends a tiling by one token. */
  lemma {:induction false} LexFromTiles(src: string, i: nat, acc: seq<Token>)
    requires i <= |src| && Tiling(src, acc) && i == GapStart(acc, |acc|)
    ensures LexFrom(src, i, acc).LexOk? ==>
      var ts := LexFrom(src, i, acc).tokens;
      Tiling(src, ts) && BlankTail(src, ts)
    decreases |src| - i
  {
    var p := SkipWs(src, i);
    if p == |src| {
    } else {
      match NextToken(src, p)
      case Matched(kind, e) =>
        var t := MakeToken(src, p, e, kind);
        var acc' := acc + [t];
        forall k | 0 <= k < |acc'|
          ensures TokenAt(src, acc'[k]) && GapStart(acc', k) <= acc'[k].positionStart &&
                  Blank(src, GapStart(acc', k), acc'[k].positionStart) &&
                  !IsWhitespace(src[acc'[k].positionStart])
        {
          if k < |acc| {
            assert acc'[k] == acc[k];
            assert GapStart(acc', k) == GapStart(acc, k);
          } else {
            assert acc'[k] == t && GapStart(acc', k) == i;
          }
        }
        LexFromTiles(src, e, acc');
      case Failed(_, _) =>
      case Panicked =>
    }
  }

  /** `get_tokens` succeeds with ts exactly when ts tiles the text and only
      whitespace follows it: the tokens appear in source order, do not
      overlap, carry their own source slices, are separated by whitespace
      only, and each is the token recognised at its start. */
  lemma {:induction false} LexOkIff(src: string, ts: seq<Token>)
    ensures Lex(src) == LexOk(ts) <==> Tiling(src, ts) && BlankTail(src, ts)
  {
    LexFromTiles(src, 0, []);
    if Tiling(src, ts) && BlankTail(src, ts) {
      TilingRuns(src, ts, 0);
      assert ts[..0] == [];
      SkipWsOverBlank(src, GapStart(ts, |ts|), |src|);
    }
  }

  /** Empty or whitespace-only text yields no tokens, and no other text does. */
  lemma {:induction false} BlankTextHasNoTokens(src: string)
    ensures Lex(src) == LexOk([]) <==> Blank(src, 0, |src|)
  {
    LexOkIff(src, []);
  }

  /** `get_tokens` is fail-fast: a failed scan stops at offset p, after a
      tiling prefix of well-formed tokens and a run of whitespace, where the
      token match fails (the error spans that attempt) or panics. */
  lemma {:induction false} LexStopsAt(src: string) returns (prefix: seq<Token>, p: nat)
    requires !Lex(src).LexOk?
    ensures Tiling(src, prefix) && GapStart(prefix, |prefix|) <= p < |src|
    ensures Blank(src, GapStart(prefix, |prefix|), p) && !IsWhitespace(src[p])
    ensures Lex(src).LexPanic? <==> NextToken(src, p).Panicked?
    ensures Lex(src).LexErr? ==>
      NextToken(src, p).Failed? &&
      Lex(src).error == MakeError(src, p, NextToken(src, p).end, NextToken(src, p).message)
  {
    prefix, p := StopsFrom(src, 0, []);
  }

  lemma {:induction false} StopsFrom(src: string, i: nat, acc: seq<Token>) returns (prefix: seq<Token>, p: nat)
    requires i <= |src| && Tiling(src, acc) && i == GapStart(acc, |acc|)
    requires !LexFrom(src, i, acc).LexOk?
    ensures Tiling(src, prefix) && GapStart(prefix, |prefix|) <= p < |src|
    ensures Blank(src, GapStart(prefix, |prefix|), p) && !IsWhitespace(src[p])
    ensures LexFrom(src, i, acc).LexPanic? <==> NextToken(src, p).Panicked?
    ensures LexFrom(src, i, acc).LexErr? ==>
      NextToken(src, p).Failed? &&
      LexFrom(src, i, acc).error == MakeError(src, p, NextToken(src, p).end, NextToken(src, p).message)
    decreases |src| - i
  {
    var q := SkipWs(src, i);
    match NextToken(src, q)
    case Matched(kind, e) =>
      var t := MakeToken(src, q, e, kind);
      var acc' := acc + [t];
      forall k | 0 <= k < |acc'|
        ensures TokenAt(src, acc'[k]) && GapStart(acc', k) <= acc'[k].positionStart &&
                Blank(src, GapStart(acc', k), acc'[k].positionStart) &&
                !IsWhitespace(src[acc'[k].positionStart])
      {
        if k < |acc| {
          assert acc'[k] == acc[k];
          assert GapStart(acc', k) == GapStart(acc, k);
        } else {
          assert acc'[k] == t && GapStart(acc', k) == i;
        }
      }
      prefix, p := StopsFrom(src, e, acc');
    case Failed(_, _) =>
      prefix, p := acc, q;
    case Panicked =>
      prefix, p := acc, q;
  }

  /** The converse of LexStopsAt: after a tiling prefix and whitespace, a
      failing token match is the error `get_tokens` reports. */
  lemma {:induction false} ErrorAfterTiling(src: string, prefix: seq<Token>, p: nat)
    requires Tiling(src, prefix) && GapStart(prefix, |prefix|) <= p < |src|
    requires Blank(src, GapStart(prefix, |prefix|), p) && !IsWhitespace(src[p])
    requires NextToken(src, p).Failed?
    ensures Lex(src) == LexErr(MakeError(src, p, NextToken(src, p).end, NextToken(src, p).message))
  {
    TilingRuns(src, prefix, 0);
    assert prefix[..0] == [];
    SkipWsOverBlank(src, GapStart(prefix, |prefix|), p);
  }
}
