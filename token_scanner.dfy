/** The read-only forward cursor over the token vector that the syntax
    analyser walks. */
module TokenScanning {
  import opened JsonTypes

  datatype Option<T> = None | Some(value: T)

  /** `is_at_end`: already true while resting on the last token. The length
      must be positive, or `length - 1` underflows. */
  predicate AtEnd(length: nat, cursor: nat)
    requires length > 0
  {
    cursor >= length - 1
  }

  /** The cursor after `advance`: unchanged at the end, else one further. */
  function Advanced(length: nat, cursor: nat): (c: nat)
    requires length > 0
    ensures c == cursor || c == cursor + 1
    ensures cursor < length ==> c < length
  {
    if AtEnd(length, cursor) then cursor else cursor + 1
  }

  /** The cursor after k calls of `advance`. */
  function AdvancedTimes(length: nat, cursor: nat, k: nat): nat
    requires length > 0
    decreases k
  {
    if k == 0 then cursor else AdvancedTimes(length, Advanced(length, cursor), k - 1)
  }

  function Min(a: nat, b: nat): nat
  {
    if a <= b then a else b
  }

  /** From any cursor on the vector, k advances move the cursor k places, but
      never past the last token. */
  lemma {:induction false} AdvancesSaturate(length: nat, cursor: nat, k: nat)
    requires length > 0 && cursor < length
    ensures AdvancedTimes(length, cursor, k) == Min(cursor + k, length - 1)
    ensures AtEnd(length, AdvancedTimes(length, cursor, k)) <==> cursor + k >= length - 1
    decreases k
  {
    if k > 0 {
      AdvancesSaturate(length, Advanced(length, cursor), k - 1);
    }
  }

  /** The two `is_at_end` tests: over four tokens, two advances leave the
      cursor short of the end and three reach it. */
  lemma IsAtEndTests()
    ensures !AtEnd(4, AdvancedTimes(4, 0, 2))
    ensures AtEnd(4, AdvancedTimes(4, 0, 3))
  {
    AdvancesSaturate(4, 0, 2);
    AdvancesSaturate(4, 0, 3);
  }

  class TokenScanner {
    const tokens: seq<Token>
    var cursor: nat
    const length: nat

    /** The cursor stays on the vector when there is one. */
    ghost predicate Valid()
      reads this
    {
      length == |tokens| && (length > 0 ==> cursor < length)
    }

    constructor(tokens: seq<Token>)
      ensures Valid()
      ensures this.tokens == tokens && cursor == 0 && length == |tokens|
    {
      this.tokens := tokens;
      cursor := 0;
      length := |tokens|;
    }

    /** `current`: the token under the cursor (indexing panics on an empty
        vector, which the analyser rules out first). */
    method Current() returns (t: Token)
      requires Valid() && length > 0
      ensures t == tokens[cursor]
    {
      t := tokens[cursor];
    }

    predicate IsAtEnd()
      reads this
      requires length > 0
    {
      AtEnd(length, cursor)
    }

    /** `advance`: `None` and no move at the end, otherwise the next token. */
    method Advance() returns (t: Option<Token>)
      requires Valid() && length > 0
      modifies this`cursor
      ensures Valid()
      ensures cursor == Advanced(length, old(cursor))
      ensures t.None? <==> AtEnd(length, old(cursor))
      ensures t.Some? ==> t.value == tokens[cursor]
    {
      if IsAtEnd() {
        return None;
      }
      cursor := cursor + 1;
      return Some(tokens[cursor]);
    }
  }
}
