/** The JSON texts the analyser accepts: every object or array built from
    literals, arrays and objects (in token form) is accepted with the stack
    emptied, and anything after such a value is rejected as trailing tokens.
    Acceptance is strictly wider than this grammar: an unclosed array whose
    last item is an array closing on the last token, and the same for
    objects, are accepted too. */
module ParserGrammar {
  import opened JsonTypes
  import opened TokenScanning
  import opened ParserSpec

  /** A JSON value as the analyser sees it: object keys are `String` tokens,
      so an object is the sequence of its member values. */
  datatype Value =
    | Literal(kind: TokenType)
    | ArrayOf(items: seq<Value>)
    | ObjectOf(members: seq<Value>)

  predicate WellFormed(v: Value)
    decreases v
  {
    match v
    case Literal(k) => IsLiteral(k)
    case ArrayOf(items) => AllWellFormed(items)
    case ObjectOf(members) => AllWellFormed(members)
  }

  predicate AllWellFormed(vs: seq<Value>)
    decreases vs
  {
    |vs| == 0 || (WellFormed(vs[0]) && AllWellFormed(vs[1..]))
  }

  /** The token kinds of a value. */
  function Tokens(v: Value): seq<TokenType>
    decreases v
  {
    match v
    case Literal(k) => [k]
    case ArrayOf(items) => [LeftBracket] + Elements(items) + [RightBracket]
    case ObjectOf(members) => [LeftBrace] + Members(members) + [RightBrace]
  }

  /** Array items separated by commas. */
  function Elements(items: seq<Value>): seq<TokenType>
    decreases items
  {
    if |items| == 0 then []
    else if |items| == 1 then Tokens(items[0])
    else Tokens(items[0]) + [Comma] + Elements(items[1..])
  }

  /** Object members `"key": value` separated by commas. */
  function Members(members: seq<Value>): seq<TokenType>
    decreases members
  {
    if |members| == 0 then []
    else if |members| == 1 then [String, Colon] + Tokens(members[0])
    else [String, Colon] + Tokens(members[0]) + [Comma] + Members(members[1..])
  }

  /** t occurs in ks at offset c, token by token. */
  predicate At(ks: seq<TokenType>, c: nat, t: seq<TokenType>)
    decreases |t|
  {
    c + |t| <= |ks| && (|t| == 0 || (ks[c] == t[0] && At(ks, c + 1, t[1..])))
  }

  lemma {:induction false} AtSplit(ks: seq<TokenType>, c: nat, a: seq<TokenType>, b: seq<TokenType>)
    requires At(ks, c, a + b)
    ensures At(ks, c, a) && At(ks, c + |a|, b)
    decreases |a|
  {
    if |a| == 0 {
      assert a + b == b;
    } else {
      assert (a + b)[0] == a[0];
      assert (a + b)[1..] == a[1..] + b;
      AtSplit(ks, c + 1, a[1..], b);
    }
  }

  lemma {:induction false} AtHead(ks: seq<TokenType>, c: nat, t: seq<TokenType>)
    requires At(ks, c, t) && |t| > 0
    ensures c < |ks| && ks[c] == t[0]
  {
  }

  /** The last token of a sequence in place. */
  lemma {:induction false} AtLast(ks: seq<TokenType>, c: nat, t: seq<TokenType>)
    requires At(ks, c, t) && |t| > 0
    ensures ks[c + |t| - 1] == t[|t| - 1]
    decreases |t|
  {
    if |t| > 1 {
      AtLast(ks, c + 1, t[1..]);
    }
  }

  /** Position-wise agreement gives occurrence. */
  lemma {:induction false} AtPointwise(ks: seq<TokenType>, c: nat, t: seq<TokenType>)
    requires c + |t| <= |ks| && forall i :: 0 <= i < |t| ==> ks[c + i] == t[i]
    ensures At(ks, c, t)
    decreases |t|
  {
    if |t| > 0 {
      assert ks[c + 0] == t[0];
      forall i | 0 <= i < |t| - 1
        ensures ks[c + 1 + i] == t[1..][i]
      {
        assert ks[c + (i + 1)] == t[i + 1];
      }
      AtPointwise(ks, c + 1, t[1..]);
    }
  }

  lemma {:induction false} AtPrefix(t: seq<TokenType>, rest: seq<TokenType>)
    ensures At(t + rest, 0, t)
  {
    forall i | 0 <= i < |t|
      ensures (t + rest)[0 + i] == t[i]
    {
    }
    AtPointwise(t + rest, 0, t);
  }

  lemma {:induction false} AtSuffix(pre: seq<TokenType>, t: seq<TokenType>)
    ensures At(pre + t, |pre|, t)
  {
    forall i | 0 <= i < |t|
      ensures (pre + t)[|pre| + i] == t[i]
    {
    }
    AtPointwise(pre + t, |pre|, t);
  }

  /** A value's tokens start with its opener or its literal. */
  lemma {:induction false} FirstToken(v: Value)
    requires WellFormed(v)
    ensures |Tokens(v)| >= 1
    ensures Tokens(v)[0] != RightBrace && Tokens(v)[0] != RightBracket &&
            Tokens(v)[0] != Comma && Tokens(v)[0] != Colon
    ensures v.Literal? ==> Tokens(v) == [v.kind]
    ensures v.ArrayOf? ==> Tokens(v)[0] == LeftBracket && Tokens(v)[|Tokens(v)| - 1] == RightBracket
    ensures v.ObjectOf? ==> Tokens(v)[0] == LeftBrace && Tokens(v)[|Tokens(v)| - 1] == RightBrace
  {
  }

  lemma {:induction false} TokensNonEmpty(v: Value)
    requires WellFormed(v)
    ensures |Tokens(v)| >= 1
  {
    FirstToken(v);
  }

  /** Opener, body and closer of a bracketed token sequence in place. */
  lemma {:induction false} BracketedAt(ks: seq<TokenType>, c: nat, open: TokenType, body: seq<TokenType>, close: TokenType)
    requires At(ks, c, [open] + body + [close])
    ensures c + 1 + |body| < |ks|
    ensures ks[c] == open && ks[c + 1 + |body|] == close
    ensures At(ks, c + 1, body)
  {
    AtSplit(ks, c, [open] + body, [close]);
    AtSplit(ks, c, [open], body);
    AtHead(ks, c, [open]);
    AtHead(ks, c + 1 + |body|, [close]);
  }

  /** The first item in place, followed by a comma and the remaining items
      when there are more. */
  lemma {:induction false} ItemsAt(ks: seq<TokenType>, p: nat, items: seq<Value>)
    requires |items| > 0 && At(ks, p, Elements(items))
    ensures var n := |Tokens(items[0])|;
      At(ks, p, Tokens(items[0])) &&
      (|items| == 1 ==> |Elements(items)| == n) &&
      (|items| > 1 ==> (|Elements(items)| == n + 1 + |Elements(items[1..])| &&
        p + n < |ks| && ks[p + n] == Comma && At(ks, p + n + 1, Elements(items[1..]))))
  {
    if |items| > 1 {
      var t := Tokens(items[0]);
      AtSplit(ks, p, t + [Comma], Elements(items[1..]));
      AtSplit(ks, p, t, [Comma]);
      AtHead(ks, p + |t|, [Comma]);
    }
  }

  /** The first member's key, colon and value in place, followed by a comma
      and the remaining members when there are more. */
  lemma {:induction false} MembersAt(ks: seq<TokenType>, p: nat, members: seq<Value>)
    requires |members| > 0 && At(ks, p, Members(members))
    ensures var n := |Tokens(members[0])|;
      p + 2 <= |ks| && ks[p] == String && ks[p + 1] == Colon &&
      At(ks, p + 2, Tokens(members[0])) &&
      (|members| == 1 ==> |Members(members)| == n + 2) &&
      (|members| > 1 ==> (|Members(members)| == n + 3 + |Members(members[1..])| &&
        p + 2 + n < |ks| && ks[p + 2 + n] == Comma && At(ks, p + n + 3, Members(members[1..]))))
  {
    var t := Tokens(members[0]);
    if |members| > 1 {
      AtSplit(ks, p, [String, Colon] + t + [Comma], Members(members[1..]));
      AtSplit(ks, p, [String, Colon] + t, [Comma]);
      AtHead(ks, p + 2 + |t|, [Comma]);
    }
    AtSplit(ks, p, [String, Colon], t);
    assert At(ks, p + 1, [String, Colon][1..]);
  }

  /** After a handler reports completion at e with `top` on the stack, the
      loop pops `top` and advances. */
  lemma {:induction false} PopAfter(ks: seq<TokenType>, e: nat, s: StateType, top: StateType, next: nat,
                                    stack: seq<StateType>)
    requires e < |ks| && Live(s) && Dispatch(ks, e, s) == Done(e) && next == Advanced(|ks|, e)
    ensures Run(ks, e, s, stack + [top]) == Run(ks, next, top, stack)
  {
    assert (stack + [top])[..|stack|] == stack;
  }

  /** After a handler called at c reports completion at e with `top` on
      the stack, the loop pops `top` and advances from e. */
  lemma {:induction false} PopFrom(ks: seq<TokenType>, c: nat, s: StateType, e: nat, top: StateType,
                                   stack: seq<StateType>)
    requires c < |ks| && Live(s) && Dispatch(ks, c, s) == Done(e)
    ensures Run(ks, c, s, stack + [top]) == Run(ks, Advanced(|ks|, e), top, stack)
  {
    assert (stack + [top])[..|stack|] == stack;
  }

  /** After a handler reports completion at e on an empty stack, the loop
      ends and the final check looks at e. */
  lemma {:induction false} FinishAfter(ks: seq<TokenType>, e: nat, s: StateType)
    requires e < |ks| && Live(s) && Dispatch(ks, e, s) == Done(e)
    ensures Run(ks, e, s, []) == Outcome(Finish(ks, e), [])
  {
  }

  /** One turn of the loop on `Some(next)`. */
  lemma {:induction false} RunNext(ks: seq<TokenType>, c: nat, s: StateType, stack: seq<StateType>)
    requires c < |ks| && Live(s) && Dispatch(ks, c, s).Next?
    ensures var h := Dispatch(ks, c, s);
      Run(ks, c, s, stack) == Run(ks, h.cursor, h.state, stack + [Pushed(s, h.state)])
  {
  }

  /** Two live states whose handlers report completion at the same offset
      go on alike. */
  lemma {:induction false} SameDone(ks: seq<TokenType>, c: nat, s: StateType, e: nat, s': StateType,
                                    stack: seq<StateType>)
    requires c < |ks| && e < |ks| && Live(s) && Live(s')
    requires Dispatch(ks, c, s) == Done(e) && Dispatch(ks, e, s') == Done(e)
    ensures Run(ks, c, s, stack) == Run(ks, e, s', stack)
  {
  }

  /** The end state a complete value leaves the loop in: the one whose
      handler completes on the value's last token. */
  function Completes(v: Value): StateType
  {
    match v
    case Literal(_) => ArrayItem
    case ArrayOf(_) => ArrayItemEnd
    case ObjectOf(_) => ObjectPropertyEnd
  }

  /** A value's first handler call neither fails nor panics: a literal is
      complete at once, and an object or array is either empty or moves on
      to its first member or item. */
  lemma {:induction false} ValueHead(ks: seq<TokenType>, c: nat, v: Value)
    requires WellFormed(v) && At(ks, c, Tokens(v))
    ensures c < |ks|
    ensures var h := ParseValue(ks, c);
      h.Done? || (h.Next? && (h.state == ArrayItem || h.state == ObjectProperty))
  {
    FirstToken(v);
    AtHead(ks, c, Tokens(v));
    match v
    case Literal(_) =>
    case ArrayOf(items) =>
      BracketedAt(ks, c, LeftBracket, Elements(items), RightBracket);
      if |items| > 0 {
        ItemsAt(ks, c + 1, items);
        FirstToken(items[0]);
        AtHead(ks, c + 1, Tokens(items[0]));
      }
    case ObjectOf(members) =>
      BracketedAt(ks, c, LeftBrace, Members(members), RightBrace);
      if |members| > 0 {
        MembersAt(ks, c + 1, members);
      }
  }

  /** Any live state whose handler parses a value at offset c goes on as the
      `ArrayItem` state would from c, as long as that handler call neither
      fails nor panics. */
  lemma {:induction false} ValueVia(ks: seq<TokenType>, c0: nat, s: StateType, c: nat, stack: seq<StateType>)
    requires c0 < |ks| && c < |ks| && Live(s) && Dispatch(ks, c0, s) == ParseValue(ks, c)
    requires var h := ParseValue(ks, c);
      h.Done? || (h.Next? && (h.state == ArrayItem || h.state == ObjectProperty))
    ensures Run(ks, c0, s, stack) == Run(ks, c, ArrayItem, stack)
  {
    assert Dispatch(ks, c, ArrayItem) == ParseValue(ks, c);
  }

  /** A value parsed from offset c: the loop runs through the whole value
      and comes to rest on its last token in a state that completes there. */
  lemma {:induction false} ValueRun(ks: seq<TokenType>, c: nat, v: Value, stack: seq<StateType>)
    requires WellFormed(v) && At(ks, c, Tokens(v))
    ensures c + |Tokens(v)| - 1 < |ks|
    ensures Dispatch(ks, c + |Tokens(v)| - 1, Completes(v)) == Done(c + |Tokens(v)| - 1)
    ensures Run(ks, c, ArrayItem, stack) == Run(ks, c + |Tokens(v)| - 1, Completes(v), stack)
    decreases |Tokens(v)|, 3
  {
    if v.Literal? {
      LiteralRun(ks, c, v, stack);
    } else if v.ArrayOf? {
      ArrayValueRun(ks, c, v, stack);
    } else {
      ObjectValueRun(ks, c, v, stack);
    }
  }

  lemma {:induction false} LiteralRun(ks: seq<TokenType>, c: nat, v: Value, stack: seq<StateType>)
    requires WellFormed(v) && v.Literal? && At(ks, c, Tokens(v))
    ensures c + |Tokens(v)| - 1 < |ks|
    ensures Dispatch(ks, c + |Tokens(v)| - 1, Completes(v)) == Done(c + |Tokens(v)| - 1)
    ensures Run(ks, c, ArrayItem, stack) == Run(ks, c + |Tokens(v)| - 1, Completes(v), stack)
  {
    AtHead(ks, c, Tokens(v));
    assert Tokens(v) == [v.kind] && Completes(v) == ArrayItem;
    assert Dispatch(ks, c, ArrayItem) == Done(c);
  }

  lemma {:induction false} ArrayValueRun(ks: seq<TokenType>, c: nat, v: Value, stack: seq<StateType>)
    requires WellFormed(v) && v.ArrayOf? && At(ks, c, Tokens(v))
    ensures c + |Tokens(v)| - 1 < |ks|
    ensures Dispatch(ks, c + |Tokens(v)| - 1, Completes(v)) == Done(c + |Tokens(v)| - 1)
    ensures Run(ks, c, ArrayItem, stack) == Run(ks, c + |Tokens(v)| - 1, Completes(v), stack)
    decreases |Tokens(v)|, 2
  {
    assert |Tokens(v)| == |Elements(v.items)| + 2 && Completes(v) == ArrayItemEnd;
    ArrayRun(ks, c, v.items, stack);
  }

  lemma {:induction false} ObjectValueRun(ks: seq<TokenType>, c: nat, v: Value, stack: seq<StateType>)
    requires WellFormed(v) && v.ObjectOf? && At(ks, c, Tokens(v))
    ensures c + |Tokens(v)| - 1 < |ks|
    ensures Dispatch(ks, c + |Tokens(v)| - 1, Completes(v)) == Done(c + |Tokens(v)| - 1)
    ensures Run(ks, c, ArrayItem, stack) == Run(ks, c + |Tokens(v)| - 1, Completes(v), stack)
    decreases |Tokens(v)|, 2
  {
    assert |Tokens(v)| == |Members(v.members)| + 2 && Completes(v) == ObjectPropertyEnd;
    ObjectRun(ks, c, v.members, stack);
  }

  /** The handler facts about an array in place: how its first token is
      handled, and that its last token completes `ArrayItemEnd`. */
  lemma {:induction false} ArrayOpens(ks: seq<TokenType>, c: nat, items: seq<Value>)
    requires AllWellFormed(items) && At(ks, c, [LeftBracket] + Elements(items) + [RightBracket])
    ensures c + 1 + |Elements(items)| < |ks|
    ensures Dispatch(ks, c + 1 + |Elements(items)|, ArrayItemEnd) == Done(c + 1 + |Elements(items)|)
    ensures |items| == 0 ==> Dispatch(ks, c, ArrayItem) == Done(c + 1)
    ensures |items| > 0 ==> Dispatch(ks, c, ArrayItem) == Next(ArrayItem, c + 1)
    ensures At(ks, c + 1, Elements(items)) && ks[c + 1 + |Elements(items)|] == RightBracket
  {
    if |items| == 0 {
      EmptyArrayOpens(ks, c, items);
    } else {
      ItemsOpen(ks, c, items);
    }
  }

  lemma {:induction false} EmptyArrayOpens(ks: seq<TokenType>, c: nat, items: seq<Value>)
    requires AllWellFormed(items) && At(ks, c, [LeftBracket] + Elements(items) + [RightBracket]) && |items| == 0
    ensures c + 1 + |Elements(items)| < |ks|
    ensures Dispatch(ks, c + 1 + |Elements(items)|, ArrayItemEnd) == Done(c + 1 + |Elements(items)|)
    ensures Dispatch(ks, c, ArrayItem) == Done(c + 1)
    ensures At(ks, c + 1, Elements(items)) && ks[c + 1 + |Elements(items)|] == RightBracket
  {
    BracketedAt(ks, c, LeftBracket, Elements(items), RightBracket);
  }

  lemma {:induction false} ItemsOpen(ks: seq<TokenType>, c: nat, items: seq<Value>)
    requires AllWellFormed(items) && At(ks, c, [LeftBracket] + Elements(items) + [RightBracket]) && |items| > 0
    ensures c + 1 + |Elements(items)| < |ks|
    ensures Dispatch(ks, c + 1 + |Elements(items)|, ArrayItemEnd) == Done(c + 1 + |Elements(items)|)
    ensures Dispatch(ks, c, ArrayItem) == Next(ArrayItem, c + 1)
    ensures At(ks, c + 1, Elements(items)) && ks[c + 1 + |Elements(items)|] == RightBracket
  {
    BracketedAt(ks, c, LeftBracket, Elements(items), RightBracket);
    FirstToken(items[0]);
    ItemsAt(ks, c + 1, items);
    AtHead(ks, c + 1, Tokens(items[0]));
  }

  lemma {:induction false} ArrayRun(ks: seq<TokenType>, c: nat, items: seq<Value>, stack: seq<StateType>)
    requires AllWellFormed(items) && At(ks, c, [LeftBracket] + Elements(items) + [RightBracket])
    ensures c + 1 + |Elements(items)| < |ks|
    ensures Dispatch(ks, c + 1 + |Elements(items)|, ArrayItemEnd) == Done(c + 1 + |Elements(items)|)
    ensures Run(ks, c, ArrayItem, stack) == Run(ks, c + 1 + |Elements(items)|, ArrayItemEnd, stack)
    decreases |Elements(items)| + 2, 1
  {
    ArrayOpens(ks, c, items);
    if |items| == 0 {
      SameDone(ks, c, ArrayItem, c + 1, ArrayItemEnd, stack);
    } else {
      RunNext(ks, c, ArrayItem, stack);
      ItemsRun(ks, c + 1, items, c + 1 + |Elements(items)|, stack);
    }
  }

  /** The handler facts about an object in place: how its first token is
      handled, and that its last token completes `ObjectPropertyEnd`. */
  lemma {:induction false} ObjectOpens(ks: seq<TokenType>, c: nat, members: seq<Value>)
    requires AllWellFormed(members) && At(ks, c, [LeftBrace] + Members(members) + [RightBrace])
    ensures c + 1 + |Members(members)| < |ks|
    ensures Dispatch(ks, c + 1 + |Members(members)|, ObjectPropertyEnd) == Done(c + 1 + |Members(members)|)
    ensures |members| == 0 ==> Dispatch(ks, c, ArrayItem) == Done(c + 1)
    ensures |members| > 0 ==> Dispatch(ks, c, ArrayItem) == Next(ObjectProperty, c + 1)
    ensures At(ks, c + 1, Members(members)) && ks[c + 1 + |Members(members)|] == RightBrace
  {
    if |members| == 0 {
      EmptyObjectOpens(ks, c, members);
    } else {
      MembersOpen(ks, c, members);
    }
  }

  lemma {:induction false} EmptyObjectOpens(ks: seq<TokenType>, c: nat, members: seq<Value>)
    requires AllWellFormed(members) && At(ks, c, [LeftBrace] + Members(members) + [RightBrace]) && |members| == 0
    ensures c + 1 + |Members(members)| < |ks|
    ensures Dispatch(ks, c + 1 + |Members(members)|, ObjectPropertyEnd) == Done(c + 1 + |Members(members)|)
    ensures Dispatch(ks, c, ArrayItem) == Done(c + 1)
    ensures At(ks, c + 1, Members(members)) && ks[c + 1 + |Members(members)|] == RightBrace
  {
    BracketedAt(ks, c, LeftBrace, Members(members), RightBrace);
  }

  lemma {:induction false} MembersOpen(ks: seq<TokenType>, c: nat, members: seq<Value>)
    requires AllWellFormed(members) && At(ks, c, [LeftBrace] + Members(members) + [RightBrace]) && |members| > 0
    ensures c + 1 + |Members(members)| < |ks|
    ensures Dispatch(ks, c + 1 + |Members(members)|, ObjectPropertyEnd) == Done(c + 1 + |Members(members)|)
    ensures Dispatch(ks, c, ArrayItem) == Next(ObjectProperty, c + 1)
    ensures At(ks, c + 1, Members(members)) && ks[c + 1 + |Members(members)|] == RightBrace
  {
    BracketedAt(ks, c, LeftBrace, Members(members), RightBrace);
    MembersAt(ks, c + 1, members);
  }

  lemma {:induction false} ObjectRun(ks: seq<TokenType>, c: nat, members: seq<Value>, stack: seq<StateType>)
    requires AllWellFormed(members) && At(ks, c, [LeftBrace] + Members(members) + [RightBrace])
    ensures c + 1 + |Members(members)| < |ks|
    ensures Dispatch(ks, c + 1 + |Members(members)|, ObjectPropertyEnd) == Done(c + 1 + |Members(members)|)
    ensures Run(ks, c, ArrayItem, stack) == Run(ks, c + 1 + |Members(members)|, ObjectPropertyEnd, stack)
    decreases |Members(members)| + 2, 1
  {
    ObjectOpens(ks, c, members);
    if |members| == 0 {
      SameDone(ks, c, ArrayItem, c + 1, ObjectPropertyEnd, stack);
    } else {
      RunNext(ks, c, ArrayItem, stack);
      MembersRun(ks, c + 1, members, c + 1 + |Members(members)|, stack);
    }
  }

  /** One array item and the `ArrayItemEnd` it returns to at e. */
  lemma {:induction false} ItemRun(ks: seq<TokenType>, p: nat, v: Value, e: nat, stack: seq<StateType>)
    requires WellFormed(v) && At(ks, p, Tokens(v)) && e == p + |Tokens(v)| && e < |ks|
    ensures Run(ks, p, ArrayItem, stack + [ArrayItemEnd]) == Run(ks, e, ArrayItemEnd, stack)
    decreases |Tokens(v)|, 4
  {
    TokensNonEmpty(v);
    ValueRun(ks, p, v, stack + [ArrayItemEnd]);
    PopAfter(ks, p + |Tokens(v)| - 1, Completes(v), ArrayItemEnd, e, stack);
  }

  /** A comma after an item leads to the next item. */
  lemma {:induction false} ItemComma(ks: seq<TokenType>, q: nat, stack: seq<StateType>)
    requires q + 1 < |ks| && ks[q] == Comma
    ensures Run(ks, q, ArrayItemEnd, stack) == Run(ks, q + 1, ArrayItem, stack + [ArrayItemEnd])
  {
    assert Dispatch(ks, q, ArrayItemEnd) == Next(ArrayItem, q + 1);
    RunNext(ks, q, ArrayItemEnd, stack);
  }

  /** The item loop of an array: each item is followed by a comma that leads
      to the next item, and the last one by the closing bracket at e. */
  lemma {:induction false} ItemsRun(ks: seq<TokenType>, p: nat, items: seq<Value>, e: nat, stack: seq<StateType>)
    requires |items| > 0 && AllWellFormed(items) && At(ks, p, Elements(items))
    requires e == p + |Elements(items)| && e < |ks| && ks[e] == RightBracket
    ensures Run(ks, p, ArrayItem, stack + [ArrayItemEnd]) == Run(ks, e, ArrayItemEnd, stack)
    decreases |Elements(items)|, 5
  {
    ItemsAt(ks, p, items);
    assert WellFormed(items[0]) && AllWellFormed(items[1..]);
    if |items| == 1 {
      ItemRun(ks, p, items[0], e, stack);
    } else {
      var q := p + |Tokens(items[0])|;
      assert q + 1 + |Elements(items[1..])| == e;
      ItemRun(ks, p, items[0], q, stack);
      ItemsAfter(ks, q, items[1..], e, stack);
    }
  }

  /** After an item, a comma and further items up to the closing bracket. */
  lemma {:induction false} ItemsAfter(ks: seq<TokenType>, q: nat, items: seq<Value>, e: nat, stack: seq<StateType>)
    requires |items| > 0 && AllWellFormed(items) && q + 1 <= |ks| && ks[q] == Comma
    requires At(ks, q + 1, Elements(items))
    requires e == q + 1 + |Elements(items)| && e < |ks| && ks[e] == RightBracket
    ensures Run(ks, q, ArrayItemEnd, stack) == Run(ks, e, ArrayItemEnd, stack)
    decreases |Elements(items)|, 6
  {
    ItemComma(ks, q, stack);
    ItemsRun(ks, q + 1, items, e, stack);
  }

  /** `parse_object_property` on `"key":` hands over to the value, as an
      array item would. */
  lemma {:induction false} PropertyValue(ks: seq<TokenType>, p: nat, v: Value, stack: seq<StateType>)
    requires WellFormed(v) && p + 2 < |ks| && ks[p] == String && ks[p + 1] == Colon
    requires At(ks, p + 2, Tokens(v))
    ensures Run(ks, p, ObjectProperty, stack) == Run(ks, p + 2, ArrayItem, stack)
  {
    FirstToken(v);
    ValueHead(ks, p + 2, v);
    assert Dispatch(ks, p, ObjectProperty) == ParseValue(ks, p + 2);
    ValueVia(ks, p, ObjectProperty, p + 2, stack);
  }

  /** One `"key": value` member and the `ObjectPropertyEnd` it returns to
      at e. */
  lemma {:induction false} MemberRun(ks: seq<TokenType>, p: nat, v: Value, e: nat, stack: seq<StateType>)
    requires WellFormed(v) && p + 2 <= |ks| && ks[p] == String && ks[p + 1] == Colon
    requires At(ks, p + 2, Tokens(v)) && e == p + 2 + |Tokens(v)| && e < |ks|
    ensures Run(ks, p, ObjectProperty, stack + [ObjectPropertyEnd]) == Run(ks, e, ObjectPropertyEnd, stack)
    decreases |Tokens(v)|, 4
  {
    TokensNonEmpty(v);
    PropertyValue(ks, p, v, stack + [ObjectPropertyEnd]);
    ValueRun(ks, p + 2, v, stack + [ObjectPropertyEnd]);
    PopAfter(ks, p + 2 + |Tokens(v)| - 1, Completes(v), ObjectPropertyEnd, e, stack);
  }

  /** A comma after a member leads to the next member. */
  lemma {:induction false} MemberComma(ks: seq<TokenType>, q: nat, stack: seq<StateType>)
    requires q + 1 < |ks| && ks[q] == Comma
    ensures Run(ks, q, ObjectPropertyEnd, stack) == Run(ks, q + 1, ObjectProperty, stack + [ObjectPropertyEnd])
  {
    assert Dispatch(ks, q, ObjectPropertyEnd) == Next(ObjectProperty, q + 1);
    RunNext(ks, q, ObjectPropertyEnd, stack);
  }

  /** The member loop of an object: each `"key": value` is followed by a
      comma that leads to the next member, and the last one by the closing
      brace at e. */
  lemma {:induction false} MembersRun(ks: seq<TokenType>, p: nat, members: seq<Value>, e: nat, stack: seq<StateType>)
    requires |members| > 0 && AllWellFormed(members) && At(ks, p, Members(members))
    requires e == p + |Members(members)| && e < |ks| && ks[e] == RightBrace
    ensures Run(ks, p, ObjectProperty, stack + [ObjectPropertyEnd]) == Run(ks, e, ObjectPropertyEnd, stack)
    decreases |Members(members)|, 5
  {
    if |members| == 1 {
      MembersAt(ks, p, members);
      MemberRun(ks, p, members[0], e, stack);
    } else {
      MoreMembersRun(ks, p, members, e, stack);
    }
  }

  /** The member loop when a comma follows the first member. */
  lemma {:induction false} MoreMembersRun(ks: seq<TokenType>, p: nat, members: seq<Value>, e: nat, stack: seq<StateType>)
    requires |members| > 1 && AllWellFormed(members) && At(ks, p, Members(members))
    requires e == p + |Members(members)| && e < |ks| && ks[e] == RightBrace
    ensures Run(ks, p, ObjectProperty, stack + [ObjectPropertyEnd]) == Run(ks, e, ObjectPropertyEnd, stack)
    decreases |Members(members)|, 4
  {
    MembersAt(ks, p, members);
    assert WellFormed(members[0]) && AllWellFormed(members[1..]);
    var q := p + 2 + |Tokens(members[0])|;
    assert q + 1 + |Members(members[1..])| == e;
    MemberRun(ks, p, members[0], q, stack);
    MembersAfter(ks, q, members[1..], e, stack);
  }

  /** After a member, a comma and further members up to the closing brace. */
  lemma {:induction false} MembersAfter(ks: seq<TokenType>, q: nat, members: seq<Value>, e: nat, stack: seq<StateType>)
    requires |members| > 0 && AllWellFormed(members) && q + 1 <= |ks| && ks[q] == Comma
    requires At(ks, q + 1, Members(members))
    requires e == q + 1 + |Members(members)| && e < |ks| && ks[e] == RightBrace
    ensures Run(ks, q, ObjectPropertyEnd, stack) == Run(ks, e, ObjectPropertyEnd, stack)
    decreases |Members(members)|, 6
  {
    MemberComma(ks, q, stack);
    MembersRun(ks, q + 1, members, e, stack);
  }

  /** `parse` on a vector opening an array. */
  lemma {:induction false} ParseArrayStart(ks: seq<TokenType>)
    requires |ks| > 0 && ks[0] == LeftBracket
    ensures Parse(ks, []) == Run(ks, 0, Array, [])
  {
  }

  /** `parse` on a vector opening an object. */
  lemma {:induction false} ParseObjectStart(ks: seq<TokenType>)
    requires |ks| > 0 && ks[0] == LeftBrace
    ensures Parse(ks, []) == Run(ks, 0, Object, [])
  {
  }

  /** From the first token of a complete array, the loop reaches `End` on
      the array's last token with an empty stack. */
  lemma {:induction false} ArrayFromStart(ks: seq<TokenType>, items: seq<Value>)
    requires AllWellFormed(items) && At(ks, 0, [LeftBracket] + Elements(items) + [RightBracket])
    ensures 1 + |Elements(items)| < |ks| && ks[0] == LeftBracket
    ensures Run(ks, 0, Array, []) == Outcome(Finish(ks, 1 + |Elements(items)|), [])
  {
    ArrayOpens(ks, 0, items);
    BracketedAt(ks, 0, LeftBracket, Elements(items), RightBracket);
    ValueVia(ks, 0, Array, 0, []);
    ArrayRun(ks, 0, items, []);
    FinishAfter(ks, 1 + |Elements(items)|, ArrayItemEnd);
  }

  /** From the first token of a complete object, the loop reaches `End` on
      the object's last token with an empty stack. */
  lemma {:induction false} ObjectFromStart(ks: seq<TokenType>, members: seq<Value>)
    requires AllWellFormed(members) && At(ks, 0, [LeftBrace] + Members(members) + [RightBrace])
    ensures 1 + |Members(members)| < |ks| && ks[0] == LeftBrace
    ensures Run(ks, 0, Object, []) == Outcome(Finish(ks, 1 + |Members(members)|), [])
  {
    ObjectOpens(ks, 0, members);
    BracketedAt(ks, 0, LeftBrace, Members(members), RightBrace);
    ValueVia(ks, 0, Object, 0, []);
    ObjectRun(ks, 0, members, []);
    FinishAfter(ks, 1 + |Members(members)|, ObjectPropertyEnd);
  }

  /** Parse from a complete object or array at the front of the vector. */
  lemma {:induction false} ValueStartsParse(ks: seq<TokenType>, v: Value)
    requires WellFormed(v) && !v.Literal? && At(ks, 0, Tokens(v))
    ensures |Tokens(v)| <= |ks|
    ensures Parse(ks, []) == Outcome(Finish(ks, |Tokens(v)| - 1), [])
  {
    match v
    case ArrayOf(items) =>
      ArrayFromStart(ks, items);
      ParseArrayStart(ks);
    case ObjectOf(members) =>
      ObjectFromStart(ks, members);
      ParseObjectStart(ks);
  }

  /** Every well-formed object or array is accepted, leaving the stack of a
      fresh analyser empty. */
  lemma {:induction false} ValueAccepted(v: Value)
    requires WellFormed(v) && !v.Literal?
    ensures Parse(Tokens(v), []) == Outcome(Ok, [])
  {
    var ks := Tokens(v);
    AtPrefix(ks, []);
    assert ks + [] == ks;
    ValueStartsParse(ks, v);
    FirstToken(v);
  }

  /** Anything after a complete object or array is rejected as trailing
      tokens (a trailing comma, a second value, a stray closer). */
  lemma {:induction false} TrailingAfterValue(v: Value, rest: seq<TokenType>)
    requires WellFormed(v) && !v.Literal? && |rest| > 0
    ensures Parse(Tokens(v) + rest, []) == Outcome(Err(TrailingTokens), [])
  {
    AtPrefix(Tokens(v), rest);
    ValueStartsParse(Tokens(v) + rest, v);
  }

  /** A value ending on the last token under a pushed end state that sees the
      closer of its own kind there: `advance` stays on the last token, so the
      popped end state completes on the same closer and the parse ends. */
  lemma {:induction false} InnerCloserRun(ks: seq<TokenType>, c: nat, v: Value, top: StateType)
    requires WellFormed(v) && At(ks, c, Tokens(v)) && |ks| == c + |Tokens(v)|
    requires top == ArrayItemEnd || top == ObjectPropertyEnd
    requires top == ArrayItemEnd ==> ks[|ks| - 1] == RightBracket
    requires top == ObjectPropertyEnd ==> ks[|ks| - 1] == RightBrace
    ensures Run(ks, c, ArrayItem, [top]) == Outcome(Ok, [])
  {
    TokensNonEmpty(v);
    var e := c + |Tokens(v)| - 1;
    ValueRun(ks, c, v, [top]);
    CloseAfterValue(ks, c, e, Completes(v), top);
  }

  lemma {:induction false} CloseAfterValue(ks: seq<TokenType>, c: nat, e: nat, s: StateType, top: StateType)
    requires c <= e && e + 1 == |ks| && Live(s) && Dispatch(ks, e, s) == Done(e)
    requires top == ArrayItemEnd || top == ObjectPropertyEnd
    requires top == ArrayItemEnd ==> ks[e] == RightBracket
    requires top == ObjectPropertyEnd ==> ks[e] == RightBrace
    requires Run(ks, c, ArrayItem, [top]) == Run(ks, e, s, [top])
    ensures Run(ks, c, ArrayItem, [top]) == Outcome(Ok, [])
  {
    CloseAtEnd(ks, e, s, top);
  }

  /** A value completed on the last token, with only its parent's end state
      on the stack: the parent is popped, finds its closer there, and the
      parse is accepted. */
  lemma {:induction false} CloseAtEnd(ks: seq<TokenType>, e: nat, s: StateType, top: StateType)
    requires e + 1 == |ks| && Live(s) && Dispatch(ks, e, s) == Done(e)
    requires top == ArrayItemEnd || top == ObjectPropertyEnd
    requires top == ArrayItemEnd ==> ks[e] == RightBracket
    requires top == ObjectPropertyEnd ==> ks[e] == RightBrace
    ensures Run(ks, e, s, [top]) == Outcome(Ok, [])
  {
    assert Advanced(|ks|, e) == e;
    PopAfter(ks, e, s, top, e, []);
    assert [] + [top] == [top];
    assert Dispatch(ks, e, top) == Done(e);
    FinishAfter(ks, e, top);
  }

  /** The closer quirk for arrays, on any vector: `[` followed by a complete
      array is accepted. */
  lemma {:induction false} UnclosedArrayRun(ks: seq<TokenType>, v: Value)
    requires WellFormed(v) && v.ArrayOf? && |ks| > 0 && ks[0] == LeftBracket
    requires At(ks, 1, Tokens(v)) && |ks| == 1 + |Tokens(v)|
    ensures Run(ks, 0, Array, []) == Outcome(Ok, [])
  {
    FirstToken(v);
    AtHead(ks, 1, Tokens(v));
    AtLast(ks, 1, Tokens(v));
    assert Dispatch(ks, 0, Array) == Next(ArrayItem, 1);
    RunNext(ks, 0, Array, []);
    assert [] + [ArrayItemEnd] == [ArrayItemEnd];
    InnerCloserRun(ks, 1, v, ArrayItemEnd);
  }

  /** The closer quirk for arrays: because `advance` does not move off the
      last token, the `]` closing an inner array there also closes the outer
      one, so `[[]` and `[[1,2]` are accepted. */
  lemma {:induction false} UnclosedArrayAccepted(v: Value)
    requires WellFormed(v) && v.ArrayOf?
    ensures Parse([LeftBracket] + Tokens(v), []) == Outcome(Ok, [])
  {
    AtSuffix([LeftBracket], Tokens(v));
    UnclosedArrayRun([LeftBracket] + Tokens(v), v);
  }

  /** The closer quirk for objects, on any vector: `{"key":` followed by a
      complete object is accepted. */
  lemma {:induction false} UnclosedObjectRun(ks: seq<TokenType>, v: Value)
    requires WellFormed(v) && v.ObjectOf? && |ks| > 2
    requires ks[0] == LeftBrace && ks[1] == String && ks[2] == Colon
    requires At(ks, 3, Tokens(v)) && |ks| == 3 + |Tokens(v)|
    ensures Run(ks, 0, Object, []) == Outcome(Ok, [])
  {
    FirstToken(v);
    AtHead(ks, 3, Tokens(v));
    AtLast(ks, 3, Tokens(v));
    assert Dispatch(ks, 0, Object) == Next(ObjectProperty, 1);
    RunNext(ks, 0, Object, []);
    assert [] + [ObjectPropertyEnd] == [ObjectPropertyEnd];
    PropertyValue(ks, 1, v, [ObjectPropertyEnd]);
    InnerCloserRun(ks, 3, v, ObjectPropertyEnd);
  }

  /** The closer quirk for objects: `{"key":` followed by a complete object,
      such as `{"a":{}`, is accepted. */
  lemma {:induction false} UnclosedObjectAccepted(v: Value)
    requires WellFormed(v) && v.ObjectOf?
    ensures Parse([LeftBrace, String, Colon] + Tokens(v), []) == Outcome(Ok, [])
  {
    var ks := [LeftBrace, String, Colon] + Tokens(v);
    AtSuffix([LeftBrace, String, Colon], Tokens(v));
    assert ks[0] == LeftBrace && ks[1] == String && ks[2] == Colon;
    UnclosedObjectRun(ks, v);
  }
}
