/** The syntax analyser as functions over the token kinds: one function per
    state handler, one step of the driving loop, and the whole run. The
    scanner cursor is threaded through explicitly; `advance` is
    `TokenScanning.Advanced`, and `advance().unwrap()` on the last token is
    a panic. */
module ParserSpec {
  import opened JsonTypes
  import opened TokenScanning

  datatype StateType =
    | Object | ObjectProperty | ObjectPropertyEnd
    | Array | ArrayItem | ArrayItemEnd
    | Invalid | End

  datatype ErrorType =
    | EmptyTokens | InvalidInitialState | UnexpectedToken | UnexpectedState | TrailingTokens

  /** `Ok(())`, `Err(kind)`, or a panic from unwrapping a `None`. */
  datatype ParseResult = Ok | Err(error: ErrorType) | Panic

  /** What a handler returns, with the cursor it leaves behind:
      `Some(state)`, `None`, or a panic. */
  datatype Handled = Next(state: StateType, cursor: nat) | Done(cursor: nat) | Panicked

  /** The result of `parse` and the analyser's stack afterwards. */
  datatype Outcome = Outcome(result: ParseResult, stack: seq<StateType>)

  /** A state the loop dispatches on a handler. */
  predicate Live(s: StateType)
  {
    s != Invalid && s != End
  }

  /** The kinds of a token vector, which is all the analyser looks at. */
  function Kinds(ts: seq<Token>): (ks: seq<TokenType>)
    ensures |ks| == |ts|
    ensures forall i :: 0 <= i < |ts| ==> ks[i] == ts[i].tokenType
  {
    seq(|ts|, i requires 0 <= i < |ts| => ts[i].tokenType)
  }

  // ---------------------------------------------------------------------
  // Handlers

  /** `parse_object`: on `{`, look at the next token: `}` closes the empty
      object, a string starts a property. */
  function ParseObject(ks: seq<TokenType>, c: nat): (h: Handled)
    requires c < |ks|
  {
    if ks[c] != LeftBrace then Next(Invalid, c)
    else if AtEnd(|ks|, c) then Panicked
    else match ks[c + 1]
      case RightBrace => Done(c + 1)
      case String => Next(ObjectProperty, c + 1)
      case _ => Next(Invalid, c + 1)
  }

  /** `parse_array`: on `[`, look at the next token: `]` closes the empty
      array, a comma is invalid, anything else starts an item. */
  function ParseArray(ks: seq<TokenType>, c: nat): (h: Handled)
    requires c < |ks|
  {
    if ks[c] != LeftBracket then Next(Invalid, c)
    else if AtEnd(|ks|, c) then Panicked
    else match ks[c + 1]
      case RightBracket => Done(c + 1)
      case Comma => Next(Invalid, c + 1)
      case _ => Next(ArrayItem, c + 1)
  }

  /** `parse_value`: an object, an array, or a literal, which is complete. */
  function ParseValue(ks: seq<TokenType>, c: nat): (h: Handled)
    requires c < |ks|
  {
    if ks[c] == LeftBrace then ParseObject(ks, c)
    else if ks[c] == LeftBracket then ParseArray(ks, c)
    else if IsLiteral(ks[c]) then Done(c)
    else Next(Invalid, c)
  }

  /** `parse_object_property`: a string key, a colon, then a value. */
  function ParseObjectProperty(ks: seq<TokenType>, c: nat): (h: Handled)
    requires c < |ks|
  {
    if ks[c] != String then Next(Invalid, c)
    else if AtEnd(|ks|, c) then Panicked
    else if ks[c + 1] != Colon then Next(Invalid, c + 1)
    else if AtEnd(|ks|, c + 1) then Panicked
    else ParseValue(ks, c + 2)
  }

  /** `parse_object_property_end`: a comma (advanced over, if possible) leads
      to another property, `}` ends the object. */
  function ParseObjectPropertyEnd(ks: seq<TokenType>, c: nat): (h: Handled)
    requires c < |ks|
  {
    if ks[c] == Comma then Next(ObjectProperty, Advanced(|ks|, c))
    else if ks[c] == RightBrace then Done(c)
    else Next(Invalid, c)
  }

  /** `parse_array_item_end`: a comma (advanced over, if possible) leads to
      another item, `]` ends the array. */
  function ParseArrayItemEnd(ks: seq<TokenType>, c: nat): (h: Handled)
    requires c < |ks|
  {
    if ks[c] == Comma then Next(ArrayItem, Advanced(|ks|, c))
    else if ks[c] == RightBracket then Done(c)
    else Next(Invalid, c)
  }

  // ---------------------------------------------------------------------
  // The driving loop

  /** Weight of a state in the termination measure of the loop: a comma under
      an end state still has to be consumed. */
  function Rank(s: StateType, k: TokenType): nat
  {
    if !Live(s) then 0
    else if (s == ObjectPropertyEnd || s == ArrayItemEnd) && k == Comma then 6
    else 3
  }

  /** Goes down on every turn of the loop. */
  function Measure(ks: seq<TokenType>, c: nat, s: StateType, depth: nat): nat
    requires c < |ks|
  {
    8 * (|ks| - c) + 2 * depth + Rank(s, ks[c])
  }

  /** The handler the loop calls for a live state. A handler never moves the
      cursor back and stays on the vector; it may stay put only to report
      `Invalid` or to follow an unconsumed comma, and when it reports
      completion the cursor is not on a comma. */
  function Dispatch(ks: seq<TokenType>, c: nat, s: StateType): (h: Handled)
    requires c < |ks| && Live(s)
    ensures h.Next? ==> (c <= h.cursor < |ks| &&
      8 * h.cursor + Rank(s, ks[c]) > 8 * c + 2 + Rank(h.state, ks[h.cursor]))
    ensures h.Done? ==> c <= h.cursor < |ks| && ks[h.cursor] != Comma
  {
    match s
    case Object => ParseObject(ks, c)
    case ObjectProperty => ParseObjectProperty(ks, c)
    case ObjectPropertyEnd => ParseObjectPropertyEnd(ks, c)
    case Array => ParseArray(ks, c)
    case ArrayItem => ParseValue(ks, c)
    case ArrayItemEnd => ParseArrayItemEnd(ks, c)
  }

  /** The continuation pushed when a handler names the next state. */
  function Pushed(s: StateType, next: StateType): StateType
  {
    if next == ObjectProperty then ObjectPropertyEnd
    else if next == ArrayItem then ArrayItemEnd
    else s
  }

  /** The check after the loop: the cursor must rest on the last token, and
      that token must close an object or an array. */
  function Finish(ks: seq<TokenType>, c: nat): ParseResult
    requires c < |ks|
  {
    if !AtEnd(|ks|, c) || (ks[c] != RightBrace && ks[c] != RightBracket) then Err(TrailingTokens)
    else Ok
  }

  /** The loop `while state != End`, from cursor c in state s with the given
      stack, to the result and the stack left behind. */
  function Run(ks: seq<TokenType>, c: nat, s: StateType, stack: seq<StateType>): Outcome
    requires c < |ks|
    decreases Measure(ks, c, s, |stack|)
  {
    if s == End then Outcome(Finish(ks, c), stack)
    else if s == Invalid then Outcome(Err(UnexpectedToken), stack)
    else match Dispatch(ks, c, s)
      case Panicked => Outcome(Panic, stack)
      case Next(next, c') => Run(ks, c', next, stack + [Pushed(s, next)])
      case Done(c') =>
        if |stack| > 0 then
          Run(ks, Advanced(|ks|, c'), stack[|stack| - 1], stack[..|stack| - 1])
        else
          Run(ks, c', End, stack)
  }

  /** The state the first token selects. */
  function InitialState(k: TokenType): StateType
  {
    match k
    case LeftBrace => Object
    case LeftBracket => Array
    case _ => Invalid
  }

  /** `SyntaxAnalyzer::parse` on an analyser whose stack is `stack`: the
      stack is never cleared, so it carries over from earlier calls. */
  function Parse(ks: seq<TokenType>, stack: seq<StateType>): Outcome
  {
    if |ks| == 0 then Outcome(Err(EmptyTokens), stack)
    else if InitialState(ks[0]) == Invalid then Outcome(Err(InvalidInitialState), stack)
    else Run(ks, 0, InitialState(ks[0]), stack)
  }
}
