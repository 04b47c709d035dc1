/** What `SyntaxAnalyzer::parse` can answer, independent of the grammar: the
    two up-front errors exactly when their conditions hold, `UnexpectedState`
    never, `Ok` only for a vector running from an opener to a closer, and an
    empty stack whenever the loop reaches its final check. */
module ParserProperties {
  import opened JsonTypes
  import opened TokenScanning
  import opened ParserSpec

  /** The answers the loop can give. */
  predicate LoopAnswer(r: ParseResult)
  {
    r == Ok || r == Panic || r == Err(UnexpectedToken) || r == Err(TrailingTokens)
  }

  lemma {:induction false} RunAnswers(ks: seq<TokenType>, c: nat, s: StateType, stack: seq<StateType>)
    requires c < |ks|
    ensures LoopAnswer(Run(ks, c, s, stack).result)
    decreases Measure(ks, c, s, |stack|)
  {
    if Live(s) {
      match Dispatch(ks, c, s)
      case Panicked =>
      case Next(next, c') => RunAnswers(ks, c', next, stack + [Pushed(s, next)]);
      case Done(c') =>
        if |stack| > 0 {
          RunAnswers(ks, Advanced(|ks|, c'), stack[|stack| - 1], stack[..|stack| - 1]);
        } else {
          RunAnswers(ks, c', End, stack);
        }
    }
  }

  /** `EmptyTokens` exactly for the empty vector and `InvalidInitialState`
      exactly when the first token opens neither an object nor an array,
      both leaving the stack alone; the `UnexpectedState` arm is never
      reached, since the loop turns `Invalid` into `UnexpectedToken` and stops
      at `End` before dispatching. */
  lemma ParseErrors(ks: seq<TokenType>, stack: seq<StateType>)
    ensures Parse(ks, stack).result == Err(EmptyTokens) <==> |ks| == 0
    ensures Parse(ks, stack).result == Err(InvalidInitialState) <==>
      (|ks| > 0 && ks[0] != LeftBrace && ks[0] != LeftBracket)
    ensures (Parse(ks, stack).result == Err(EmptyTokens) ||
             Parse(ks, stack).result == Err(InvalidInitialState)) ==> Parse(ks, stack).stack == stack
    ensures Parse(ks, stack).result != Err(UnexpectedState)
  {
    if |ks| > 0 && InitialState(ks[0]) != Invalid {
      RunAnswers(ks, 0, InitialState(ks[0]), stack);
    }
  }

  lemma {:induction false} RunOkEndsOnCloser(ks: seq<TokenType>, c: nat, s: StateType, stack: seq<StateType>)
    requires c < |ks|
    ensures Run(ks, c, s, stack).result == Ok ==>
      ks[|ks| - 1] == RightBrace || ks[|ks| - 1] == RightBracket
    decreases Measure(ks, c, s, |stack|)
  {
    if Live(s) {
      match Dispatch(ks, c, s)
      case Panicked =>
      case Next(next, c') => RunOkEndsOnCloser(ks, c', next, stack + [Pushed(s, next)]);
      case Done(c') =>
        if |stack| > 0 {
          RunOkEndsOnCloser(ks, Advanced(|ks|, c'), stack[|stack| - 1], stack[..|stack| - 1]);
        } else {
          RunOkEndsOnCloser(ks, c', End, stack);
        }
    }
  }

  /** An accepted vector starts with `{` or `[` and ends with `}` or `]`. */
  lemma OkShape(ks: seq<TokenType>, stack: seq<StateType>)
    ensures Parse(ks, stack).result == Ok ==>
      |ks| >= 2 &&
      (ks[0] == LeftBrace || ks[0] == LeftBracket) &&
      (ks[|ks| - 1] == RightBrace || ks[|ks| - 1] == RightBracket)
  {
    if |ks| > 0 && InitialState(ks[0]) != Invalid {
      RunOkEndsOnCloser(ks, 0, InitialState(ks[0]), stack);
    }
  }

  lemma {:induction false} RunFinishesEmpty(ks: seq<TokenType>, c: nat, s: StateType, stack: seq<StateType>)
    requires c < |ks| && End !in stack
    ensures var o := Run(ks, c, s, stack);
      s != End && (o.result == Ok || o.result == Err(TrailingTokens)) ==> o.stack == []
    decreases Measure(ks, c, s, |stack|)
  {
    if Live(s) {
      match Dispatch(ks, c, s)
      case Panicked =>
      case Next(next, c') =>
        var stack' := stack + [Pushed(s, next)];
        assert End !in stack';
        RunFinishesEmpty(ks, c', next, stack');
      case Done(c') =>
        if |stack| > 0 {
          var top, rest := stack[|stack| - 1], stack[..|stack| - 1];
          assert stack == rest + [top];
          RunFinishesEmpty(ks, Advanced(|ks|, c'), top, rest);
        }
    }
  }

  /** The stack discipline: every continuation the loop pushes is popped
      again before the final check, so from a stack without `End` (in
      particular a fresh analyser's empty one) an accepted parse, and one
      rejected only for trailing tokens, leave the stack empty. */
  lemma OkLeavesStackEmpty(ks: seq<TokenType>, stack: seq<StateType>)
    requires End !in stack
    ensures Parse(ks, stack).result == Ok ==> Parse(ks, stack).stack == []
    ensures Parse(ks, stack).result == Err(TrailingTokens) ==> Parse(ks, stack).stack == []
  {
    if |ks| > 0 && InitialState(ks[0]) != Invalid {
      RunFinishesEmpty(ks, 0, InitialState(ks[0]), stack);
    }
  }
}
