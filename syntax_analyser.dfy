/** `SyntaxAnalyzer`: the pushdown automaton that validates the token vector,
    with its stack as a field that `parse` pushes and pops, and handlers that
    move a `TokenScanner`. Each handler and `parse` itself are proved equal
    to the functions of ParserSpec. */
module SyntaxAnalysis {
  import opened JsonTypes
  import opened TokenScanning
  import opened ParserSpec

  /** What a handler method promises: the spec handler's answer, and the
      scanner left where the answer says. */
  ghost predicate Answers(scanner: TokenScanner, h: Handled, spec: Handled)
    reads scanner
  {
    scanner.Valid() && h == spec && (!h.Panicked? ==> scanner.cursor == h.cursor)
  }

  /** `parse_object`. */
  method ParseObjectAt(scanner: TokenScanner) returns (h: Handled)
    requires scanner.Valid() && scanner.length > 0
    modifies scanner
    ensures Answers(scanner, h, ParseObject(Kinds(scanner.tokens), old(scanner.cursor)))
  {
    var current := scanner.Current();
    if current.tokenType != LeftBrace {
      return Next(Invalid, scanner.cursor);
    }
    var next := scanner.Advance();
    if next.None? {
      return Panicked;
    }
    match next.value.tokenType
    case RightBrace => h := Done(scanner.cursor);
    case String => h := Next(ObjectProperty, scanner.cursor);
    case _ => h := Next(Invalid, scanner.cursor);
  }

  /** `parse_array`. */
  method ParseArrayAt(scanner: TokenScanner) returns (h: Handled)
    requires scanner.Valid() && scanner.length > 0
    modifies scanner
    ensures Answers(scanner, h, ParseArray(Kinds(scanner.tokens), old(scanner.cursor)))
  {
    var current := scanner.Current();
    if current.tokenType != LeftBracket {
      return Next(Invalid, scanner.cursor);
    }
    var next := scanner.Advance();
    if next.None? {
      return Panicked;
    }
    match next.value.tokenType
    case RightBracket => h := Done(scanner.cursor);
    case Comma => h := Next(Invalid, scanner.cursor);
    case _ => h := Next(ArrayItem, scanner.cursor);
  }

  /** `parse_value`. */
  method ParseValueAt(scanner: TokenScanner) returns (h: Handled)
    requires scanner.Valid() && scanner.length > 0
    modifies scanner
    ensures Answers(scanner, h, ParseValue(Kinds(scanner.tokens), old(scanner.cursor)))
  {
    var current := scanner.Current();
    if current.tokenType == LeftBrace {
      h := ParseObjectAt(scanner);
      return;
    }
    if current.tokenType == LeftBracket {
      h := ParseArrayAt(scanner);
      return;
    }
    if IsLiteral(current.tokenType) {
      return Done(scanner.cursor);
    }
    return Next(Invalid, scanner.cursor);
  }

  /** `parse_object_property`. */
  method ParseObjectPropertyAt(scanner: TokenScanner) returns (h: Handled)
    requires scanner.Valid() && scanner.length > 0
    modifies scanner
    ensures Answers(scanner, h, ParseObjectProperty(Kinds(scanner.tokens), old(scanner.cursor)))
  {
    var current := scanner.Current();
    if current.tokenType != String {
      return Next(Invalid, scanner.cursor);
    }
    var next := scanner.Advance();
    if next.None? {
      return Panicked;
    }
    if next.value.tokenType != Colon {
      return Next(Invalid, scanner.cursor);
    }
    next := scanner.Advance();
    if next.None? {
      return Panicked;
    }
    h := ParseValueAt(scanner);
  }

  /** `parse_object_property_end`. */
  method ParseObjectPropertyEndAt(scanner: TokenScanner) returns (h: Handled)
    requires scanner.Valid() && scanner.length > 0
    modifies scanner
    ensures Answers(scanner, h, ParseObjectPropertyEnd(Kinds(scanner.tokens), old(scanner.cursor)))
  {
    var current := scanner.Current();
    if current.tokenType == Comma {
      var _ := scanner.Advance();
      return Next(ObjectProperty, scanner.cursor);
    } else if current.tokenType == RightBrace {
      return Done(scanner.cursor);
    }
    return Next(Invalid, scanner.cursor);
  }

  /** `parse_array_item_end`. */
  method ParseArrayItemEndAt(scanner: TokenScanner) returns (h: Handled)
    requires scanner.Valid() && scanner.length > 0
    modifies scanner
    ensures Answers(scanner, h, ParseArrayItemEnd(Kinds(scanner.tokens), old(scanner.cursor)))
  {
    var current := scanner.Current();
    if current.tokenType == Comma {
      var _ := scanner.Advance();
      return Next(ArrayItem, scanner.cursor);
    } else if current.tokenType == RightBracket {
      return Done(scanner.cursor);
    }
    return Next(Invalid, scanner.cursor);
  }

  /** The `match state` of the loop: the handler for a live state. */
  method DispatchAt(scanner: TokenScanner, state: StateType) returns (h: Handled)
    requires scanner.Valid() && scanner.length > 0 && Live(state)
    modifies scanner
    ensures Answers(scanner, h, Dispatch(Kinds(scanner.tokens), old(scanner.cursor), state))
  {
    match state {
      case Object => h := ParseObjectAt(scanner);
      case ObjectProperty => h := ParseObjectPropertyAt(scanner);
      case ObjectPropertyEnd => h := ParseObjectPropertyEndAt(scanner);
      case Array => h := ParseArrayAt(scanner);
      case ArrayItem => h := ParseValueAt(scanner);
      case ArrayItemEnd => h := ParseArrayItemEndAt(scanner);
    }
  }

  class SyntaxAnalyzer {
    var stack: seq<StateType>

    constructor()
      ensures stack == []
    {
      stack := [];
    }

    /** `parse`: the result and the stack left behind are those of
        ParserSpec.Parse, started from the stack the analyser already held. */
    method Parse(tokens: seq<Token>) returns (r: ParseResult)
      modifies this
      ensures Outcome(r, stack) == ParserSpec.Parse(Kinds(tokens), old(stack))
    {
      ghost var ks := Kinds(tokens);
      if |tokens| == 0 {
        return Err(EmptyTokens);
      }
      var scanner := new TokenScanner(tokens);
      var first := scanner.Current();
      var state: StateType;
      match first.tokenType {
        case LeftBrace => state := Object;
        case LeftBracket => state := Array;
        case _ => state := Invalid;
      }
      if state == Invalid {
        return Err(InvalidInitialState);
      }
      while state != End
        invariant scanner.Valid() && scanner.tokens == tokens && scanner.length > 0
        invariant Run(ks, scanner.cursor, state, stack) == ParserSpec.Parse(ks, old(stack))
        decreases Measure(ks, scanner.cursor, state, |stack|)
      {
        if state == Invalid {
          return Err(UnexpectedToken);
        }
        var h := DispatchAt(scanner, state);
        if h.Panicked? {
          return Panic;
        }
        if h.Next? {
          var next := h.state;
          if next == ObjectProperty {
            stack := stack + [ObjectPropertyEnd];
          } else if next == ArrayItem {
            stack := stack + [ArrayItemEnd];
          } else {
            stack := stack + [state];
          }
          state := next;
        } else if |stack| > 0 {
          var _ := scanner.Advance();
          state := stack[|stack| - 1];
          stack := stack[..|stack| - 1];
        } else {
          state := End;
        }
      }
      var current := scanner.Current();
      if !scanner.IsAtEnd() || (current.tokenType != RightBrace && current.tokenType != RightBracket) {
        return Err(TrailingTokens);
      }
      return Ok;
    }
  }
}
