/** The analyser's unit tests, and its quirks, as facts about
    `ParserSpec.Parse` on the token kinds of each test vector, always on a
    fresh analyser (empty stack) unless said otherwise. */
module ParserExamples {
  import opened JsonTypes
  import opened ParserSpec
  import opened ParserGrammar

  /** The up-front rejections: no tokens, and a first token that opens
      neither an object nor an array. */
  lemma UpFrontErrors()
    ensures Parse([], []) == Outcome(Err(EmptyTokens), [])
    ensures Parse([Boolean], []) == Outcome(Err(InvalidInitialState), [])
  {
  }

  /** `{}`, `{"test": "value"}` and `{"test": "value", "test2": "1"}`. */
  lemma FlatObjectsAccepted()
    ensures Parse([LeftBrace, RightBrace], []) == Outcome(Ok, [])
    ensures Parse([LeftBrace, String, Colon, String, RightBrace], []) == Outcome(Ok, [])
    ensures Parse([LeftBrace, String, Colon, String, Comma, String, Colon, String, RightBrace], []) ==
            Outcome(Ok, [])
  {
    var s := Literal(String);
    assert Tokens(s) == [String];
    var e := ObjectOf([]);
    assert Tokens(e) == [LeftBrace, RightBrace];
    ValueAccepted(e);
    var one := ObjectOf([s]);
    assert Members([s]) == [String, Colon, String];
    assert Tokens(one) == [LeftBrace, String, Colon, String, RightBrace];
    ValueAccepted(one);
    TwoMemberObject();
    ValueAccepted(ObjectOf([s, s]));
  }

  /** The object `{"test": "value", "test2": "value2"}` and its tokens. */
  lemma TwoMemberObject()
    ensures WellFormed(ObjectOf([Literal(String), Literal(String)]))
    ensures Tokens(ObjectOf([Literal(String), Literal(String)])) ==
            [LeftBrace, String, Colon, String, Comma, String, Colon, String, RightBrace]
  {
    var s := Literal(String);
    assert Tokens(s) == [String];
    assert [s, s][1..] == [s] && [s][1..] == [];
    assert Members([s]) == [String, Colon, String];
    assert Members([s, s]) == [String, Colon, String, Comma, String, Colon, String];
    assert AllWellFormed([s]);
    assert AllWellFormed([s, s]);
  }

  /** `{"the key": {"test": "value", "test2": "value2"}}`. */
  lemma NestedObjectAccepted()
    ensures Parse([LeftBrace, String, Colon,
                   LeftBrace, String, Colon, String, Comma, String, Colon, String, RightBrace,
                   RightBrace], []) == Outcome(Ok, [])
  {
    var inner := ObjectOf([Literal(String), Literal(String)]);
    TwoMemberObject();
    var outer := ObjectOf([inner]);
    assert [inner][1..] == [] && AllWellFormed([inner]);
    assert Members([inner]) == [String, Colon] + Tokens(inner);
    assert Tokens(outer) == [LeftBrace, String, Colon,
                             LeftBrace, String, Colon, String, Comma, String, Colon, String, RightBrace,
                             RightBrace];
    ValueAccepted(outer);
  }

  /** `[]`, `["test"]`, `[["test"]]` and `[{}]`. */
  lemma SmallArraysAccepted()
    ensures Parse([LeftBracket, RightBracket], []) == Outcome(Ok, [])
    ensures Parse([LeftBracket, String, RightBracket], []) == Outcome(Ok, [])
    ensures Parse([LeftBracket, LeftBracket, String, RightBracket, RightBracket], []) == Outcome(Ok, [])
    ensures Parse([LeftBracket, LeftBrace, RightBrace, RightBracket], []) == Outcome(Ok, [])
  {
    var s := Literal(String);
    assert Tokens(s) == [String];
    var e := ArrayOf([]);
    assert Tokens(e) == [LeftBracket, RightBracket];
    ValueAccepted(e);
    var one := ArrayOf([s]);
    assert Tokens(one) == [LeftBracket, String, RightBracket];
    ValueAccepted(one);
    var nested := ArrayOf([one]);
    assert WellFormed(one) && AllWellFormed([one]);
    assert Tokens(nested) == [LeftBracket, LeftBracket, String, RightBracket, RightBracket];
    ValueAccepted(nested);
    var eo := ObjectOf([]);
    assert Tokens(eo) == [LeftBrace, RightBrace];
    var withObject := ArrayOf([eo]);
    assert WellFormed(eo) && AllWellFormed([eo]);
    assert Tokens(withObject) == [LeftBracket, LeftBrace, RightBrace, RightBracket];
    ValueAccepted(withObject);
  }

  /** `["test", [], {"test": 123}]`. */
  lemma MixedArrayAccepted()
    ensures Parse([LeftBracket, String, Comma, LeftBracket, RightBracket, Comma,
                   LeftBrace, String, Colon, Number, RightBrace, RightBracket], []) == Outcome(Ok, [])
  {
    var s := Literal(String);
    var a := ArrayOf([]);
    var o := ObjectOf([Literal(Number)]);
    assert Tokens(s) == [String];
    assert Tokens(a) == [LeftBracket, RightBracket];
    assert Tokens(Literal(Number)) == [Number];
    assert Members([Literal(Number)]) == [String, Colon, Number];
    assert Tokens(o) == [LeftBrace, String, Colon, Number, RightBrace];
    var items := [s, a, o];
    assert items[1..] == [a, o] && [a, o][1..] == [o];
    assert Elements([o]) == Tokens(o);
    assert Elements([a, o]) == Tokens(a) + [Comma] + Elements([o]);
    assert Elements(items) == Tokens(s) + [Comma] + Elements([a, o]);
    assert WellFormed(o) && AllWellFormed([o]) && AllWellFormed([a, o]) && AllWellFormed(items);
    var v := ArrayOf(items);
    assert Tokens(v) == [LeftBracket, String, Comma, LeftBracket, RightBracket, Comma,
                         LeftBrace, String, Colon, Number, RightBrace, RightBracket];
    ValueAccepted(v);
  }

  /** `[[], []]`. */
  lemma TwoDimensionalArrayAccepted()
    ensures Parse([LeftBracket, LeftBracket, RightBracket, Comma, LeftBracket, RightBracket, RightBracket], []) ==
            Outcome(Ok, [])
  {
    var a := ArrayOf([]);
    assert Tokens(a) == [LeftBracket, RightBracket];
    assert [a, a][1..] == [a];
    assert Elements([a, a]) == Tokens(a) + [Comma] + Elements([a]);
    assert AllWellFormed([a, a]);
    var v := ArrayOf([a, a]);
    assert Tokens(v) == [LeftBracket, LeftBracket, RightBracket, Comma, LeftBracket, RightBracket, RightBracket];
    ValueAccepted(v);
  }

  /** `["test"],` is rejected for its trailing comma. */
  lemma TrailingCommaRejected()
    ensures Parse([LeftBracket, String, RightBracket, Comma], []) == Outcome(Err(TrailingTokens), [])
  {
    var v := ArrayOf([Literal(String)]);
    assert Tokens(Literal(String)) == [String];
    assert Tokens(v) + [Comma] == [LeftBracket, String, RightBracket, Comma];
    TrailingAfterValue(v, [Comma]);
  }

  /** `{"test": "value"` without its closing brace: the member's end state
      meets a string, so the token is unexpected, and the end state pushed
      for that step is left on the analyser's stack. */
  lemma UnclosedObjectRejected()
    ensures Parse([LeftBrace, String, Colon, String], []) ==
            Outcome(Err(UnexpectedToken), [ObjectPropertyEnd])
  {
    var ks := [LeftBrace, String, Colon, String];
    assert Dispatch(ks, 0, Object) == Next(ObjectProperty, 1);
    RunNext(ks, 0, Object, []);
    assert [] + [ObjectPropertyEnd] == [ObjectPropertyEnd];
    UnclosedObjectTail();
  }

  /** The member of `{"test": "value"` ends on the last string, where the
      end state of the object meets it. */
  lemma UnclosedObjectTail()
    ensures Run([LeftBrace, String, Colon, String], 1, ObjectProperty, [ObjectPropertyEnd]) ==
            Outcome(Err(UnexpectedToken), [ObjectPropertyEnd])
  {
    var ks := [LeftBrace, String, Colon, String];
    assert Dispatch(ks, 1, ObjectProperty) == Done(3);
    assert [] + [ObjectPropertyEnd] == [ObjectPropertyEnd];
    PopFrom(ks, 1, ObjectProperty, 3, ObjectPropertyEnd, []);
    assert Dispatch(ks, 3, ObjectPropertyEnd) == Next(Invalid, 3);
    RunNext(ks, 3, ObjectPropertyEnd, []);
  }

  /** The analyser never clears its stack, so one that was left holding an
      end state rejects even `[]`: closing the array pops the stale state,
      which meets the bracket. */
  lemma StaleStackRejectsEmptyArray()
    ensures Parse([LeftBracket, RightBracket], [ObjectPropertyEnd]) ==
            Outcome(Err(UnexpectedToken), [ObjectPropertyEnd])
  {
    var ks := [LeftBracket, RightBracket];
    assert Dispatch(ks, 0, Array) == Done(1);
    assert [] + [ObjectPropertyEnd] == [ObjectPropertyEnd];
    PopFrom(ks, 0, Array, 1, ObjectPropertyEnd, []);
    assert Dispatch(ks, 1, ObjectPropertyEnd) == Next(Invalid, 1);
    RunNext(ks, 1, ObjectPropertyEnd, []);
  }

  /** A lone `[` panics on unwrapping the missing next token. */
  lemma LoneOpenerPanics()
    ensures Parse([LeftBracket], []) == Outcome(Panic, [])
  {
    var ks := [LeftBracket];
    assert Dispatch(ks, 0, Array) == Panicked;
  }

  /** `{"a":` cut short after the colon panics the same way, with the end
      state of the member already pushed. */
  lemma TruncatedMemberPanics()
    ensures Parse([LeftBrace, String, Colon], []) == Outcome(Panic, [ObjectPropertyEnd])
  {
    var ks := [LeftBrace, String, Colon];
    assert Dispatch(ks, 0, Object) == Next(ObjectProperty, 1);
    RunNext(ks, 0, Object, []);
    assert [] + [ObjectPropertyEnd] == [ObjectPropertyEnd];
    assert Dispatch(ks, 1, ObjectProperty) == Panicked;
  }

  /** The closer quirk: `[[]` and `{"a": {}` are accepted. */
  lemma UnclosedButAccepted()
    ensures Parse([LeftBracket, LeftBracket, RightBracket], []) == Outcome(Ok, [])
    ensures Parse([LeftBrace, String, Colon, LeftBrace, RightBrace], []) == Outcome(Ok, [])
  {
    var a := ArrayOf([]);
    assert Tokens(a) == [LeftBracket, RightBracket];
    UnclosedArrayAccepted(a);
    assert [LeftBracket] + Tokens(a) == [LeftBracket, LeftBracket, RightBracket];
    var o := ObjectOf([]);
    assert Tokens(o) == [LeftBrace, RightBrace];
    UnclosedObjectAccepted(o);
    assert [LeftBrace, String, Colon] + Tokens(o) == [LeftBrace, String, Colon, LeftBrace, RightBrace];
  }
}
