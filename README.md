# Coding-challenge tools: JSON validator, Huffman coder, word counter, field cutter

This project models, in Dafny, the core of four small command-line tools:

- **JSON validator** (`challenge-2/json-parser`). A hand-written lexer walks the source text with a `SourceScanner` cursor. It turns the text into `Token`s or stops at the first `ScanError`. A stack-driven `SyntaxAnalyzer` then walks the tokens with a `TokenScanner`. It answers `Ok` or one of five error kinds.
- **Huffman coder** (`challenge-3/compression`). `compress` does four things in order:
  - counts characters;
  - builds a Huffman tree from a min-frequency queue;
  - derives the code table with an explicit stack;
  - packs the code bits into bytes.

  `decompress` rebuilds a decoding table from the header and reads the bits back, one pattern at a time.
- **Word counter** (`challange-1/ccwc`). It reads 1024-byte buffers and counts lines, words, UTF-8 characters and bytes. A word boundary is carried from one buffer to the next through the buffer's last byte.
- **Field cutter** (`challenge-4/cut`). For every line of the content, it picks the 1-based fields listed in `field_indices`. A missing field becomes `-`.

The source's state-changing code is modelled as imperative Dafny:
- the two scanner classes and the analyser's stack;
- the lexer's `match_*` functions;
- the loops of `encode`, `decompress`, `build_encoding_table`, `build_tree`, `process_buffer`, `process_reader` and `cut`.

Each method is proved equal to a pure specification function. The properties the tools promise are proved as lemmas about those functions:
- the JSON number and string grammars the lexer accepts;
- every well-formed object or array is accepted and anything after one is rejected, together with the unclosed and stale-stack quirks listed in the table (acceptance is not characterised exactly: no lemma states that every accepted stream has one of these shapes);
- Huffman prefix-freeness and decoding;
- word counts splitting across buffers;
- `split`/`join` round trips.

Panics of the source (an `unwrap` on `None`, an index or subtraction out of range) are modelled as explicit outcomes (`LexPanic`, `Panic`, `Panicked`, `Underflow`, `None`). They are never excluded by preconditions, except where a row or a line below says so.

Modules: `JsonTypes`, `SourceScanning`, `TokenScanning`, `LexerSpec`, `Lexer`, `LexerGrammar`, `LexerProperties`, `LexerExamples`, `ParserSpec`, `SyntaxAnalysis`, `ParserProperties`, `ParserGrammar`, `ParserExamples`, `HuffmanTree`, `HuffmanCode`, `HuffmanRepair`, `WordCount`, `FieldCut`.

## Model

| member | source | states |
|---|---|---|
| JsonTypes.IsLiteral | challenge-2/json-parser/src/parser/types.rs:17-25 | a token kind is a literal exactly when it is none of the six punctuation kinds |
| JsonTypes.NatToString | challenge-2/json-parser/src/parser/types.rs:52-60 | a counter renders as a non-empty string of decimal digits |
| JsonTypes.DigitRun | challenge-2/json-parser/src/parser/types.rs:52-60 | the digit run at the head of a string is maximal: every char before it is a digit and the next is not |
| JsonTypes.DigitsValueOfNatToString | challenge-2/json-parser/src/parser/types.rs:52-60 | reading the decimal rendering of n gives n back |
| JsonTypes.ReadNatRoundTrip | challenge-2/json-parser/src/parser/types.rs:52-60 | a rendered counter followed by a non-digit is read back as the same counter, leaving the rest |
| JsonTypes.ErrorColumns | challenge-2/json-parser/src/parser/types.rs:71-83 | the error's columns are its start and end offsets minus the offset where its line starts |
| JsonTypes.HeaderRoundTrip | challenge-2/json-parser/src/parser/types.rs:52-83 | the `[line L, position A..B]` header parses back to (L, A, B) |
| JsonTypes.TokenDisplayHeader | challenge-2/json-parser/src/parser/types.rs:52-60 | a displayed token shows its own line and its start and end offsets |
| JsonTypes.ScanErrorDisplayHeader | challenge-2/json-parser/src/parser/types.rs:71-83 | a displayed scan error shows its line and its columns relative to the line start |
| JsonTypes.TokenDisplay | challenge-2/json-parser/src/parser/types.rs:52-60 | definition: the `[line L, position A..B] kind "lexeme"` rendering of a token |
| JsonTypes.ScanErrorDisplay | challenge-2/json-parser/src/parser/types.rs:71-83 | definition: the `[line L, position A..B] Error: message "lexeme"` rendering, with columns relative to the line start |
| SourceScanning.LineStartAt | challenge-2/json-parser/src/parser/source_scanner.rs:39-48 | the line start is the offset just after the last newline before the cursor, or 0 |
| SourceScanning.PeekAt | challenge-2/json-parser/src/parser/source_scanner.rs:30-35 | peeking gives the char under the cursor, or NUL at the end |
| SourceScanning.SkipWs | challenge-2/json-parser/src/parser/source_scanner.rs:49-58 | skipping stops at the first char that is not space, CR, tab or LF, having passed only such chars |
| SourceScanning.SourceScanner.constructor | challenge-2/json-parser/src/parser/source_scanner.rs:17-29 | a new scanner is at offset 0 on line 1, with no tokens and no errors |
| SourceScanning.SourceScanner.IsAtEnd | challenge-2/json-parser/src/parser/source_scanner.rs:36-38 | the scanner is at its end exactly when the cursor has reached the text's length |
| SourceScanning.SourceScanner.Peek | challenge-2/json-parser/src/parser/source_scanner.rs:30-35 | NUL at the end, otherwise the char under the cursor |
| SourceScanning.SourceScanner.Advance | challenge-2/json-parser/src/parser/source_scanner.rs:39-48 | returns the char under the cursor and moves one step; a newline bumps the line and moves the line start to the cursor; nothing else changes |
| SourceScanning.SourceScanner.SkipWhitespace | challenge-2/json-parser/src/parser/source_scanner.rs:49-58 | the cursor moves to the end of the whitespace run and the token start follows it |
| SourceScanning.SourceScanner.AddToken | challenge-2/json-parser/src/parser/source_scanner.rs:59-68 | appends one token whose lexeme is the text between the token start and the cursor |
| SourceScanning.SourceScanner.ReportError | challenge-2/json-parser/src/parser/source_scanner.rs:69-81 | builds the scan error for the current lexeme and line, and also appends it to the error list |
| SourceScanning.AdvanceTracksLines | challenge-2/json-parser/src/parser/source_scanner.rs:175-191 | on `ab\ncd`, the line is 1 before the newline and 2 after it, with the line start at 3 |
| TokenScanning.Advanced | challange-2/json-parser/src/parser/token_scanner.rs:23-30 | advancing moves the cursor by at most one and never past the last token |
| TokenScanning.AdvancesSaturate | challange-2/json-parser/src/parser/token_scanner.rs:20-30 | k advances leave the cursor at min(cursor + k, length - 1); it is at the end exactly when cursor + k reaches the last index |
| TokenScanning.IsAtEndTests | challange-2/json-parser/src/parser/token_scanner.rs:39-78 | with four tokens, two advances are not at the end and three are |
| TokenScanning.TokenScanner.constructor | challange-2/json-parser/src/parser/token_scanner.rs:10-16 | a new scanner holds the tokens at cursor 0 with their length |
| TokenScanning.TokenScanner.Current | challange-2/json-parser/src/parser/token_scanner.rs:17-19 | returns the token under the cursor |
| TokenScanning.TokenScanner.Advance | challange-2/json-parser/src/parser/token_scanner.rs:23-30 | at the end: None, cursor unchanged; otherwise the cursor moves one step and the new current token is returned |
| TokenScanning.AtEnd | challange-2/json-parser/src/parser/token_scanner.rs:20-22 | definition: at the end when the cursor has reached the last index, `length - 1` |
| TokenScanning.TokenScanner.IsAtEnd | challange-2/json-parser/src/parser/token_scanner.rs:20-22 | definition: `AtEnd` of the scanner's length and cursor |
| LexerSpec.MatchSymbol | challenge-2/json-parser/src/parser/lexer.rs:51-63 | consumes at least one char and stays within the text |
| LexerSpec.MatchKeywordFrom | challenge-2/json-parser/src/parser/lexer.rs:64-77 | a match ends exactly after the keyword; a failure ends past the chars already matched, within the text |
| LexerSpec.MatchKeyword | challenge-2/json-parser/src/parser/lexer.rs:64-77 | consumes at least one char and stays within the text |
| LexerSpec.HexCount | challenge-2/json-parser/src/parser/lexer.rs:106-115 | the count of hex digits read is the length of the leading hex run, capped at n |
| LexerSpec.Escape | challenge-2/json-parser/src/parser/lexer.rs:100-119 | an accepted escape consumes at least two chars; a rejected one at least the backslash |
| LexerSpec.StringFrom | challenge-2/json-parser/src/parser/lexer.rs:84-129 | the string-body loop never panics and ends within the text, with kind `String` on success |
| LexerSpec.MatchString | challenge-2/json-parser/src/parser/lexer.rs:78-131 | consumes at least one char and stays within the text |
| LexerSpec.DigitsEnd | challenge-2/json-parser/src/parser/lexer.rs:144-146 | the digit loop stops at the first non-digit, having passed only digits |
| LexerSpec.SignEnd | challenge-2/json-parser/src/parser/lexer.rs:133-135 | a sign char is consumed exactly when it is a minus |
| LexerSpec.ExponentOutcome | challenge-2/json-parser/src/parser/lexer.rs:159-172 | the exponent part never panics; it fails only after consuming something and yields kind `Number` on success |
| LexerSpec.MatchNumber | challenge-2/json-parser/src/parser/lexer.rs:132-175 | the number matcher never panics, makes progress and yields kind `Number` on success |
| LexerSpec.NextToken | challenge-2/json-parser/src/parser/lexer.rs:31-49 | every dispatch consumes at least one char and stays within the text |
| LexerSpec.LexFrom | challenge-2/json-parser/src/parser/lexer.rs:14-28 | definition: the scan loop: skip whitespace, stop at the end, else append the next token or stop at its error or panic |
| LexerSpec.Lex | challenge-2/json-parser/src/parser/lexer.rs:10-29 | definition: the scan loop from offset 0 with no tokens |
| Lexer.MatchSymbol | challenge-2/json-parser/src/parser/lexer.rs:51-63 | the method's outcome and final cursor are those of `LexerSpec.MatchSymbol`; tokens and errors are untouched |
| Lexer.MatchKeyword | challenge-2/json-parser/src/parser/lexer.rs:64-77 | the keyword loop's outcome and cursor are those of `LexerSpec.MatchKeyword`, including the panic past the end |
| Lexer.HexCountIs | challenge-2/json-parser/src/parser/lexer.rs:108-114 | any count with the hex-run property is the `HexCount` |
| Lexer.MatchEscape | challenge-2/json-parser/src/parser/lexer.rs:100-119 | accepts exactly the escapes `LexerSpec.Escape` accepts and moves the cursor to its end |
| Lexer.MatchString | challenge-2/json-parser/src/parser/lexer.rs:78-131 | the string loop's outcome and cursor are those of `LexerSpec.MatchString` |
| Lexer.SkipDigits | challenge-2/json-parser/src/parser/lexer.rs:144-146 | the digit loop ends at `DigitsEnd` |
| Lexer.MatchExponent | challenge-2/json-parser/src/parser/lexer.rs:159-172 | the exponent branch's outcome and cursor are those of `ExponentOutcome` |
| Lexer.MatchInteger | challenge-2/json-parser/src/parser/lexer.rs:133-147 | fails exactly on a leading zero followed by a digit, and otherwise ends at the integer part's end |
| Lexer.MatchNumber | challenge-2/json-parser/src/parser/lexer.rs:132-175 | the number method's outcome and cursor are those of `LexerSpec.MatchNumber` |
| Lexer.GetNextToken | challenge-2/json-parser/src/parser/lexer.rs:31-49 | dispatch on the peeked char has the outcome and cursor of `NextToken` |
| Lexer.LexFromSkips | challenge-2/json-parser/src/parser/lexer.rs:10-29 | lexing from an offset equals lexing from after the whitespace there |
| Lexer.GetTokens | challenge-2/json-parser/src/parser/lexer.rs:10-29 | the scan loop returns exactly `Lex(source)`: all tokens, the first scan error, or a panic |
| LexerGrammar.KeywordFrom | challenge-2/json-parser/src/parser/lexer.rs:64-77 | from a matched prefix, the keyword matches iff the text holds it, panics iff the text ends inside a correct prefix, and otherwise fails at the first differing char with that char's message |
| LexerGrammar.KeywordExact | challenge-2/json-parser/src/parser/lexer.rs:64-77 | `true`, `false` and `null` match iff spelled out in full; the panic and failure cases are characterised exactly |
| LexerGrammar.BodyUnit | challenge-2/json-parser/src/parser/lexer.rs:84-123 | a string body is valid iff it still is after dropping one leading plain char or escape |
| LexerGrammar.BodyEndsUnit | challenge-2/json-parser/src/parser/lexer.rs:84-123 | a body that ends after one more unit still ends |
| LexerGrammar.BodyHead | challenge-2/json-parser/src/parser/lexer.rs:89-119 | a valid body starts with neither a quote, LF nor tab, and a backslash starts a full escape |
| LexerGrammar.HexFour | challenge-2/json-parser/src/parser/lexer.rs:106-114 | `\u` reads four hex digits iff the next four chars are hex |
| LexerGrammar.EscapeOkUnit | challenge-2/json-parser/src/parser/lexer.rs:100-119 | an accepted escape is one string unit |
| LexerGrammar.StringFromSound | challenge-2/json-parser/src/parser/lexer.rs:84-129 | whatever the body loop accepts is a valid body ending as the lexer requires |
| LexerGrammar.StringFromComplete | challenge-2/json-parser/src/parser/lexer.rs:84-129 | every valid body ending as required is accepted, ending where it ends |
| LexerGrammar.StringGrammar | challenge-2/json-parser/src/parser/lexer.rs:78-131 | a string token spans [i, e) iff it opens with a quote and either closes with one around a valid body, or runs to the end of the text as a valid body whose last char is an escaped quote |
| LexerGrammar.DigitsSlice | challenge-2/json-parser/src/parser/lexer.rs:144-146 | the digit loop passes only digits |
| LexerGrammar.DigitsEndOf | challenge-2/json-parser/src/parser/lexer.rs:144-146 | a digit run followed by a non-digit is exactly what the loop passes |
| LexerGrammar.IntegerSound | challenge-2/json-parser/src/parser/lexer.rs:137-147 | the integer part read is `0` or a possibly empty digit run, followed by a non-digit |
| LexerGrammar.FractionSound | challenge-2/json-parser/src/parser/lexer.rs:151-157 | the fraction part read is empty or a dot with a possibly empty digit run |
| LexerGrammar.ExponentSound | challenge-2/json-parser/src/parser/lexer.rs:159-172 | an accepted exponent is `e`/`E`, an optional sign and at least one digit |
| LexerGrammar.NumberSound | challenge-2/json-parser/src/parser/lexer.rs:132-175 | every accepted number splits into sign, lax integer, lax fraction and exponent, followed by a non-digit |
| LexerGrammar.IntegerPhase | challenge-2/json-parser/src/parser/lexer.rs:137-147 | a lax integer followed by a non-digit is exactly what the integer phase reads |
| LexerGrammar.FractionPhase | challenge-2/json-parser/src/parser/lexer.rs:151-157 | a lax fraction followed by a non-digit is exactly what the fraction phase reads |
| LexerGrammar.ExponentPhase | challenge-2/json-parser/src/parser/lexer.rs:159-172 | an exponent part followed by a non-digit is exactly what the exponent phase reads |
| LexerGrammar.NumberComplete | challenge-2/json-parser/src/parser/lexer.rs:132-175 | every such split, ending before a char that ends a number, is accepted with exactly that end |
| LexerGrammar.RfcNumberAccepted | challenge-2/json-parser/src/parser/lexer.rs:132-175 | every number in the RFC 8259 grammar, ending before a char that ends a number, is accepted whole |
| LexerProperties.SkipWsOverBlank | challenge-2/json-parser/src/parser/source_scanner.rs:49-58 | skipping over a blank stretch that ends at a non-blank char stops exactly there |
| LexerProperties.TilingBounds | challenge-2/json-parser/src/parser/lexer.rs:10-29 | tokens of a tiling are ordered, non-empty and within the text |
| LexerProperties.LexFromMatched | challenge-2/json-parser/src/parser/lexer.rs:14-25 | one matched token appends a token with the skipped-to start and continues from its end |
| LexerProperties.TokenStep | challenge-2/json-parser/src/parser/lexer.rs:14-25 | lexing past a gap and a token that `NextToken` produces appends that token |
| LexerProperties.TilingStep | challenge-2/json-parser/src/parser/lexer.rs:14-25 | one step of a tiling is one step of the scan loop |
| LexerProperties.TilingRuns | challenge-2/json-parser/src/parser/lexer.rs:14-25 | the scan loop runs through every token of a tiling |
| LexerProperties.TilingRunsOn | challenge-2/json-parser/src/parser/lexer.rs:14-25 | the same, from a token inside the tiling |
| LexerProperties.LexFromTiles | challenge-2/json-parser/src/parser/lexer.rs:10-29 | a successful scan yields a tiling of the text with a blank tail |
| LexerProperties.LexOkIff | challenge-2/json-parser/src/parser/lexer.rs:10-29 | the lexer returns tokens ts iff ts tile the text (blank gaps, each token what `NextToken` matches at its start) with a blank tail |
| LexerProperties.BlankTextHasNoTokens | challenge-2/json-parser/src/parser/lexer.rs:10-29 | the token list is empty iff the text is all whitespace |
| LexerProperties.LexStopsAt | challenge-2/json-parser/src/parser/lexer.rs:14-24 | a failed scan stops at a non-blank offset after a tiled prefix: it panics iff `NextToken` panics there, and otherwise reports that token's error |
| LexerProperties.StopsFrom | challenge-2/json-parser/src/parser/lexer.rs:14-24 | the same, from any point inside the loop |
| LexerProperties.ErrorAfterTiling | challenge-2/json-parser/src/parser/lexer.rs:14-24 | conversely, a tiled prefix followed by a failing token yields exactly that error |
| LexerExamples.QuotedQuoteTokens | challenge-2/json-parser/src/parser/lexer.rs:191-206 | `["\""]` lexes to bracket, string, bracket with their offsets |
| LexerExamples.NextTokenTests | challenge-2/json-parser/src/parser/lexer.rs:209-348 | brace, `true`, `null` and `123` match; an unquoted word, `0e` and `0123` fail where the tests say |
| LexerExamples.PlainStretch | challenge-2/json-parser/src/parser/lexer.rs:120-122 | the body loop passes a stretch of plain chars unchanged |
| LexerExamples.TerminatedTest | challenge-2/json-parser/src/parser/lexer.rs:261-271 | a quoted test string is one string token |
| LexerExamples.EscapedQuoteTest | challenge-2/json-parser/src/parser/lexer.rs:274-284 | an escaped quote inside quotes is one string token |
| LexerExamples.UnterminatedTest | challenge-2/json-parser/src/parser/lexer.rs:287-297 | a string without a closing quote is `Unterminated string` at the end of the text |
| LexerExamples.EscapedQuoteAtEndIsAString | challenge-2/json-parser/src/parser/lexer.rs:97-127 | `"\"` at the end of the text is accepted as a string, because only the last char read is checked |
| LexerExamples.StringRejections | challenge-2/json-parser/src/parser/lexer.rs:89-118 | a raw LF, a raw tab, `\x` and a short `\u` escape each fail with their message |
| LexerExamples.LaxNumbers | challenge-2/json-parser/src/parser/lexer.rs:132-157 | `1.`, `-` and `-.5` are accepted as numbers |
| LexerExamples.ExponentNumbers | challenge-2/json-parser/src/parser/lexer.rs:159-172 | exponents with and without a sign are accepted |
| LexerExamples.TruncatedKeywordPanics | challenge-2/json-parser/src/parser/lexer.rs:64-77 | `tru` and `[nul` make the keyword loop advance past the end |
| LexerExamples.KeywordErrorPastNewline | challenge-2/json-parser/src/parser/lexer.rs:64-77 | for `t\n` the error's line start lies after its start offset |
| ParserSpec.Kinds | challenge-2/json-parser/src/parser/syntax_analyser.rs:63-127 | the analyser sees only the token kinds, one per token, in order |
| ParserSpec.Dispatch | challenge-2/json-parser/src/parser/syntax_analyser.rs:87-95 | each handler leaves the cursor within the tokens; a continuing step decreases the termination measure; a finished step never stops on a comma |
| ParserSpec.ParseObject | challenge-2/json-parser/src/parser/syntax_analyser.rs:129-141 | definition: `{` at the last token panics; `{` then `}` finishes, `{` then a string starts a property, anything else is invalid |
| ParserSpec.ParseArray | challenge-2/json-parser/src/parser/syntax_analyser.rs:172-184 | definition: `[` at the last token panics; `[` then `]` finishes, `[` then a comma is invalid, anything else starts an item |
| ParserSpec.ParseValue | challenge-2/json-parser/src/parser/syntax_analyser.rs:200-215 | definition: an object or array opener is handed on, a literal finishes, anything else is invalid |
| ParserSpec.ParseObjectProperty | challenge-2/json-parser/src/parser/syntax_analyser.rs:143-156 | definition: a string, a colon, then a value; a missing next token panics |
| ParserSpec.ParseObjectPropertyEnd | challenge-2/json-parser/src/parser/syntax_analyser.rs:158-170 | definition: a comma starts another property, `}` finishes, anything else is invalid |
| ParserSpec.ParseArrayItemEnd | challenge-2/json-parser/src/parser/syntax_analyser.rs:186-198 | definition: a comma starts another item, `]` finishes, anything else is invalid |
| ParserSpec.Finish | challenge-2/json-parser/src/parser/syntax_analyser.rs:120-126 | definition: `Ok` only at the last token when it is `}` or `]`, else `TrailingTokens` |
| ParserSpec.Run | challenge-2/json-parser/src/parser/syntax_analyser.rs:81-118 | definition: the state loop with its push and pop rules on the analyser's stack |
| ParserSpec.Parse | challenge-2/json-parser/src/parser/syntax_analyser.rs:63-127 | definition: the up-front checks, then the state loop from the initial state and the given stack |
| SyntaxAnalysis.ParseObjectAt | challenge-2/json-parser/src/parser/syntax_analyser.rs:129-141 | the handler's answer and cursor are those of `ParserSpec.ParseObject` |
| SyntaxAnalysis.ParseArrayAt | challenge-2/json-parser/src/parser/syntax_analyser.rs:172-184 | the handler's answer and cursor are those of `ParseArray` |
| SyntaxAnalysis.ParseValueAt | challenge-2/json-parser/src/parser/syntax_analyser.rs:200-215 | the handler's answer and cursor are those of `ParseValue` |
| SyntaxAnalysis.ParseObjectPropertyAt | challenge-2/json-parser/src/parser/syntax_analyser.rs:143-156 | the handler's answer and cursor are those of `ParseObjectProperty`, including the panic at the end |
| SyntaxAnalysis.ParseObjectPropertyEndAt | challenge-2/json-parser/src/parser/syntax_analyser.rs:158-170 | the handler's answer and cursor are those of `ParseObjectPropertyEnd` |
| SyntaxAnalysis.ParseArrayItemEndAt | challenge-2/json-parser/src/parser/syntax_analyser.rs:186-198 | the handler's answer and cursor are those of `ParseArrayItemEnd` |
| SyntaxAnalysis.DispatchAt | challenge-2/json-parser/src/parser/syntax_analyser.rs:87-95 | the state dispatch agrees with `Dispatch` |
| SyntaxAnalysis.SyntaxAnalyzer.constructor | challenge-2/json-parser/src/parser/syntax_analyser.rs:57-61 | a new analyser has an empty stack |
| SyntaxAnalysis.SyntaxAnalyzer.Parse | challenge-2/json-parser/src/parser/syntax_analyser.rs:63-127 | the parse loop returns, and leaves on the stack, exactly what `ParserSpec.Parse` gives for the token kinds and the stack it started with |
| ParserProperties.RunAnswers | challenge-2/json-parser/src/parser/syntax_analyser.rs:81-126 | the loop answers `Ok`, `UnexpectedToken`, `TrailingTokens` or a panic, never anything else |
| ParserProperties.ParseErrors | challenge-2/json-parser/src/parser/syntax_analyser.rs:63-95 | `EmptyTokens` iff there are no tokens; `InvalidInitialState` iff the first token opens neither an object nor an array; both leave the stack alone; `UnexpectedState` never happens |
| ParserProperties.RunOkEndsOnCloser | challenge-2/json-parser/src/parser/syntax_analyser.rs:120-126 | the loop accepts only when the last token is a closing brace or bracket |
| ParserProperties.OkShape | challenge-2/json-parser/src/parser/syntax_analyser.rs:63-126 | an accepted stream has at least two tokens, opens with `{` or `[`, and closes with `}` or `]` |
| ParserProperties.RunFinishesEmpty | challenge-2/json-parser/src/parser/syntax_analyser.rs:81-126 | reaching the final check empties the stack |
| ParserProperties.OkLeavesStackEmpty | challenge-2/json-parser/src/parser/syntax_analyser.rs:81-126 | after `Ok` or `TrailingTokens` the analyser's stack is empty |
| ParserGrammar.ValueAccepted | challenge-2/json-parser/src/parser/syntax_analyser.rs:63-215 | the tokens of every well-formed object or array are accepted, leaving the stack empty |
| ParserGrammar.TrailingAfterValue | challenge-2/json-parser/src/parser/syntax_analyser.rs:120-124 | any token after a complete object or array gives `TrailingTokens` |
| ParserGrammar.ValueStartsParse | challenge-2/json-parser/src/parser/syntax_analyser.rs:63-118 | on a stream that starts with a well-formed object or array, the loop ends on that value's closing token with the stack empty |
| ParserGrammar.ArrayFromStart | challenge-2/json-parser/src/parser/syntax_analyser.rs:172-198 | the loop walks a well-formed array to its closing bracket |
| ParserGrammar.ObjectFromStart | challenge-2/json-parser/src/parser/syntax_analyser.rs:129-170 | the loop walks a well-formed object to its closing brace |
| ParserGrammar.ItemsRun | challenge-2/json-parser/src/parser/syntax_analyser.rs:186-215 | a comma-separated run of well-formed items is walked item by item to the closing bracket |
| ParserGrammar.MembersRun | challenge-2/json-parser/src/parser/syntax_analyser.rs:143-170 | a comma-separated run of `"key": value` members is walked member by member to the closing brace |
| ParserGrammar.MoreMembersRun | challenge-2/json-parser/src/parser/syntax_analyser.rs:143-170 | the same, for two or more members |
| ParserGrammar.ValueRun | challenge-2/json-parser/src/parser/syntax_analyser.rs:200-215 | a well-formed value at the cursor is walked to its last token |
| ParserGrammar.UnclosedArrayAccepted | challenge-2/json-parser/src/parser/syntax_analyser.rs:97-126 | `[` followed by a well-formed array, with the outer bracket never closed, is accepted |
| ParserGrammar.UnclosedObjectAccepted | challenge-2/json-parser/src/parser/syntax_analyser.rs:97-126 | `{"k":` followed by a well-formed object, with the outer brace never closed, is accepted |
| ParserGrammar.InnerCloserRun | challenge-2/json-parser/src/parser/syntax_analyser.rs:97-126 | a value that closes on the last token ends the loop with `Ok` when one frame is left on the stack |
| ParserExamples.UpFrontErrors | challenge-2/json-parser/src/parser/syntax_analyser.rs:223-248 | no tokens gives `EmptyTokens`; a leading `true` gives `InvalidInitialState` |
| ParserExamples.FlatObjectsAccepted | challenge-2/json-parser/src/parser/syntax_analyser.rs:251-306 | the empty object and the one- and two-member objects of the tests are accepted |
| ParserExamples.TwoMemberObject | challenge-2/json-parser/src/parser/syntax_analyser.rs:286-306 | the two-member test stream is the token form of a well-formed object |
| ParserExamples.NestedObjectAccepted | challenge-2/json-parser/src/parser/syntax_analyser.rs:309-333 | the nested-object test stream is accepted |
| ParserExamples.SmallArraysAccepted | challenge-2/json-parser/src/parser/syntax_analyser.rs:354-421 | empty, single-item, nested and object-holding arrays are accepted |
| ParserExamples.MixedArrayAccepted | challenge-2/json-parser/src/parser/syntax_analyser.rs:424-447 | the mixed array of the tests is accepted |
| ParserExamples.TwoDimensionalArrayAccepted | challenge-2/json-parser/src/parser/syntax_analyser.rs:450-468 | `[[],[]]` is accepted |
| ParserExamples.TrailingCommaRejected | challenge-2/json-parser/src/parser/syntax_analyser.rs:471-486 | `["test"],` gives `TrailingTokens` |
| ParserExamples.UnclosedObjectRejected | challenge-2/json-parser/src/parser/syntax_analyser.rs:336-351 | `{"test":"value"` gives `UnexpectedToken` and leaves a frame on the stack |
| ParserExamples.UnclosedObjectTail | challenge-2/json-parser/src/parser/syntax_analyser.rs:336-351 | the loop's state after the first step of that test |
| ParserExamples.StaleStackRejectsEmptyArray | challenge-2/json-parser/src/parser/syntax_analyser.rs:52-61 | an analyser reused after that failure rejects `[]`, because its stack is never cleared |
| ParserExamples.LoneOpenerPanics | challenge-2/json-parser/src/parser/syntax_analyser.rs:135 | a lone `[` panics on the `unwrap` of a missing next token |
| ParserExamples.TruncatedMemberPanics | challenge-2/json-parser/src/parser/syntax_analyser.rs:154 | `{"k":` panics when the value is missing |
| ParserExamples.UnclosedButAccepted | challenge-2/json-parser/src/parser/syntax_analyser.rs:111-126 | `[[]` and `{"k":{}` are accepted |
| HuffmanTree.NewNode | challenge-3/compression/src/huffman/mod.rs:13-43 | no node for two absent children; otherwise an inner node over the given children whose frequency is their sum |
| HuffmanTree.NewLeaf | challenge-3/compression/src/huffman/mod.rs:70-77 | definition: a leaf node holding a char and its frequency |
| HuffmanTree.Compare | challenge-3/compression/src/huffman/mod.rs:79-88 | the order is reversed: the lower frequency compares greater, so the max-heap pops it first |
| HuffmanTree.GetFrequencyTable | challenge-3/compression/src/huffman/mod.rs:160-169 | the table has exactly the text's chars as keys, each mapped to its number of occurrences |
| HuffmanTree.FrequencyExamples | challenge-3/compression/src/huffman/mod.rs:253-271 | any table meeting `GetFrequencyTable`'s contract for `Hello, world!` has exactly its ten distinct chars as keys, with `l` counted 3 times and `o` twice |
| HuffmanTree.EmptyFrequencies | challenge-3/compression/src/huffman/mod.rs:273-283 | any table meeting that contract for the empty text is empty |
| HuffmanTree.FullWeight | challenge-3/compression/src/huffman/mod.rs:13-23 | a built node's frequency is the sum of its leaves' frequencies, and it has at least one leaf |
| HuffmanTree.RemoveAt | challenge-3/compression/src/huffman/mod.rs:193-198 | popping a node removes exactly its leaves and its weight from the queue |
| HuffmanTree.PopLowest | challenge-3/compression/src/huffman/mod.rs:193-195 | returns a node of minimum frequency and the queue without it |
| HuffmanTree.Entries | challenge-3/compression/src/huffman/mod.rs:171-178 | lists every (char, count) entry of the table once, in some order |
| HuffmanTree.TableToHeap | challenge-3/compression/src/huffman/mod.rs:171-178 | one leaf per table entry, with that entry's char and count |
| HuffmanTree.LeavesHeap | challenge-3/compression/src/huffman/mod.rs:171-178 | a queue of leaves holds exactly the listed entries, with their total weight |
| HuffmanTree.PushMerged | challenge-3/compression/src/huffman/mod.rs:194-197 | pushing the merged node keeps every tree full and adds both children's leaves and weights |
| HuffmanTree.LowestBag | challenge-3/compression/src/huffman/mod.rs:79-88 | a node the reversed order ranks highest has the least frequency of all the queue's nodes |
| HuffmanTree.GreedyPops | challenge-3/compression/src/huffman/mod.rs:193-197 | popping twice and pushing the node over the two popped nodes is a greedy step: the lowest node, then the lowest of the rest, merged with the first on the left |
| HuffmanTree.MergeLowest | challenge-3/compression/src/huffman/mod.rs:194-197 | one loop step shrinks the queue by one, keeps its leaves and its weight, and its contents take one greedy step (lowest node on the left, lowest of the rest on the right) |
| HuffmanTree.RunExtends | challenge-3/compression/src/huffman/mod.rs:193-198 | one more greedy step extends a greedy run |
| HuffmanTree.MergeAll | challenge-3/compression/src/huffman/mod.rs:193-199 | the loop ends with a single full tree over all the queue's leaves and weight, reached from the queue by a run of greedy steps |
| HuffmanTree.LeafHeapBag | challenge-3/compression/src/huffman/mod.rs:171-178 | the queue built from the table holds exactly one leaf per table entry |
| HuffmanTree.OneEntryRun | challenge-3/compression/src/huffman/mod.rs:185-189 | a one-entry table gives a lone leaf holding its entry, and the greedy run of no steps |
| HuffmanTree.BuildTree | challenge-3/compression/src/huffman/mod.rs:180-200 | `Err` iff the table is empty; one entry gives a lone leaf; otherwise a full tree whose leaves are the table's entries and whose frequency is their total, reached from the table's leaves by a run of greedy steps |
| HuffmanTree.LeavesAreTable | challenge-3/compression/src/huffman/mod.rs:180-200 | the tree's leaves are exactly the table's entries |
| HuffmanTree.TwoLeafTree | challenge-3/compression/src/huffman/mod.rs:418-438 | for `aaabb` the tree is `b:2` on the left and `a:3` on the right, of frequency 5 |
| HuffmanTree.LeafOfOne | challenge-3/compression/src/huffman/mod.rs:185-189 | a full tree with a single leaf is that leaf |
| HuffmanTree.StepFrom | challenge-3/compression/src/huffman/mod.rs:193-197 | when one node is strictly the lowest and another strictly the lowest of the rest, a greedy step has to merge exactly those two |
| HuffmanTree.LastStep | challenge-3/compression/src/huffman/mod.rs:193 | a run that reaches a single node stops there: a greedy step needs two nodes |
| HuffmanTree.OpendsaGreedy | challenge-3/compression/src/huffman/mod.rs:286-387 | for the opendsa table, every greedy run takes seven steps and ends in the expected tree: `e` on the left of the root, (`u`, `d`) and (`l`, (`c`, ((`z`, `k`), `m`))) below the node of 187 |
| HuffmanCode.CodesShape | challenge-3/compression/src/huffman/mod.rs:202-221 | codes cover exactly the tree's chars and extend the prefix by binary digits; below an inner node they are strictly longer than the prefix |
| HuffmanCode.Codes | challenge-3/compression/src/huffman/mod.rs:202-221 | definition: the code of each leaf char is its path from the root, `0` to the left and `1` to the right |
| HuffmanCode.CodesKeys | challenge-3/compression/src/huffman/mod.rs:202-221 | every leaf char gets a code and nothing else does |
| HuffmanCode.CodesExtend | challenge-3/compression/src/huffman/mod.rs:213-216 | a code is the path from the root, with `0` for left and `1` for right |
| HuffmanCode.CodesPrefixFree | challenge-3/compression/src/huffman/mod.rs:202-221 | no code is a prefix of another char's code |
| HuffmanCode.SingleLeafCode | challenge-3/compression/src/huffman/mod.rs:205-210 | a lone leaf gets the empty code |
| HuffmanCode.PopLeaf | challenge-3/compression/src/huffman/mod.rs:209-211 | popping a leaf moves its code from the stack's pending codes into the table |
| HuffmanCode.PushChildren | challenge-3/compression/src/huffman/mod.rs:212-217 | replacing an inner node by its two children keeps the codes still to come |
| HuffmanCode.BuildEncodingTable | challenge-3/compression/src/huffman/mod.rs:202-221 | the stack walk builds exactly the root-to-leaf path code of every char |
| HuffmanCode.HoldsLeafChars | challenge-3/compression/src/huffman/mod.rs:202-221 | a char is on a leaf of a tree iff it is one of the tree's leaf chars |
| HuffmanCode.CodesReach | challenge-3/compression/src/huffman/mod.rs:212-216 | the code of a char is the path of `0`s and `1`s to its leaf, after the prefix |
| HuffmanCode.CodeOfPath | challenge-3/compression/src/huffman/mod.rs:202-221 | the same, read from the root with the empty prefix |
| HuffmanCode.OpendsaRootCodes | challenge-3/compression/src/huffman/mod.rs:407-414 | the codes of the expected opendsa tree: `c` 1110, `d` 101, `e` 0, `k` 111101, `l` 110, `m` 11111, `u` 100, `z` 111100, and no other char |
| HuffmanCode.OpendsaCodes | challenge-3/compression/src/huffman/mod.rs:389-415 | whatever tree a greedy run builds from the opendsa table gets exactly those eight codes |
| HuffmanCode.BitsAppend | challenge-3/compression/src/huffman/mod.rs:228-242 | the bits of a concatenation are the concatenation of the bits |
| HuffmanCode.Bits | challenge-3/compression/src/huffman/mod.rs:228-242 | definition: the codes of the text's chars laid end to end |
| HuffmanCode.PackedCount | challenge-3/compression/src/huffman/mod.rs:231-235 | for n > 0 bits, the number of bytes pushed is the k with 8k < n <= 8k + 8 |
| HuffmanCode.Pack | challenge-3/compression/src/huffman/mod.rs:223-244 | definition: the bytes `encode` pushes, one per group of 8 bits followed by a further bit; it has exactly `PackedCount` bytes |
| HuffmanCode.ByteBits | challenge-3/compression/src/huffman/mod.rs:142-147 | definition: the eight bits of a byte, most significant first |
| HuffmanCode.Unpack | challenge-3/compression/src/huffman/mod.rs:139-147 | definition: the bits of all bytes in order, 8 per byte |
| HuffmanCode.PackStep | challenge-3/compression/src/huffman/mod.rs:231-240 | one bit step keeps the packing invariant: full bytes pushed, the rest in the current byte |
| HuffmanCode.PackCode | challenge-3/compression/src/huffman/mod.rs:230-241 | the inner loop over one code keeps the packing invariant |
| HuffmanCode.PackText | challenge-3/compression/src/huffman/mod.rs:224-242 | the loop over the text ends with the packing invariant for all its bits |
| HuffmanCode.Encode | challenge-3/compression/src/huffman/mod.rs:223-244 | the bytes returned are `Pack` of the text's bits, so the last group of 1 to 8 bits is left out |
| HuffmanCode.ByteRoundTrip | challenge-3/compression/src/huffman/mod.rs:142-147 | reading back a byte packed from eight bits gives those bits |
| HuffmanCode.ByteBitsOf | challenge-3/compression/src/huffman/mod.rs:236-240 | a byte packed from fewer than eight bits reads back with leading zeros |
| HuffmanCode.UnpackPack | challenge-3/compression/src/huffman/mod.rs:139-155 | unpacking the packed bits gives the bits of the full bytes |
| HuffmanCode.UnpackGroups | challenge-3/compression/src/huffman/mod.rs:139-155 | the same for the first k bytes |
| HuffmanCode.Decode | challenge-3/compression/src/huffman/mod.rs:139-157 | definition: each bit extends the pattern; a pattern that is a code emits its char and restarts; a leftover pattern is dropped |
| HuffmanCode.DecodeByte | challenge-3/compression/src/huffman/mod.rs:142-154 | the inner loop over eight bits advances the decoder exactly as the decoding function does |
| HuffmanCode.DecodeBytes | challenge-3/compression/src/huffman/mod.rs:137-157 | the output is `Decode` of all the unpacked bits, starting with an empty pattern |
| HuffmanCode.ReadCode | challenge-3/compression/src/huffman/mod.rs:148-153 | with a prefix-free table and its inverse, a code followed by more bits emits its char and then decodes the rest |
| HuffmanCode.ProperPrefixIsNoCode | challenge-3/compression/src/huffman/mod.rs:149 | a proper prefix of a code is never a key of the decoding table |
| HuffmanCode.PartialCode | challenge-3/compression/src/huffman/mod.rs:148-153 | a partial code emits nothing |
| HuffmanCode.DecodeBits | challenge-3/compression/src/huffman/mod.rs:139-157 | decoding a text's code bits with the inverse table gives the text back |
| HuffmanCode.DecodePrefix | challenge-3/compression/src/huffman/mod.rs:139-157 | decoding a prefix of the bits gives a prefix of the text, and a proper prefix for fewer bits |
| HuffmanCode.TreeCodes | challenge-3/compression/src/huffman/mod.rs:202-221 | below an inner root, the codes are prefix-free, non-empty and binary, one per leaf char |
| HuffmanCode.BitsBinary | challenge-3/compression/src/huffman/mod.rs:228-242 | the code bits of a text are binary |
| HuffmanCode.RoundTripLosesTail | challenge-3/compression/src/huffman/mod.rs:223-244 | for a tree of two or more leaves, decompressing the compressed text gives a proper prefix of any non-empty text |
| HuffmanCode.SingleSymbolDecodesToNothing | challenge-3/compression/src/huffman/mod.rs:185-210 | with a lone leaf, the header's only entry has an empty code, every text packs to no bytes, and the inverse table (the empty pattern to the char) decodes that to the empty text |
| HuffmanCode.EmptyCodeBits | challenge-3/compression/src/huffman/mod.rs:205 | a text of one char with the empty code has no bits |
| HuffmanCode.NamesRoundTrip | challenge-3/compression/src/huffman/mod.rs:99-105 | the header name of a char reads back as that char (space, LF, CR and tab by their names) |
| HuffmanCode.KeyName | challenge-3/compression/src/huffman/mod.rs:99-105 | definition: the header name of a char: `:space`, `:newline`, `:return`, `:tab`, or the char itself |
| HuffmanCode.NameChar | challenge-3/compression/src/huffman/mod.rs:124-130 | definition: the char read back from a name: one of the four names or a single char, else a parse failure |
| HuffmanCode.HeaderOf | challenge-3/compression/src/huffman/mod.rs:96-106 | the header lists every table entry once, in some order, as name and code |
| HuffmanCode.DecodingTableFails | challenge-3/compression/src/huffman/mod.rs:116-133 | the header is rejected iff some entry's name is neither a single char nor one of the four names |
| HuffmanCode.DecodingTableOf | challenge-3/compression/src/huffman/mod.rs:116-133 | definition: the decoding table built from the header's entries, later entries overriding earlier ones, or failure on a bad name |
| HuffmanCode.BuildDecodingTable | challenge-3/compression/src/huffman/mod.rs:116-133 | the header loop builds exactly `DecodingTableOf` of the header |
| HuffmanCode.HeaderTable | challenge-3/compression/src/huffman/mod.rs:96-133 | reading back a prefix-free table's header maps each code to its char and holds nothing else |
| HuffmanCode.HeaderInverts | challenge-3/compression/src/huffman/mod.rs:96-133 | the decoding table read from the header is the inverse of the encoding table |
| HuffmanCode.Compress | challenge-3/compression/src/huffman/mod.rs:90-109 | fails only on the empty text; the header always reads back; decompressing gives a proper prefix of the text |
| HuffmanCode.Decompress | challenge-3/compression/src/huffman/mod.rs:111-158 | fails iff the header is rejected; otherwise it decodes all unpacked bits |
| HuffmanRepair.Groups | challenge-3/compression/src/huffman/mod.rs:231-235 | n bits need the least k with n <= 8k |
| HuffmanRepair.Padded | challenge-3/compression/src/huffman/mod.rs:236-240 | padding with zeros to whole bytes keeps the bits as a prefix |
| HuffmanRepair.PackAll | challenge-3/compression/src/huffman/mod.rs:223-244 | the repaired packing has one byte per started group |
| HuffmanRepair.ByteOfZeros | challenge-3/compression/src/huffman/mod.rs:236-240 | shifting in z zero bits is the same as appending z zeros |
| HuffmanRepair.ShiftedZerosShift | challenge-3/compression/src/huffman/mod.rs:236 | shifting in z zeros, for z up to 8, is a left shift by z |
| HuffmanRepair.GroupsAfter | challenge-3/compression/src/huffman/mod.rs:231-240 | p full bytes and 1 to 8 pending bits make p + 1 groups |
| HuffmanRepair.PackAllFull | challenge-3/compression/src/huffman/mod.rs:231-235 | each full group becomes its byte |
| HuffmanRepair.PackAllLast | challenge-3/compression/src/huffman/mod.rs:236-240 | the last group becomes its byte shifted left over the padding |
| HuffmanRepair.Flush | challenge-3/compression/src/huffman/mod.rs:223-244 | after the loop, pushing the pending byte shifted by 8 - cursor completes the packing of every bit |
| HuffmanRepair.UnpackPackAll | challenge-3/compression/src/huffman/mod.rs:139-155 | the repaired packing reads back with the original bits first |
| HuffmanRepair.EncodeAll | challenge-3/compression/src/huffman/mod.rs:223-244 | the repaired encoder packs every bit of the text and reports their count |
| HuffmanRepair.PaddedRoundTrip | challenge-3/compression/src/huffman/mod.rs:111-158 | decoding the first bit-count bits of the repaired packing gives the text back |
| HuffmanRepair.FixedCodesDecodable | challenge-3/compression/src/huffman/mod.rs:202-221 | with a lone leaf coded `0`, every tree's codes are prefix-free, non-empty, binary and cover its chars |
| HuffmanRepair.BuildFixedTable | challenge-3/compression/src/huffman/mod.rs:202-221 | the repaired stack walk builds those codes |
| HuffmanRepair.UnpackAt | challenge-3/compression/src/huffman/mod.rs:142-143 | bit i of the unpacked bytes is bit i mod 8, most significant first, of byte i / 8 |
| HuffmanRepair.DecodeBit | challenge-3/compression/src/huffman/mod.rs:148-153 | one bit step advances the decoder exactly as the decoding function does |
| HuffmanRepair.ExpandBits | challenge-3/compression/src/huffman/mod.rs:139-157 | decoding only the first `count` bits gives `Decode` of exactly those bits |
| HuffmanRepair.DecompressFixed | challenge-3/compression/src/huffman/mod.rs:111-158 | the repaired decompressor decodes only the meaningful bits |
| HuffmanRepair.CompressFixed | challenge-3/compression/src/huffman/mod.rs:90-109 | fails only on the empty text; otherwise decompressing gives back exactly the text |
| WordCount.NewCharIsNotContinuation | challange-1/ccwc/src/wc/mod.rs:99-101 | a byte starts a character iff it is not a `10xxxxxx` continuation byte |
| WordCount.IsWhitespace | challange-1/ccwc/src/wc/mod.rs:85-90 | definition: space, tab, CR or LF |
| WordCount.IsNewLine | challange-1/ccwc/src/wc/mod.rs:92-97 | definition: LF |
| WordCount.IsNewWord | challange-1/ccwc/src/wc/mod.rs:81-83 | definition: a non-whitespace byte after a whitespace byte |
| WordCount.IsNewUtf8Char | challange-1/ccwc/src/wc/mod.rs:99-101 | definition: the byte mask test `(b & 192) == 192 \|\| (b & 128) != 128` |
| WordCount.Lines | challange-1/ccwc/src/wc/mod.rs:63-65 | definition: the number of LF bytes |
| WordCount.Chars | challange-1/ccwc/src/wc/mod.rs:67-69 | definition: the number of bytes that start a character |
| WordCount.Words | challange-1/ccwc/src/wc/mod.rs:71-75 | definition: the number of word starts, given the byte before the text |
| WordCount.CountsSplit | challange-1/ccwc/src/wc/mod.rs:29-46 | lines and chars add over a split; words add when the second part starts after the first part's last byte |
| WordCount.NoLineFeeds | challange-1/ccwc/src/wc/mod.rs:92-97 | text without LF has no lines |
| WordCount.CharsBound | challange-1/ccwc/src/wc/mod.rs:99-101 | there are at most as many chars as bytes, and exactly as many in ASCII text |
| WordCount.WordsAreStarts | challange-1/ccwc/src/wc/mod.rs:71-73 | the words are the positions where a non-blank follows a blank, or the byte before the buffer |
| WordCount.WhitespaceHasNoWords | challange-1/ccwc/src/wc/mod.rs:81-90 | all-whitespace text has no words |
| WordCount.WordRun | challange-1/ccwc/src/wc/mod.rs:81-90 | a run without whitespace is one word after a blank, and none after a non-blank |
| WordCount.ProcessBuffer | challange-1/ccwc/src/wc/mod.rs:56-79 | the buffer loop counts its LFs, character starts and word starts, and returns its last byte |
| WordCount.CountsOf | challange-1/ccwc/src/wc/mod.rs:3-8 | chars never exceed bytes |
| WordCount.ConcatAppend | challange-1/ccwc/src/wc/mod.rs:29-46 | appending a chunk appends its bytes |
| WordCount.PrependChunk | challange-1/ccwc/src/wc/mod.rs:29-46 | accepting chunks one at a time matches accepting them together |
| WordCount.ProcessReader | challange-1/ccwc/src/wc/mod.rs:19-54 | a read error gives an error; otherwise the counts are those of all the bytes read, as if read in one piece |
| WordCount.ReaderExamples | challange-1/ccwc/src/wc/mod.rs:251-280 | empty input counts all zeros; ` \t \n \t` has 6 bytes, 6 chars, 1 line and no words |
| WordCount.BufferExamples | challange-1/ccwc/src/wc/mod.rs:153-209 | `hello world` has two words; the multi-byte test has 11 chars |
| FieldCut.Split | challenge-4/cut/src/cut/mod.rs:4-8 | splitting gives at least one piece and no piece holds the delimiter |
| FieldCut.JoinSplit | challenge-4/cut/src/cut/mod.rs:4-20 | joining the pieces with the delimiter gives the text back |
| FieldCut.SplitJoin | challenge-4/cut/src/cut/mod.rs:4-20 | splitting a join of delimiter-free pieces gives the pieces back |
| FieldCut.PickFromDrop | challenge-4/cut/src/cut/mod.rs:12-17 | after dropping the first `pos` fields, strictly rising indices above `pos` pick the fields they name |
| FieldCut.Pick | challenge-4/cut/src/cut/mod.rs:12-17 | definition: for each index, skip `index - pos - 1` fields and take the next or `-`; an index not above `pos` underflows |
| FieldCut.PickFields | challenge-4/cut/src/cut/mod.rs:12-17 | strictly rising 1-based indices pick field k, or `-` when the line has fewer fields |
| FieldCut.PickUnderflows | challenge-4/cut/src/cut/mod.rs:14 | `field_index - pos - 1` underflows iff the indices do not rise strictly from above `pos` |
| FieldCut.PickFieldsOf | challenge-4/cut/src/cut/mod.rs:8-17 | the per-line loop picks what `Pick` picks from the line's pieces |
| FieldCut.Cut | challenge-4/cut/src/cut/mod.rs:3-23 | the line loop returns `CutText` of the content |
| FieldCut.CutLinesUnderflow | challenge-4/cut/src/cut/mod.rs:7-19 | an underflow on an earlier line ends the whole cut |
| FieldCut.CutLines | challenge-4/cut/src/cut/mod.rs:7-19 | definition: each line's picked fields joined by the delimiter, or the first underflow |
| FieldCut.CutText | challenge-4/cut/src/cut/mod.rs:3-23 | definition: the cut lines joined by LF, or a panic on an underflow |
| FieldCut.CutLinesFields | challenge-4/cut/src/cut/mod.rs:7-19 | with valid indices every line gives its picked fields joined by the delimiter |
| FieldCut.CutShape | challenge-4/cut/src/cut/mod.rs:3-23 | with valid indices the output has one line per input line, each the chosen fields |
| FieldCut.NoLineFeedInPieces | challenge-4/cut/src/cut/mod.rs:8 | a line's pieces contain no LF |
| FieldCut.JoinKeepsOut | challenge-4/cut/src/cut/mod.rs:18-20 | joining never introduces a char absent from the pieces and the separator |
| FieldCut.CutPanicsIff | challenge-4/cut/src/cut/mod.rs:13-16 | the cut panics iff the indices are not strictly rising from 1 |
| FieldCut.RowFields | challenge-4/cut/src/cut/mod.rs:30-41 | a two-column tab row splits into its two columns |
| FieldCut.SecondColumn | challenge-4/cut/src/cut/mod.rs:30-41 | cutting field 2 of any tab-separated two-column table gives its second column, line by line |

## Left out

- Each tool's `main.rs` is not part of this model. That covers argument parsing, file and standard-input handling, and printing.
- `process_file` (`challange-1/ccwc/src/wc/mod.rs:10-17`) is not modelled: opening a file is I/O. The `Read` trait becomes a sequence of `ReadResult`s. Each one is a chunk of bytes, an empty read (end of input) or an error. Chunks may be of any size: the 1024-byte buffer bound is not modelled, and the counts do not depend on it.
- The `challange-2` copy of `lexer.rs` is not part of this model. Only its `token_scanner.rs` is.
- Huffman's Base64 step and the header's text layout are left out. That layout is the count line, `split_whitespace` and the `unwrap`s on missing lines. The header is modelled as a sequence of (name, code) pairs. The bytes are modelled before Base64 encoding.
- HuffmanCode.Decompress: because of that abstraction, it does not capture two panics. With no packed bytes, the Base64 line is empty, `lines()` yields no line for it, and `mod.rs:135` panics. An empty code leaves a header line with no code part, and `mod.rs:122` panics. In both cases the model decodes the empty byte sequence.
- HuffmanCode.NamesRoundTrip: it holds for the (name, code) pairs only. `compress` writes chars other than the four named ones bare, including whitespace such as U+000B, U+000C, U+0085, U+00A0 and U+2028. Rust's `split_whitespace` splits on those, so their header lines do not read back, and `mod.rs:119-122` panics.
- FieldCut.Pick models the `field_index - pos - 1` underflow as a panic, which is debug-build behaviour. In a release build the subtraction wraps, `nth` returns `None`, and every remaining field of that line becomes `-`. The model, FieldCut.PickUnderflows and FieldCut.CutPanicsIff follow the debug build.
- Integer widths are not modelled: the `u32`, `u64` and `usize` counters are unbounded. Overflow past 2^32 chars or 2^64 bytes is out of scope.
- `HashMap` iteration order and `BinaryHeap` tie-breaking are modelled as an arbitrary choice. HuffmanTree.BuildTree promises a greedy run whatever the choice, so when two nodes of equal frequency tie, the model does not pick the one Rust's heap would pop. The opendsa tests (`challenge-3/compression/src/huffman/mod.rs:286-415`) have no tie at any step: HuffmanTree.OpendsaGreedy restates their tree, and HuffmanCode.OpendsaCodes restates their codes. The two-leaf `aaabb` test is restated by HuffmanTree.TwoLeafTree.
- The dummy `char` carried in the encoding stack's tuples is dropped. So is the stray `print!` at `challenge-2/json-parser/src/parser/syntax_analyser.rs:122`.
- The `Display` implementations of `StateType`, `ErrorType` and `TokenType` are not modelled.
- `SourceScanner` works on chars, treating the text as ASCII. Byte offsets of multi-byte UTF-8 text, and slicing inside a character, are not modelled.
- HuffmanCode.Encode requires every char of the text to be in the table. The source `unwrap`s the lookup, and `compress` always builds the table from the same text.
- TokenScanning.TokenScanner.Current, TokenScanning.TokenScanner.Advance and the `SyntaxAnalysis` handlers require at least one token. With none, `length - 1` underflows in `is_at_end`. `parse` returns `EmptyTokens` before it builds a scanner.
- WordCount.ProcessBuffer requires a non-empty buffer, as its caller guarantees. The source indexes `buffer[buffer.len() - 1]`.
- JsonTypes.ErrorColumns and JsonTypes.ScanErrorDisplayHeader require the line start not to exceed the error's offsets. LexerExamples.KeywordErrorPastNewline shows the lexer can break that (`t\n`), and then the `Display` subtraction in `types.rs:77-78` underflows. That panic is not modelled.
- `build_tree` returning `Err` from an empty table is modelled. `compress` then panics on its `unwrap`, and HuffmanCode.Compress models that panic as `None`.

## Findings

| source | as written | input that shows it | evidently intended | confidence | as-written member | corrected member |
|---|---|---|---|---|---|---|
| challenge-3/compression/src/huffman/mod.rs:223-244 | a byte is pushed only when a ninth bit arrives, and the final 1 to 8 bits are never flushed | `abcabcabc`: codes of 1, 2 and 2 bits give 15 bits; one byte is pushed and the last 7 bits are lost, so decompressing gives a proper prefix of the text (with fewer than 9 bits, e.g. `ab`, the Base64 line is empty and `decompress` panics at mod.rs:135 instead) | every bit is packed, the last byte is padded, and decompression stops at the bit count, so the whole text comes back | not executed | HuffmanCode.RoundTripLosesTail | HuffmanRepair.EncodeAll |
| challenge-3/compression/src/huffman/mod.rs:202-221 | a tree with one leaf gives that char the empty code | `aaa`: the encoding table maps `a` to the empty code and nothing is packed; the header line `a ` has no code part, so `decompress` panics at mod.rs:122 | a lone char gets a one-bit code, and the text round-trips | not executed | HuffmanCode.SingleSymbolDecodesToNothing | HuffmanRepair.CompressFixed |
