/** The byte, character, word and line counter of `ccwc`: a counting loop
    over one buffer that carries the previous byte in from the buffer
    before, and the read loop that feeds it chunk by chunk. Counts are
    unbounded here; the source keeps them in 64-bit counters. */
module WordCount {

  type Byte = bv8

  const SPACE: Byte := 0x20
  const TAB: Byte := 0x09
  const CR: Byte := 0x0D
  const LF: Byte := 0x0A

  // ---------------------------------------------------------------------
  // Byte classes

  /** `is_whitespace`: space, tab, carriage return or line feed. */
  predicate IsWhitespace(b: Byte)
  {
    b == SPACE || b == TAB || b == CR || b == LF
  }

  /** `is_new_line`. */
  predicate IsNewLine(b: Byte)
  {
    b == LF
  }

  /** `is_new_word`: a non-whitespace byte right after a whitespace one. */
  predicate IsNewWord(previous: Byte, current: Byte)
  {
    IsWhitespace(previous) && !IsWhitespace(current)
  }

  /** `is_new_utf8_char`, written with the source's masks. */
  predicate IsNewUtf8Char(b: Byte)
  {
    (b & 192) == 192 || (b & 128) != 128
  }

  /** A UTF-8 continuation byte has the form `10xxxxxx`. */
  predicate IsContinuation(b: Byte)
  {
    0x80 <= b < 0xC0
  }

  /** The masks single out exactly the bytes that do not continue a
      multi-byte character. */
  lemma NewCharIsNotContinuation(b: Byte)
    ensures IsNewUtf8Char(b) <==> !IsContinuation(b)
  {
  }

  // ---------------------------------------------------------------------
  // What the counters count

  /** The number of line feeds in s. */
  function Lines(s: seq<Byte>): nat
  {
    if s == [] then 0 else (if IsNewLine(s[0]) then 1 else 0) + Lines(s[1..])
  }

  /** The number of bytes of s that start a character. */
  function Chars(s: seq<Byte>): nat
  {
    if s == [] then 0 else (if IsNewUtf8Char(s[0]) then 1 else 0) + Chars(s[1..])
  }

  /** The number of word starts in s when the byte before s is `previous`. */
  function Words(previous: Byte, s: seq<Byte>): nat
    decreases |s|
  {
    if s == [] then 0
    else (if IsNewWord(previous, s[0]) then 1 else 0) + Words(s[0], s[1..])
  }

  /** The byte before position i of s, `previous` for position 0. */
  function Before(previous: Byte, s: seq<Byte>, i: nat): Byte
    requires i <= |s|
  {
    if i == 0 then previous else s[i - 1]
  }

  /** The last byte of s, or `previous` when s is empty. */
  function LastOr(previous: Byte, s: seq<Byte>): Byte
  {
    Before(previous, s, |s|)
  }

  /** All three counts split over a concatenation; the words of the second
      part see the last byte of the first as their previous byte. */
  lemma {:induction false} CountsSplit(previous: Byte, a: seq<Byte>, b: seq<Byte>)
    ensures Lines(a + b) == Lines(a) + Lines(b)
    ensures Chars(a + b) == Chars(a) + Chars(b)
    ensures Words(previous, a + b) == Words(previous, a) + Words(LastOr(previous, a), b)
    decreases |a|
  {
    if a == [] {
      assert a + b == b;
    } else {
      assert (a + b)[0] == a[0] && (a + b)[1..] == a[1..] + b;
      CountsSplit(a[0], a[1..], b);
      assert LastOr(a[0], a[1..]) == LastOr(previous, a);
    }
  }

  /** Bytes other than line feed add no line. */
  lemma {:induction false} NoLineFeeds(s: seq<Byte>)
    requires forall i :: 0 <= i < |s| ==> s[i] != LF
    ensures Lines(s) == 0
  {
    if s != [] {
      NoLineFeeds(s[1..]);
    }
  }

  /** There are never more characters than bytes, and exactly as many when
      no byte continues a multi-byte character. */
  lemma {:induction false} CharsBound(s: seq<Byte>)
    ensures Chars(s) <= |s|
    ensures (forall i :: 0 <= i < |s| ==> !IsContinuation(s[i])) ==> Chars(s) == |s|
  {
    if s != [] {
      CharsBound(s[1..]);
      NewCharIsNotContinuation(s[0]);
      assert forall i :: 0 <= i < |s[1..]| ==> s[1..][i] == s[i + 1];
    }
  }

  /** The word starts among the first n positions of s, counted position by
      position: a non-whitespace byte whose predecessor (the carried-in byte
      for position 0) is whitespace. */
  function StartsBefore(previous: Byte, s: seq<Byte>, n: nat): nat
    requires n <= |s|
  {
    if n == 0 then 0
    else StartsBefore(previous, s, n - 1) + (if IsNewWord(Before(previous, s, n - 1), s[n - 1]) then 1 else 0)
  }

  /** The word count is the number of word starts, and never more than the
      number of bytes. */
  lemma {:induction false} WordsAreStarts(previous: Byte, s: seq<Byte>, n: nat)
    requires n <= |s|
    ensures Words(previous, s[..n]) == StartsBefore(previous, s, n)
    ensures StartsBefore(previous, s, n) <= n
  {
    if n > 0 {
      WordsAreStarts(previous, s, n - 1);
      CountsSplit(previous, s[..n - 1], [s[n - 1]]);
      assert s[..n - 1] + [s[n - 1]] == s[..n];
      assert LastOr(previous, s[..n - 1]) == Before(previous, s, n - 1);
    }
  }

  /** Input made of whitespace alone holds no word. */
  lemma {:induction false} WhitespaceHasNoWords(previous: Byte, s: seq<Byte>)
    requires forall i :: 0 <= i < |s| ==> IsWhitespace(s[i])
    ensures Words(previous, s) == 0
    decreases |s|
  {
    if s != [] {
      WhitespaceHasNoWords(s[0], s[1..]);
    }
  }

  /** A non-empty run of non-whitespace bytes is one word if whitespace comes
      before it, and part of the word before it otherwise. */
  lemma {:induction false} WordRun(previous: Byte, s: seq<Byte>)
    requires |s| > 0 && forall i :: 0 <= i < |s| ==> !IsWhitespace(s[i])
    ensures Words(previous, s) == if IsWhitespace(previous) then 1 else 0
    decreases |s|
  {
    if |s| > 1 {
      WordRun(s[0], s[1..]);
    }
  }

  // ---------------------------------------------------------------------
  // The counting loop

  /** What one buffer contributes. */
  datatype BufferCounts = BufferCounts(lines: nat, words: nat, chars: nat, last: Byte)

  /** `process_buffer`: one pass over a non-empty buffer (the source indexes
      its last byte), starting from the byte carried over from the buffer
      before. */
  method ProcessBuffer(buffer: seq<Byte>, previousBufferEndByte: Byte) returns (r: BufferCounts)
    requires |buffer| > 0
    ensures r.lines == Lines(buffer)
    ensures r.words == Words(previousBufferEndByte, buffer)
    ensures r.chars == Chars(buffer)
    ensures r.last == buffer[|buffer| - 1]
  {
    var lineCount, wordCount, charCount := 0, 0, 0;
    var previousByte := previousBufferEndByte;
    for i := 0 to |buffer|
      invariant lineCount == Lines(buffer[..i])
      invariant charCount == Chars(buffer[..i])
      invariant wordCount == Words(previousBufferEndByte, buffer[..i])
      invariant previousByte == LastOr(previousBufferEndByte, buffer[..i])
    {
      CountsSplit(previousBufferEndByte, buffer[..i], [buffer[i]]);
      assert buffer[..i + 1] == buffer[..i] + [buffer[i]];
      if IsNewLine(buffer[i]) {
        lineCount := lineCount + 1;
      }
      if IsNewUtf8Char(buffer[i]) {
        charCount := charCount + 1;
      }
      if IsNewWord(previousByte, buffer[i]) {
        wordCount := wordCount + 1;
      }
      previousByte := buffer[i];
    }
    assert buffer[..|buffer|] == buffer;
    r := BufferCounts(lineCount, wordCount, charCount, buffer[|buffer| - 1]);
  }

  // ---------------------------------------------------------------------
  // The read loop

  /** The totals `process_reader` reports. */
  datatype Counts = Counts(byteCount: nat, charCount: nat, wordCount: nat, lineCount: nat)

  /** What one call of `read` gives: some bytes (none at end of input), or an
      I/O error. */
  datatype ReadResult = Read(data: seq<Byte>) | ReadFailed

  datatype Result<T> = Ok(value: T) | Err

  /** The counts of a whole input, read from the start with a space as the
      byte before it. */
  function CountsOf(input: seq<Byte>): (c: Counts)
    ensures c.charCount <= c.byteCount
  {
    CharsBound(input);
    Counts(|input|, Chars(input), Words(SPACE, input), Lines(input))
  }

  /** The bytes delivered before the first empty read, or no bytes at all
      when a read fails first. A reader that runs out of results behaves
      as at end of input. */
  function Delivered(results: seq<ReadResult>): Result<seq<seq<Byte>>>
  {
    if results == [] then Ok([])
    else match results[0]
      case ReadFailed => Err
      case Read(data) =>
        if |data| == 0 then Ok([])
        else match Delivered(results[1..])
          case Err => Err
          case Ok(rest) => Ok([data] + rest)
  }

  /** The chunks laid end to end. */
  function Concat(chunks: seq<seq<Byte>>): seq<Byte>
  {
    if chunks == [] then [] else chunks[0] + Concat(chunks[1..])
  }

  lemma {:induction false} ConcatAppend(chunks: seq<seq<Byte>>, last: seq<Byte>)
    ensures Concat(chunks + [last]) == Concat(chunks) + last
  {
    if chunks == [] {
      assert [] + [last] == [last];
      assert Concat([last]) == last + Concat([]);
    } else {
      assert (chunks + [last])[1..] == chunks[1..] + [last];
      ConcatAppend(chunks[1..], last);
    }
  }

  /** Chunks seen so far in front of what the remaining reads deliver. */
  function Prepend(seen: seq<seq<Byte>>, rest: Result<seq<seq<Byte>>>): Result<seq<seq<Byte>>>
  {
    match rest
    case Err => Err
    case Ok(chunks) => Ok(seen + chunks)
  }

  lemma PrependChunk(seen: seq<seq<Byte>>, chunk: seq<Byte>, rest: Result<seq<seq<Byte>>>)
    ensures Prepend(seen, Prepend([chunk], rest)) == Prepend(seen + [chunk], rest)
  {
    if rest.Ok? {
      assert seen + ([chunk] + rest.value) == (seen + [chunk]) + rest.value;
    }
  }

  /** `process_reader`: reads until an empty read, failing on the first read
      error; the totals are those of one pass over everything delivered, so
      they do not depend on how the reads cut the input into chunks. */
  method ProcessReader(results: seq<ReadResult>) returns (r: Result<Counts>)
    ensures Delivered(results).Err? ==> r.Err?
    ensures Delivered(results).Ok? ==> r == Ok(CountsOf(Concat(Delivered(results).value)))
  {
    var lineCount, wordCount, charCount, byteCount := 0, 0, 0, 0;
    var previousByte := SPACE;
    var k := 0;
    ghost var seen: seq<seq<Byte>> := [];
    assert results[0..] == results;
    assert Delivered(results).Ok? ==> [] + Delivered(results).value == Delivered(results).value;
    while k < |results|
      invariant 0 <= k <= |results|
      invariant Delivered(results) == Prepend(seen, Delivered(results[k..]))
      invariant byteCount == |Concat(seen)|
      invariant lineCount == Lines(Concat(seen))
      invariant charCount == Chars(Concat(seen))
      invariant wordCount == Words(SPACE, Concat(seen))
      invariant previousByte == LastOr(SPACE, Concat(seen))
    {
      if results[k].ReadFailed? {
        return Err;
      }
      var buffer := results[k].data;
      if |buffer| == 0 {
        break;
      }
      byteCount := byteCount + |buffer|;
      var result := ProcessBuffer(buffer, previousByte);
      CountsSplit(SPACE, Concat(seen), buffer);
      ConcatAppend(seen, buffer);
      lineCount := lineCount + result.lines;
      wordCount := wordCount + result.words;
      charCount := charCount + result.chars;
      previousByte := result.last;
      assert results[k..][1..] == results[k + 1..];
      assert Delivered(results[k..]) == Prepend([buffer], Delivered(results[k + 1..]));
      PrependChunk(seen, buffer, Delivered(results[k + 1..]));
      seen := seen + [buffer];
      k := k + 1;
    }
    assert seen + [] == seen;
    r := Ok(Counts(byteCount, charCount, wordCount, lineCount));
  }

  /** The reader tests: empty input counts nothing, and whitespace alone
      gives no word but one line per line feed. */
  lemma ReaderExamples()
    ensures CountsOf([]) == Counts(0, 0, 0, 0)
    ensures CountsOf([SPACE, TAB, SPACE, LF, SPACE, TAB]) == Counts(6, 6, 0, 1)
  {
    var ws := [SPACE, TAB, SPACE, LF, SPACE, TAB];
    WhitespaceHasNoWords(SPACE, ws);
    NoLineFeeds([SPACE, TAB, SPACE]);
    NoLineFeeds([SPACE, TAB]);
    CountsSplit(SPACE, [SPACE, TAB, SPACE], [LF]);
    CountsSplit(SPACE, [SPACE, TAB, SPACE, LF], [SPACE, TAB]);
    assert [SPACE, TAB, SPACE] + [LF] == [SPACE, TAB, SPACE, LF];
    assert [SPACE, TAB, SPACE, LF] + [SPACE, TAB] == ws;
    assert Lines([LF]) == 1;
    CharsBound(ws);
  }

  /** `process_buffer` on "hello world" and on "h\xE9llo w\xF8rld" from a
      space: two words, and the bytes 0xE9 and 0xF8 each start a character
      of their own. */
  lemma BufferExamples()
    ensures Words(SPACE, [0x68, 0x65, 0x6C, 0x6C, 0x6F, SPACE, 0x77, 0x6F, 0x72, 0x6C, 0x64]) == 2
    ensures Chars([0x68, 0xE9, 0x6C, 0x6C, 0x6F, SPACE, 0x77, 0xF8, 0x72, 0x6C, 0x64]) == 11
  {
    var hello: seq<Byte> := [0x68, 0x65, 0x6C, 0x6C, 0x6F];
    var world: seq<Byte> := [0x77, 0x6F, 0x72, 0x6C, 0x64];
    WordRun(SPACE, hello);
    WordRun(SPACE, world);
    CountsSplit(SPACE, hello, [SPACE]);
    CountsSplit(SPACE, hello + [SPACE], world);
    assert hello + [SPACE] + world == [0x68, 0x65, 0x6C, 0x6C, 0x6F, SPACE, 0x77, 0x6F, 0x72, 0x6C, 0x64];
    CharsBound([0x68, 0xE9, 0x6C, 0x6C, 0x6F, SPACE, 0x77, 0xF8, 0x72, 0x6C, 0x64]);
  }
}
