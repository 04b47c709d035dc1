/** The field cutter of `cut`: the text is split into lines at `\n`, every
    line into items at the delimiter, and each line keeps the items at the
    requested 1-based positions, joined again by the delimiter. The
    positions are walked with `Iterator::nth` on one split iterator per
    line, relative to the previous position. */
module FieldCut {

  // ---------------------------------------------------------------------
  // Splitting and joining

  /** `str::split` with a one-character pattern: the pieces between the
      separators, so there is always at least one piece. */
  function Split(s: string, d: char): (parts: seq<string>)
    ensures |parts| >= 1
    ensures forall i :: 0 <= i < |parts| ==> d !in parts[i]
  {
    if s == [] then [[]]
    else
      var rest := Split(s[1..], d);
      if s[0] == d then [[]] + rest
      else [[s[0]] + rest[0]] + rest[1..]
  }

  /** `join`: the parts with the separator between neighbours; nothing for
      no parts. */
  function Join(parts: seq<string>, sep: string): string
  {
    if parts == [] then []
    else if |parts| == 1 then parts[0]
    else parts[0] + sep + Join(parts[1..], sep)
  }

  /** Joining the pieces of a split with the separator gives the text back. */
  lemma {:induction false} JoinSplit(s: string, d: char)
    ensures Join(Split(s, d), [d]) == s
  {
    if s != [] {
      JoinSplit(s[1..], d);
      var rest := Split(s[1..], d);
      if s[0] == d {
        assert ([[]] + rest)[1..] == rest;
        assert s == [] + [d] + s[1..];
      } else if |rest| == 1 {
        assert Join(rest, [d]) == rest[0];
        assert s == [s[0]] + s[1..];
      } else {
        var parts := [[s[0]] + rest[0]] + rest[1..];
        assert parts[1..] == rest[1..];
        assert Join(rest, [d]) == rest[0] + [d] + Join(rest[1..], [d]);
        assert s == [s[0]] + s[1..];
      }
    }
  }

  /** Splitting a join of separator-free parts gives the parts back. */
  lemma {:induction false} SplitJoin(parts: seq<string>, d: char)
    requires |parts| >= 1
    requires forall i :: 0 <= i < |parts| ==> d !in parts[i]
    ensures Split(Join(parts, [d]), d) == parts
    decreases |parts|, |parts[0]|
  {
    if parts[0] == [] {
      if |parts| == 1 {
      } else {
        SplitJoin(parts[1..], d);
        assert Join(parts, [d]) == [d] + Join(parts[1..], [d]);
        assert ([d] + Join(parts[1..], [d]))[1..] == Join(parts[1..], [d]);
        assert [[]] + parts[1..] == parts;
      }
    } else {
      var c := parts[0][0];
      var shorter := [parts[0][1..]] + parts[1..];
      assert shorter[1..] == parts[1..];
      forall i | 0 <= i < |shorter| ensures d !in shorter[i] {
        if i == 0 {
          assert forall x :: x in parts[0][1..] ==> x in parts[0];
        }
      }
      SplitJoin(shorter, d);
      assert Join(parts, [d]) == [c] + Join(shorter, [d]) by {
        assert parts[0] == [c] + parts[0][1..];
        if |parts| > 1 {
          assert Join(shorter, [d]) == parts[0][1..] + [d] + Join(parts[1..], [d]);
        }
      }
      assert ([c] + Join(shorter, [d]))[1..] == Join(shorter, [d]);
      assert c != d by { assert c in parts[0]; }
      assert [c] + parts[0][1..] == parts[0];
      assert [parts[0]] + parts[1..] == parts;
    }
  }

  // ---------------------------------------------------------------------
  // Picking fields out of one line

  datatype Option<T> = None | Some(value: T)

  /** `Iterator::nth` on a split iterator whose remaining pieces are
      `items`: the n-th remaining piece and the pieces after it, or nothing
      and an exhausted iterator. */
  function Nth(items: seq<string>, n: nat): (Option<string>, seq<string>)
  {
    if n < |items| then (Some(items[n]), items[n + 1..]) else (None, [])
  }

  /** The values picked for one line, or the panic of the `usize`
      subtraction `field_index - pos - 1` going below zero. */
  datatype Picked = Values(values: seq<string>) | Underflow

  /** Values already picked in front of what the remaining indices pick. */
  function PrependValues(done: seq<string>, rest: Picked): Picked
  {
    match rest
    case Underflow => Underflow
    case Values(vs) => Values(done + vs)
  }

  lemma PrependOne(done: seq<string>, value: string, rest: Picked)
    ensures PrependValues(done, PrependValues([value], rest)) == PrependValues(done + [value], rest)
  {
    if rest.Values? {
      assert done + ([value] + rest.values) == (done + [value]) + rest.values;
    }
  }

  /** The inner loop over the field indices, from the iterator state
      `items` after position `pos`; a missing piece becomes "-". */
  function Pick(items: seq<string>, pos: nat, indices: seq<nat>): Picked
    decreases |indices|
  {
    if indices == [] then Values([])
    else if indices[0] < pos + 1 then Underflow
    else
      var (elem, rest) := Nth(items, indices[0] - pos - 1);
      var value := if elem.Some? then elem.value else "-";
      PrependValues([value], Pick(rest, indices[0], indices[1..]))
  }

  /** Positions the source can walk: at least 1 and strictly increasing. */
  predicate ValidIndices(indices: seq<nat>)
  {
    (|indices| > 0 ==> indices[0] >= 1) &&
    forall i, j :: 0 <= i < j < |indices| ==> indices[i] < indices[j]
  }

  /** The item at 1-based position k, or "-" past the end of the line. */
  function Field(items: seq<string>, k: nat): string
    requires k >= 1
  {
    if k <= |items| then items[k - 1] else "-"
  }

  /** The pieces of `items` after the first `pos`. */
  function Drop(items: seq<string>, pos: nat): seq<string>
  {
    if pos <= |items| then items[pos..] else []
  }

  /** For increasing indices above `pos`, the walk relative to the previous
      position picks, for every index k, the k-th item of the line, or "-"
      when the line is shorter. */
  lemma {:induction false} PickFromDrop(items: seq<string>, pos: nat, indices: seq<nat>)
    requires forall i :: 0 <= i < |indices| ==> indices[i] > pos
    requires forall i, j :: 0 <= i < j < |indices| ==> indices[i] < indices[j]
    ensures Pick(Drop(items, pos), pos, indices) ==
            Values(seq(|indices|, i requires 0 <= i < |indices| => Field(items, indices[i])))
    decreases |indices|
  {
    if indices != [] {
      var k := indices[0];
      var (elem, rest) := Nth(Drop(items, pos), k - pos - 1);
      assert rest == Drop(items, k);
      assert (if elem.Some? then elem.value else "-") == Field(items, k);
      PickFromDrop(items, k, indices[1..]);
      assert [Field(items, k)] + seq(|indices| - 1, i requires 0 <= i < |indices| - 1 => Field(items, indices[1..][i])) ==
             seq(|indices|, i requires 0 <= i < |indices| => Field(items, indices[i]));
    }
  }

  /** With valid indices the picked values are the requested fields. */
  lemma PickFields(items: seq<string>, indices: seq<nat>)
    requires ValidIndices(indices)
    ensures Pick(items, 0, indices) ==
            Values(seq(|indices|, i requires 0 <= i < |indices| => Field(items, indices[i])))
  {
    assert Drop(items, 0) == items;
    forall i | 0 <= i < |indices| ensures indices[i] > 0 {
      if i > 0 { assert indices[0] < indices[i]; }
    }
    PickFromDrop(items, 0, indices);
  }

  /** The subtraction underflows exactly when the indices are not valid,
      whatever the line holds. */
  lemma {:induction false} PickUnderflows(items: seq<string>, pos: nat, indices: seq<nat>)
    ensures Pick(items, pos, indices).Underflow? <==>
            !((|indices| > 0 ==> indices[0] > pos) &&
              forall i, j :: 0 <= i < j < |indices| ==> indices[i] < indices[j])
    decreases |indices|
  {
    if indices != [] && indices[0] >= pos + 1 {
      var rest := Nth(items, indices[0] - pos - 1).1;
      PickUnderflows(rest, indices[0], indices[1..]);
      if forall i, j :: 0 <= i < j < |indices| ==> indices[i] < indices[j] {
        assert |indices| > 1 ==> indices[1..][0] > indices[0];
      }
      if (|indices| > 1 ==> indices[1] > indices[0]) &&
         forall i, j :: 0 <= i < j < |indices[1..]| ==> indices[1..][i] < indices[1..][j] {
        forall i, j | 0 <= i < j < |indices| ensures indices[i] < indices[j] {
          if i > 0 {
            assert indices[i] == indices[1..][i - 1] && indices[j] == indices[1..][j - 1];
          } else if j > 1 {
            assert indices[1] == indices[1..][0] && indices[j] == indices[1..][j - 1];
          }
        }
      }
    }
  }

  // ---------------------------------------------------------------------
  // The whole text

  /** The result of `cut`: the output text, or the underflow panic. */
  datatype CutResult = Output(text: string) | Panicked

  /** The output lines for the first lines of the text, in order, or the
      underflow. */
  function CutLines(lines: seq<string>, indices: seq<nat>, delim: char): Picked
  {
    if lines == [] then Values([])
    else match CutLines(lines[..|lines| - 1], indices, delim)
      case Underflow => Underflow
      case Values(done) =>
        match Pick(Split(lines[|lines| - 1], delim), 0, indices)
        case Underflow => Underflow
        case Values(vs) => Values(done + [Join(vs, [delim])])
  }

  /** `cut` as a function of its inputs. */
  function CutText(content: string, indices: seq<nat>, delim: char): CutResult
  {
    match CutLines(Split(content, '\n'), indices, delim)
    case Underflow => Panicked
    case Values(out) => Output(Join(out, ['\n']))
  }

  /** The inner loop of `cut` for one line: the values at the field
      indices, walked with `nth` on the line's split iterator. */
  method PickFieldsOf(line: string, fieldIndices: seq<nat>, delim: char) returns (p: Picked)
    ensures p == Pick(Split(line, delim), 0, fieldIndices)
  {
    var items := Split(line, delim);
    ghost var allItems := items;
    var fieldValues: seq<string> := [];
    var pos := 0;
    for f := 0 to |fieldIndices|
      invariant Pick(allItems, 0, fieldIndices) ==
                PrependValues(fieldValues, Pick(items, pos, fieldIndices[f..]))
    {
      var fieldIndex := fieldIndices[f];
      assert fieldIndices[f..][0] == fieldIndex && fieldIndices[f..][1..] == fieldIndices[f + 1..];
      if fieldIndex < pos + 1 {
        return Underflow;
      }
      var next := Nth(items, fieldIndex - pos - 1);
      var value := if next.0.Some? then next.0.value else "-";
      PrependOne(fieldValues, value, Pick(next.1, fieldIndex, fieldIndices[f + 1..]));
      items := next.1;
      pos := fieldIndex;
      fieldValues := fieldValues + [value];
    }
    assert fieldIndices[|fieldIndices|..] == [];
    assert fieldValues + [] == fieldValues;
    p := Values(fieldValues);
  }

  /** `cut`: the loop over the lines, each cut by the inner loop, and the
      output lines joined by line feeds. */
  method Cut(content: string, fieldIndices: seq<nat>, delim: char) returns (r: CutResult)
    ensures r == CutText(content, fieldIndices, delim)
  {
    var lines := Split(content, '\n');
    var fields: seq<string> := [];
    for l := 0 to |lines|
      invariant CutLines(lines[..l], fieldIndices, delim) == Values(fields)
    {
      assert lines[..l + 1][..l] == lines[..l];
      var picked := PickFieldsOf(lines[l], fieldIndices, delim);
      if picked.Underflow? {
        CutLinesUnderflow(lines, l + 1, fieldIndices, delim);
        return Panicked;
      }
      fields := fields + [Join(picked.values, [delim])];
    }
    assert lines[..|lines|] == lines;
    r := Output(Join(fields, ['\n']));
  }

  /** An underflow on some line makes the whole run an underflow. */
  lemma {:induction false} CutLinesUnderflow(lines: seq<string>, l: nat, indices: seq<nat>, delim: char)
    requires l <= |lines|
    requires CutLines(lines[..l], indices, delim) == Underflow
    ensures CutLines(lines, indices, delim) == Underflow
    decreases |lines| - l
  {
    if l < |lines| {
      assert lines[..l + 1][..l] == lines[..l];
      CutLinesUnderflow(lines, l + 1, indices, delim);
    } else {
      assert lines[..l] == lines;
    }
  }

  /** Every line gives one output line, holding the requested fields of
      that line joined by the delimiter. */
  lemma {:induction false} CutLinesFields(lines: seq<string>, indices: seq<nat>, delim: char)
    requires ValidIndices(indices)
    ensures CutLines(lines, indices, delim).Values?
    ensures |CutLines(lines, indices, delim).values| == |lines|
    ensures forall j :: 0 <= j < |lines| ==>
      CutLines(lines, indices, delim).values[j] ==
      Join(seq(|indices|, i requires 0 <= i < |indices| => Field(Split(lines[j], delim), indices[i])), [delim])
  {
    if lines != [] {
      var init := lines[..|lines| - 1];
      CutLinesFields(init, indices, delim);
      PickFields(Split(lines[|lines| - 1], delim), indices);
      forall j | 0 <= j < |init| ensures lines[j] == init[j] { }
    }
  }

  /** For valid indices and a delimiter other than a line feed, splitting
      the output at line feeds gives one line per input line, each holding
      exactly the requested fields of its input line. */
  lemma CutShape(content: string, indices: seq<nat>, delim: char)
    requires ValidIndices(indices) && delim != '\n'
    ensures CutText(content, indices, delim).Output?
    ensures var out := Split(CutText(content, indices, delim).text, '\n');
            var lines := Split(content, '\n');
            |out| == |lines| &&
            forall j :: 0 <= j < |lines| ==>
              out[j] == Join(seq(|indices|, i requires 0 <= i < |indices| => Field(Split(lines[j], delim), indices[i])), [delim])
  {
    var lines := Split(content, '\n');
    CutLinesFields(lines, indices, delim);
    var out := CutLines(lines, indices, delim).values;
    forall j | 0 <= j < |out| ensures '\n' !in out[j] {
      var items := Split(lines[j], delim);
      var vs := seq(|indices|, i requires 0 <= i < |indices| => Field(items, indices[i]));
      forall i | 0 <= i < |vs| ensures '\n' !in vs[i] {
        if indices[i] <= |items| {
          NoLineFeedInPieces(lines[j], delim, indices[i] - 1);
        }
      }
      JoinKeepsOut(vs, [delim], '\n');
    }
    SplitJoin(out, '\n');
  }

  /** The pieces of a line hold no line feed when the line holds none. */
  lemma {:induction false} NoLineFeedInPieces(line: string, d: char, k: nat)
    requires '\n' !in line && k < |Split(line, d)|
    ensures '\n' !in Split(line, d)[k]
  {
    if line != [] {
      assert forall x :: x in line[1..] ==> x in line;
      var rest := Split(line[1..], d);
      if line[0] == d {
        if k > 0 { NoLineFeedInPieces(line[1..], d, k - 1); }
      } else if k == 0 {
        NoLineFeedInPieces(line[1..], d, 0);
        assert line[0] in line;
      } else {
        NoLineFeedInPieces(line[1..], d, k);
      }
    }
  }

  /** A join holds a character only if a part or the separator does. */
  lemma {:induction false} JoinKeepsOut(parts: seq<string>, sep: string, c: char)
    requires c !in sep && forall i :: 0 <= i < |parts| ==> c !in parts[i]
    ensures c !in Join(parts, sep)
  {
    if |parts| > 1 {
      JoinKeepsOut(parts[1..], sep, c);
    }
  }

  /** `cut` panics exactly when the field indices are not valid: one below
      1, or one not above its predecessor. */
  lemma CutPanicsIff(content: string, indices: seq<nat>, delim: char)
    ensures CutText(content, indices, delim).Panicked? <==> !ValidIndices(indices)
  {
    var lines := Split(content, '\n');
    if ValidIndices(indices) {
      CutLinesFields(lines, indices, delim);
    } else {
      PickUnderflows(Split(lines[|lines| - 1], delim), 0, indices);
    }
  }

  /** A two-column table: the first column, a tab, the second column. */
  function Row(row: (string, string)): string
  {
    row.0 + "\t" + row.1
  }

  /** One row of such a table is one line whose fields are its two
      columns. */
  lemma RowFields(row: (string, string))
    requires '\t' !in row.0 && '\t' !in row.1 && '\n' !in row.0 && '\n' !in row.1
    ensures '\n' !in Row(row)
    ensures Split(Row(row), '\t') == [row.0, row.1]
  {
    JoinKeepsOut([row.0, row.1], "\t", '\n');
    assert Join([row.0, row.1], "\t") == Row(row);
    SplitJoin([row.0, row.1], '\t');
  }

  /** Cutting field 2 out of a tab-separated two-column table gives its
      second column, one value per line; the unit test's table with rows
      ("f1", "f2"), ("1", "2") and ("3", "4") is one instance. */
  lemma SecondColumn(rows: seq<(string, string)>)
    requires |rows| >= 1
    requires forall j :: 0 <= j < |rows| ==>
      '\t' !in rows[j].0 && '\t' !in rows[j].1 && '\n' !in rows[j].0 && '\n' !in rows[j].1
    ensures CutText(Join(seq(|rows|, j requires 0 <= j < |rows| => Row(rows[j])), "\n"), [2], '\t') ==
            Output(Join(seq(|rows|, j requires 0 <= j < |rows| => rows[j].1), "\n"))
  {
    var lines := seq(|rows|, j requires 0 <= j < |rows| => Row(rows[j]));
    forall j | 0 <= j < |rows| ensures '\n' !in lines[j] && Split(lines[j], '\t') == [rows[j].0, rows[j].1] {
      RowFields(rows[j]);
    }
    SplitJoin(lines, '\n');
    CutLinesFields(lines, [2], '\t');
    var out := CutLines(lines, [2], '\t').values;
    forall j | 0 <= j < |rows| ensures out[j] == rows[j].1 {
      assert seq(1, i requires 0 <= i < 1 => Field(Split(lines[j], '\t'), [2][i])) == [rows[j].1];
    }
    assert out == seq(|rows|, j requires 0 <= j < |rows| => rows[j].1);
  }
}
