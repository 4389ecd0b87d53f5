/** A document: its lines with the screen rows each one occupies, the range of rows
    on screen, and the operations the editor applies to it in place. Each edit is
    proved to compute the function of the old lines that `DocumentEdits` defines,
    so the theorems there carry over to the class. */
module Documents {
  import opened Text
  import opened LineLayout
  import opened DocumentEdits
  import EditorLayout

  /** The lines `Document::new` builds: a single empty line on row 0 for empty
      content, otherwise one line per content line, laid out from row 0. */
  function InitialLines(content: string, width: nat): seq<Line>
    requires AllWrappable(Lines(content), width)
  {
    if content == [] then [Line([0], "")] else LayoutFrom(Lines(content), 0, width)
  }

  /** The document built from `content` is laid out: consecutive rows from 0, one
      line per content line (a single empty line for empty content). */
  lemma InitialLinesShape(content: string, width: nat)
    requires AllWrappable(Lines(content), width)
    ensures var lines := InitialLines(content, width);
            Texts(lines) == (if content == [] then [""] else Lines(content))
            && AllWrappable(Texts(lines), width)
            && lines == LayoutFrom(Texts(lines), 0, width)
            && WellIndexedFrom(lines, 0) && SpansMatch(lines, width)
            && (content == [] ==> lines == [Line([0], "")])
  {
    if content == [] {
      assert Range(0, 1) == [0];
      assert LayoutFrom([""], 0, width) == [Line([0], "")] by {
        LayoutCons("", [], 0, width);
        assert [""] + [] == [""];
      }
      LayoutShape([""], 0, width);
    } else {
      LayoutShape(Lines(content), 0, width);
    }
  }

  /** Joining the lines of a new document with newlines gives back its content,
      when the content has no carriage return and does not end in a newline. */
  lemma NewDocumentRoundTrip(content: string, width: nat)
    requires AllWrappable(Lines(content), width)
    requires '\r' !in content
    requires content == [] || content[|content| - 1] != '\n'
    ensures Join(Texts(InitialLines(content, width)), '\n') == content
  {
    InitialLinesShape(content, width);
    if content != [] {
      JoinLines(content);
    }
  }

  /** The index search of `set_line_at_cursor`, `add_line_at_row` and
      `remove_line_from_doc`, described by where it stops. */
  lemma IndexOfRowIs(lines: seq<Line>, row: nat, k: nat)
    requires k <= |lines|
    requires forall j :: 0 <= j < k ==> row !in lines[j].indices
    requires k < |lines| ==> row in lines[k].indices
    ensures IndexOfRow(lines, row) == k
  {
    IndexFromIs(lines, row, 0, k);
  }

  /** One step of `recalculate_indices`: the `i`-th line gets the indices that
      follow the lines before it, and the laid-out prefix grows by one. */
  lemma RelayoutStep(texts: seq<string>, orig: seq<Line>, prev: seq<Line>, i: nat, width: nat,
                     start: nat, lines: seq<Line>)
    requires AllWrappable(texts, width) && i < |texts| == |prev| == |orig|
    requires prev[..i] == LayoutFrom(texts[..i], 0, width) && prev[i..] == orig[i..]
    requires start == TotalRows(texts[..i], width)
    requires lines == prev[i := Line(Range(start, RowSpan(|texts[i]|, width)), texts[i])]
    ensures AllWrappable(texts[..i + 1], width)
    ensures lines[..i + 1] == LayoutFrom(texts[..i + 1], 0, width) && lines[i + 1..] == orig[i + 1..]
    ensures start + RowSpan(|texts[i]|, width) == TotalRows(texts[..i + 1], width)
  {
    LayoutSnoc(texts, i, width);
    assert lines[..i + 1] == prev[..i] + [lines[i]];
    assert lines[i + 1..] == prev[i..][1..] == orig[i..][1..];
  }

  /** A layout grows by one line at its end. */
  lemma LayoutSnoc(texts: seq<string>, i: nat, width: nat)
    requires i < |texts| && AllWrappable(texts, width)
    ensures AllWrappable(texts[..i], width) && AllWrappable(texts[..i + 1], width)
    ensures var t := TotalRows(texts[..i], width);
            var n := RowSpan(|texts[i]|, width);
            TotalRows(texts[..i + 1], width) == t + n
            && LayoutFrom(texts[..i + 1], 0, width)
               == LayoutFrom(texts[..i], 0, width) + [Line(Range(t, n), texts[i])]
  {
    assert texts[..i + 1] == texts[..i] + [texts[i]];
    LayoutAppend(texts[..i], [texts[i]], 0, width);
    LayoutCons(texts[i], [], TotalRows(texts[..i], width), width);
    assert [texts[i]] + [] == [texts[i]];
  }

  // ----- rows: the display rows of a document -----

  /** The pieces the row loop of `rows` cuts a text into: `width` characters at a
      time, the last piece holding what is left. */
  function Chunks(s: string, width: nat): seq<string>
    requires Wrappable(|s|, width)
    decreases |s|
  {
    if s == [] then []
    else if |s| <= width then [s]
    else [s[..width]] + Chunks(s[width..], width)
  }

  /** The pieces are non-empty, at most `width` long, and give back the text. */
  lemma {:induction false} ChunksCover(s: string, width: nat)
    requires Wrappable(|s|, width)
    ensures Concat(Chunks(s, width)) == s
    ensures forall i :: 0 <= i < |Chunks(s, width)| ==> 0 < |Chunks(s, width)[i]| <= width
    decreases |s|
  {
    if s != [] && |s| > width {
      ChunksCover(s[width..], width);
      var c := Chunks(s, width);
      assert c[1..] == Chunks(s[width..], width);
      assert s == s[..width] + s[width..];
      forall i | 0 <= i < |c| ensures 0 < |c[i]| <= width {
        if i > 0 { assert c[i] == Chunks(s[width..], width)[i - 1]; }
      }
    }
  }

  /** A text has as many pieces as rows, except that a text longer than the width
      and a whole multiple of it gets one row more than it has pieces. */
  lemma {:induction false} ChunksCount(s: string, width: nat)
    requires s != [] && Wrappable(|s|, width)
    ensures |Chunks(s, width)|
            == RowSpan(|s|, width) - (if |s| > width && |s| % width == 0 then 1 else 0)
    decreases |s|
  {
    if |s| > width {
      var r := s[width..];
      if |r| > 0 {
        ChunksCount(r, width);
      }
      assert |s| == |r| + width;
      assert |s| / width == |r| / width + 1 && |s| % width == |r| % width by {
        DivStep(|r|, width);
      }
    }
  }

  /** Dividing `m + width` takes one more step than dividing `m`. */
  lemma DivStep(m: nat, width: nat)
    requires width > 0
    ensures (m + width) / width == m / width + 1 && (m + width) % width == m % width
  {
    var q, r := m / width, m % width;
    assert m == q * width + r;
    assert m + width == (q + 1) * width + r;
    DivUnique(m + width, width, q + 1, r);
  }

  /** Quotient and remainder are the only pair that rebuilds the dividend. */
  lemma DivUnique(n: nat, width: nat, q: nat, r: nat)
    requires width > 0 && n == q * width + r && r < width
    ensures n / width == q && n % width == r
  {
    var q', r' := n / width, n % width;
    if q' > q {
      MulMonotone(q + 1, q', width);
      assert false;
    } else if q' < q {
      MulMonotone(q' + 1, q, width);
      assert false;
    }
  }

  lemma MulMonotone(a: nat, b: nat, width: nat)
    requires a <= b
    ensures a * width <= b * width
  {
  }

  /** Pairs from two sequences, as far as the shorter one goes. */
  function Zip(inds: seq<nat>, pieces: seq<string>): (r: seq<(nat, string)>)
    ensures |r| == if |inds| < |pieces| then |inds| else |pieces|
    ensures forall i :: 0 <= i < |r| ==> r[i] == (inds[i], pieces[i])
  {
    var n := if |inds| < |pieces| then |inds| else |pieces|;
    seq(n, i requires 0 <= i < n => (inds[i], pieces[i]))
  }

  /** When every line can produce its display rows: a text fits the width rule,
      and an empty text has a row to be shown on. */
  predicate RowsDefined(lines: seq<Line>, width: nat)
  {
    forall i :: 0 <= i < |lines| ==>
      Wrappable(|lines[i].text|, width) && (lines[i].text == [] ==> lines[i].indices != [])
  }

  /** The display rows of one line: its indices paired with its pieces, or its first
      index with an empty string when it is empty. */
  function LineRows(line: Line, width: nat): seq<(nat, string)>
    requires Wrappable(|line.text|, width) && (line.text == [] ==> line.indices != [])
  {
    if line.text != [] then Zip(line.indices, Chunks(line.text, width))
    else [(line.indices[0], "")]
  }

  /** `rows`: the display rows of all lines, in order. */
  function DisplayRows(lines: seq<Line>, width: nat): seq<(nat, string)>
    requires RowsDefined(lines, width)
  {
    if lines == [] then []
    else LineRows(lines[0], width) + DisplayRows(lines[1..], width)
  }

  lemma DisplayRowsSnoc(lines: seq<Line>, i: nat, width: nat)
    requires i < |lines| && RowsDefined(lines, width)
    ensures RowsDefined(lines[..i], width) && RowsDefined(lines[..i + 1], width)
    ensures DisplayRows(lines[..i + 1], width) == DisplayRows(lines[..i], width) + LineRows(lines[i], width)
  {
    DisplayRowsAppend(lines[..i], [lines[i]], width);
    assert lines[..i] + [lines[i]] == lines[..i + 1];
    assert DisplayRows([lines[i]], width) == LineRows(lines[i], width) + DisplayRows([], width);
  }

  lemma {:induction false} DisplayRowsAppend(a: seq<Line>, b: seq<Line>, width: nat)
    requires RowsDefined(a + b, width)
    ensures RowsDefined(a, width) && RowsDefined(b, width)
    ensures DisplayRows(a + b, width) == DisplayRows(a, width) + DisplayRows(b, width)
  {
    RowsDefinedSplit(a, b, width);
    if a != [] {
      var ab := a + b;
      assert ab[0] == a[0] && ab[1..] == a[1..] + b;
      DisplayRowsAppend(a[1..], b, width);
    } else {
      assert a + b == b;
    }
  }

  lemma RowsDefinedSplit(a: seq<Line>, b: seq<Line>, width: nat)
    requires RowsDefined(a + b, width)
    ensures RowsDefined(a, width) && RowsDefined(b, width)
  {
    forall i | 0 <= i < |a|
      ensures Wrappable(|a[i].text|, width) && (a[i].text == [] ==> a[i].indices != [])
    {
      assert (a + b)[i] == a[i];
    }
    forall i | 0 <= i < |b|
      ensures Wrappable(|b[i].text|, width) && (b[i].text == [] ==> b[i].indices != [])
    {
      assert (a + b)[|a| + i] == b[i];
    }
  }

  /** On a laid-out line the rows are its pieces on its first rows: the strings
      give back the text, and each row number is the line's index at that
      position. */
  lemma LineRowsOfLaidOut(line: Line, width: nat)
    requires Wrappable(|line.text|, width) && line.text != []
    requires |line.indices| == RowSpan(|line.text|, width)
    ensures var r := LineRows(line, width);
            |r| == |Chunks(line.text, width)| <= |line.indices|
            && (forall i :: 0 <= i < |r| ==> r[i].0 == line.indices[i])
            && Concat(Seconds(r)) == line.text
  {
    ChunksCount(line.text, width);
    ChunksCover(line.text, width);
    var r := LineRows(line, width);
    assert Seconds(r) == Chunks(line.text, width);
  }

  function Seconds(rows: seq<(nat, string)>): (r: seq<string>)
    ensures |r| == |rows|
    ensures forall i :: 0 <= i < |rows| ==> r[i] == rows[i].1
  {
    seq(|rows|, i requires 0 <= i < |rows| => rows[i].1)
  }

  /** `Rows`: an iterator over display rows that holds the row it yields next. */
  class RowIter {
    var rows: seq<(nat, string)>
    var currInd: nat
    var curr: Option<(nat, string)>

    /** The iterator sits at `currInd`, holding that row until the end is passed. */
    predicate Valid()
      reads this
    {
      currInd < |rows| && (curr.Some? ==> curr.value == rows[currInd])
      && (curr.None? ==> currInd == |rows| - 1)
    }

    /** The rows still to be yielded. */
    function Remaining(): seq<(nat, string)>
      reads this
      requires Valid()
    {
      if curr.Some? then rows[currInd..] else []
    }

    /** `Rows::new` reads the first row before testing for emptiness, so it needs a
        row. */
    constructor (rows: seq<(nat, string)>)
      requires |rows| > 0
      ensures this.rows == rows && currInd == 0 && curr == Some(rows[0])
      ensures Valid() && Remaining() == rows
    {
      this.rows := rows;
      currInd := 0;
      curr := Some(rows[0]);
    }

    /** `next`: yields the held row, if any, and moves on to the following one. */
    method Next() returns (res: Option<(nat, string)>)
      requires Valid()
      modifies this
      ensures Valid() && rows == old(rows)
      ensures old(Remaining()) == [] ==> res == None && Remaining() == []
      ensures old(Remaining()) != [] ==> res == Some(old(Remaining())[0]) && Remaining() == old(Remaining())[1..]
    {
      res := curr;
      if currInd + 1 != |rows| {
        currInd := currInd + 1;
        curr := Some(rows[currInd]);
      } else {
        curr := None;
      }
    }
  }

  class Document {
    var fileName: string
    var lines: seq<Line>
    var visibleRows: (nat, nat)

    /** The lines are the layout of their texts at `width`. */
    predicate LaidOut(width: nat)
      reads this
    {
      AllWrappable(Texts(lines), width) && lines == LayoutFrom(Texts(lines), 0, width)
    }

    /** `Document::new`: each content line gets its rows from a running counter;
        empty content gives one empty line. The wrapping rule divides by the width,
        so a non-empty line needs a non-zero width. */
    constructor (fileName: string, content: string, editor: EditorLayout.Editor)
      requires AllWrappable(Lines(content), editor.editorWidth)
      ensures this.fileName == fileName
      ensures lines == InitialLines(content, editor.editorWidth)
      ensures visibleRows == (0, editor.editorHeight)
    {
      this.fileName := fileName;
      visibleRows := (0, editor.editorHeight);
      if |content| == 0 {
        lines := [Line([0], "")];
      } else {
        var width := editor.editorWidth;
        var texts := Lines(content);
        var counter := 0;
        var laid := [];
        var i := 0;
        while i < |texts|
          invariant 0 <= i <= |texts|
          invariant AllWrappable(texts[..i], width)
          invariant laid == LayoutFrom(texts[..i], 0, width)
          invariant counter == TotalRows(texts[..i], width)
        {
          LayoutSnoc(texts, i, width);
          var line;
          line, counter := FromStr(texts[i], counter, width);
          laid := laid + [line];
          i := i + 1;
        }
        assert texts[..i] == texts;
        lines := laid;
      }
    }

    /** The first line holding `row`, or the line count when none does. */
    method LineIndexAt(row: nat) returns (k: nat)
      ensures k == IndexOfRow(lines, row)
    {
      k := 0;
      while k < |lines| && row !in lines[k].indices
        invariant k <= |lines|
        invariant forall j :: 0 <= j < k ==> row !in lines[j].indices
      {
        k := k + 1;
      }
      IndexOfRowIs(lines, row, k);
    }

    /** `find_line_from_index` (through `get_line_at_cursor`): the first line whose
        indices contain `row`; the source panics when there is none. */
    method GetLineAtCursor(row: nat) returns (line: Line)
      requires RowFound(lines, row)
      ensures row in line.indices
      ensures var k := IndexOfRow(lines, row);
              k < |lines| && line == lines[k]
              && forall j :: 0 <= j < k ==> row !in lines[j].indices
    {
      var i := 0;
      while i < |lines|
        invariant i <= |lines|
        invariant forall j :: 0 <= j < i ==> row !in lines[j].indices
      {
        if row in lines[i].indices {
          IndexOfRowIs(lines, row, i);
          return lines[i];
        }
        i := i + 1;
      }
      assert false;
    }

    /** `get_str_at_cursor`: the text of the first line holding `row`. */
    method GetStrAtCursor(row: nat) returns (s: string)
      requires RowFound(lines, row)
      ensures var k := IndexOfRow(lines, row);
              k < |lines| && s == lines[k].text && row in lines[k].indices
    {
      var line := GetLineAtCursor(row);
      s := line.text;
    }

    /** `to_string` and `Display`: the texts joined by newlines. */
    function ToString(): string
      reads this
    {
      Join(Texts(lines), '\n')
    }

    /** `num_rows`: one past the last index of the last line, 0 for no lines. The
        source reads the last line's first index, so it needs one. */
    function NumRows(): nat
      reads this
      requires lines == [] || lines[|lines| - 1].indices != []
    {
      if lines == [] then 0 else Last(lines[|lines| - 1].indices) + 1
    }

    /** `get_number_lines`: how many lines the document holds. */
    function NumberLines(): nat
      reads this
    {
      |lines|
    }

    /** `remove_index_from_line`, corrected: the document row under screen row
        `cursorRow` leaves the first line holding it, which the loop over the lines
        stops at. The source subtracts 2 from `cursorRow` in unsigned arithmetic. */
    method RemoveIndexFromLine(cursorRow: nat)
      requires cursorRow >= 2
      modifies this
      ensures lines == RemoveIndex(old(lines), cursorRow - 2)
      ensures fileName == old(fileName) && visibleRows == old(visibleRows)
    {
      var row := cursorRow - 2;
      var k := LineIndexAt(row);
      if k < |lines| {
        IndexOfRowFirst(lines, row);
        var inds := lines[k].indices;
        var p := 0;
        while inds[p] != row
          invariant p <= PositionOf(inds, row)
          invariant forall j :: 0 <= j < p ==> inds[j] != row
          decreases |inds| - p
        {
          p := p + 1;
        }
        lines := lines[k := lines[k].(indices := inds[..p] + inds[p + 1..])];
      }
    }

    /** The `for i in from..len` loop that moves the indices of every line from
        `from` on down the screen by `d` rows. */
    method ShiftLinesUp(from: nat, d: nat)
      requires from <= |lines|
      modifies this
      ensures lines == old(lines)[..from] + ShiftUp(old(lines)[from..], d)
      ensures fileName == old(fileName) && visibleRows == old(visibleRows)
    {
      var i := from;
      while i < |lines|
        invariant from <= i <= |lines| == |old(lines)|
        invariant forall j :: 0 <= j < |lines| ==>
                    lines[j] == if from <= j < i then old(lines)[j].(indices := IndicesUp(old(lines)[j].indices, d))
                                else old(lines)[j]
        invariant fileName == old(fileName) && visibleRows == old(visibleRows)
      {
        lines := lines[i := lines[i].(indices := IndicesUp(lines[i].indices, d))];
        i := i + 1;
      }
      assert forall j :: 0 <= j < |old(lines)| - from ==> ShiftUp(old(lines)[from..], d)[j] == lines[from + j];
    }

    /** The same loop moving the indices up the screen by `d` rows; no index may
        fall below zero. */
    method ShiftLinesDown(from: nat, d: nat)
      requires from <= |lines| && IndicesAtLeast(lines[from..], d)
      modifies this
      ensures lines == old(lines)[..from] + ShiftDown(old(lines)[from..], d)
      ensures fileName == old(fileName) && visibleRows == old(visibleRows)
    {
      var i := from;
      while i < |lines|
        invariant from <= i <= |lines| == |old(lines)|
        invariant forall j :: 0 <= j < |lines| ==>
                    lines[j] == if from <= j < i then old(lines)[j].(indices := IndicesDown(old(lines)[j].indices, d))
                                else old(lines)[j]
        invariant fileName == old(fileName) && visibleRows == old(visibleRows)
      {
        assert lines[i] == old(lines)[from..][i - from];
        lines := lines[i := lines[i].(indices := IndicesDown(lines[i].indices, d))];
        i := i + 1;
      }
      assert forall j :: 0 <= j < |old(lines)| - from ==> ShiftDown(old(lines)[from..], d)[j] == lines[from + j];
    }

    /** `add_line_at_row`: inserts `newLine` before the first line holding `row` and
        moves every line after it down one row. */
    method AddLineAtRow(newLine: Line, row: nat)
      modifies this
      ensures lines == AddLine(old(lines), newLine, row)
      ensures fileName == old(fileName) && visibleRows == old(visibleRows)
    {
      var k := LineIndexAt(row);
      ghost var before := lines;
      lines := lines[..k] + [newLine] + lines[k..];
      assert lines[..k + 1] == before[..k] + [newLine] && lines[k + 1..] == before[k..];
      ShiftLinesUp(k + 1, 1);
    }

    /** `set_line_at_cursor`, with the followers moved to start right after the
        edited line: the line holding `row` gets `text` re-wrapped from its first
        index, and the lines after it follow on. */
    method SetLineAtCursor(row: nat, text: string, width: nat)
      requires SetLineDefined(lines, row, text, width)
      modifies this
      ensures lines == SetLine(old(lines), row, text, width)
      ensures fileName == old(fileName) && visibleRows == old(visibleRows)
    {
      FoundLine(lines, row);
      IndexOfRowFirst(lines, row);
      ghost var before := lines;
      var k := LineIndexAt(row);
      var dest := GetLineAtCursor(row);
      dest := dest.(text := text);
      var changed := FromExisting(dest, width, row);
      var last := changed.indices[|changed.indices| - 1];
      lines := lines[k := changed];
      FollowAfter(k, last);
      SetLineSteps(before, row, text, width, k, changed, last, lines);
    }

    /** The re-indexing step of `set_line_at_cursor`: the lines after the `k`-th
        are moved so that they start right after row `last`. */
    method FollowAfter(k: nat, last: nat)
      requires k < |lines| && FollowDefined(lines[k + 1..], last)
      modifies this
      ensures lines == old(lines)[..k + 1] + Follow(old(lines)[k + 1..], last, false)
      ensures fileName == old(fileName) && visibleRows == old(visibleRows)
    {
      ghost var rest := lines[k + 1..];
      if k != |lines| - 1 {
        var next := lines[k + 1].indices[0];
        assert next == rest[0].indices[0];
        if last + 1 != next {
          if last > next {
            assert Follow(rest, last, false) == ShiftUp(rest, last + 1 - next);
            ShiftLinesUp(k + 1, last + 1 - next);
          } else if last < next {
            assert Follow(rest, last, false) == ShiftDown(rest, next - (last + 1));
            ShiftLinesDown(k + 1, next - (last + 1));
          } else {
            assert Follow(rest, last, false) == ShiftUp(rest, 1);
            ShiftLinesUp(k + 1, 1);
          }
        } else {
          assert Follow(rest, last, false) == rest;
          assert lines == lines[..k + 1] + rest;
        }
      } else {
        assert rest == [];
      }
    }

    /** `remove_line_from_doc`, with the followers moved back to where the removed
        line started: the first line holding `row` is removed. */
    method RemoveLineFromDoc(row: nat)
      requires RemoveLineDefined(lines, row)
      modifies this
      ensures lines == RemoveLine(old(lines), row)
      ensures fileName == old(fileName) && visibleRows == old(visibleRows)
    {
      var k := LineIndexAt(row);
      ghost var before := lines;
      var removed := lines[k];
      lines := lines[..k] + lines[k + 1..];
      assert lines[k..] == before[k + 1..];
      MoveBackFrom(k, removed.indices[0]);
      assert lines[..k] == before[..k];
    }

    /** The re-indexing step of `remove_line_from_doc`: the lines from the `k`-th on
        are moved so that the first of them starts at row `first`. */
    method MoveBackFrom(k: nat, first: nat)
      requires k <= |lines| && MoveBackDefined(lines[k..], first)
      modifies this
      ensures lines == old(lines)[..k] + MoveBack(old(lines)[k..], first)
      ensures fileName == old(fileName) && visibleRows == old(visibleRows)
    {
      if k != |lines| {
        var next := lines[k].indices[0];
        if first != next {
          if first > next {
            ShiftLinesUp(k, first - next);
          } else {
            ShiftLinesDown(k, next - first);
          }
        } else {
          assert lines == lines[..k] + lines[k..];
        }
      } else {
        assert lines[k..] == [];
      }
    }

    /** `recalculate_indices`: every line is given its rows again from a counter
        starting at 0, by the same rule as `Document::new`. */
    method RecalculateIndices(width: nat)
      requires AllWrappable(Texts(lines), width)
      modifies this
      ensures lines == LayoutFrom(Texts(old(lines)), 0, width)
      ensures fileName == old(fileName) && visibleRows == old(visibleRows)
    {
      ghost var texts := Texts(lines);
      ghost var orig := lines;
      var counter := 0;
      var i := 0;
      while i < |lines|
        invariant 0 <= i <= |lines| == |texts|
        invariant AllWrappable(texts[..i], width)
        invariant lines[..i] == LayoutFrom(texts[..i], 0, width)
        invariant lines[i..] == orig[i..]
        invariant counter == TotalRows(texts[..i], width)
        invariant fileName == old(fileName) && visibleRows == old(visibleRows)
      {
        ghost var prev := lines;
        ghost var start := counter;
        var text := lines[i].text;
        assert prev[i] == prev[i..][0] == orig[i];
        ghost var laid := Line(Range(counter, RowSpan(|text|, width)), text);
        if |text| <= width {
          assert [counter] == Range(counter, 1);
          lines := lines[i := lines[i].(indices := [counter])];
          counter := counter + 1;
        } else {
          var overflow := |text| / width;
          var inds := ConsecutiveIndices(counter, overflow);
          lines := lines[i := lines[i].(indices := inds)];
          counter := counter + overflow;
          counter := counter + 1;
        }
        assert lines == prev[i := laid];
        RelayoutStep(texts, orig, prev, i, width, start, lines);
        i := i + 1;
      }
      assert texts[..i] == texts;
    }

    /** The loops of `rows` that collect the display rows of every line. */
    method CollectRows(width: nat) returns (rows: seq<(nat, string)>)
      requires RowsDefined(lines, width)
      ensures rows == DisplayRows(lines, width)
    {
      rows := [];
      var i := 0;
      while i < |lines|
        invariant 0 <= i <= |lines|
        invariant RowsDefined(lines[..i], width)
        invariant rows == DisplayRows(lines[..i], width)
      {
        DisplayRowsSnoc(lines, i, width);
        var lineRows := RowsOfLine(lines[i], width);
        rows := rows + lineRows;
        i := i + 1;
      }
      assert lines[..i] == lines;
    }

    /** `rows`: the display rows, handed out by an iterator, which needs at least
        one row. */
    method Rows(width: nat) returns (it: RowIter)
      requires RowsDefined(lines, width) && DisplayRows(lines, width) != []
      ensures fresh(it) && it.Valid() && it.Remaining() == DisplayRows(lines, width)
    {
      var rows := CollectRows(width);
      it := new RowIter(rows);
    }

    /** `push_vis_down`: the window starts one row lower, and its end follows while
        there are rows below it. */
    method PushVisDown()
      requires lines == [] || lines[|lines| - 1].indices != []
      modifies this
      ensures lines == old(lines) && fileName == old(fileName)
      ensures visibleRows.0 == old(visibleRows.0) + 1
      ensures visibleRows.1 == if old(visibleRows.1) < NumRows() then old(visibleRows.1) + 1 else old(visibleRows.1)
    {
      visibleRows := (visibleRows.0 + 1, visibleRows.1);
      if visibleRows.1 < NumRows() {
        visibleRows := (visibleRows.0, visibleRows.1 + 1);
      }
    }

    /** `push_vis_up`: the window starts one row higher; its end moves up too when
        the window is exactly the editor's height. The usize subtractions need the
        window not to be inverted and to start below row 0. */
    method PushVisUp(editor: EditorLayout.Editor)
      requires visibleRows.1 >= visibleRows.0 >= 1
      modifies this
      ensures visibleRows.0 == old(visibleRows.0) - 1
      ensures visibleRows.1 == if old(visibleRows.1 - visibleRows.0) == editor.editorHeight
                               then old(visibleRows.1) - 1 else old(visibleRows.1)
      ensures lines == old(lines) && fileName == old(fileName)
    {
      if visibleRows.1 - visibleRows.0 != editor.editorHeight {
        visibleRows := (visibleRows.0 - 1, visibleRows.1);
      } else {
        visibleRows := (visibleRows.0 - 1, visibleRows.1 - 1);
      }
    }
  }

  /** The body of the loop of `rows` for one line: an empty line shows on its
      first row; otherwise its pieces go on its rows, as far as both go. */
  method RowsOfLine(line: Line, width: nat) returns (rows: seq<(nat, string)>)
    requires Wrappable(|line.text|, width) && (line.text == [] ==> line.indices != [])
    ensures rows == LineRows(line, width)
  {
    if |line.text| > 0 {
      var subRows := ChunkText(line.text, width);
      ghost var pairs := Zip(line.indices, subRows);
      rows := [];
      var j := 0;
      while j < |line.indices| && j < |subRows|
        invariant 0 <= j <= |pairs|
        invariant rows == pairs[..j]
      {
        rows := rows + [(line.indices[j], subRows[j])];
        j := j + 1;
      }
      assert pairs[..j] == pairs;
    } else {
      rows := [(line.indices[0], "")];
    }
  }

  /** The `while let Some(_) = chars.peek()` loop of `rows`: takes `width`
      characters at a time until the text is used up. */
  method ChunkText(text: string, width: nat) returns (pieces: seq<string>)
    requires Wrappable(|text|, width)
    ensures pieces == Chunks(text, width)
  {
    pieces := [];
    var rest := text;
    while rest != []
      invariant Wrappable(|rest|, width)
      invariant pieces + Chunks(rest, width) == Chunks(text, width)
      decreases |rest|
    {
      var n := if |rest| < width then |rest| else width;
      if |rest| <= width {
        assert rest[..n] == rest && rest[n..] == [];
      }
      assert [rest[..n]] + Chunks(rest[n..], width) == Chunks(rest, width);
      pieces := pieces + [rest[..n]];
      rest := rest[n..];
    }
  }

  /** A document's row count is the number of rows its lines cover, and exactly the
      rows below it are held by some line. */
  lemma NumRowsCovered(d: Document)
    requires WellIndexedFrom(d.lines, 0)
    ensures d.lines == [] || d.lines[|d.lines| - 1].indices != []
    ensures d.NumRows() == RowsSpanned(d.lines)
    ensures forall row: nat :: RowFound(d.lines, row) <==> row < d.NumRows()
  {
    if d.lines != [] {
      LastIndex(d.lines, 0);
    }
    forall row: nat ensures RowFound(d.lines, row) <==> row < d.NumRows() {
      RowCovered(d.lines, 0, row);
    }
  }

  /** On a laid-out document the row count is the total of the texts' spans. */
  lemma NumRowsOfLayout(d: Document, width: nat)
    requires d.LaidOut(width)
    ensures d.lines == [] || d.lines[|d.lines| - 1].indices != []
    ensures d.NumRows() == TotalRows(Texts(d.lines), width)
  {
    LayoutShape(Texts(d.lines), 0, width);
    NumRowsCovered(d);
  }

  /** A well-indexed document has no more lines than rows. */
  lemma LinesWithinRows(d: Document)
    requires WellIndexedFrom(d.lines, 0)
    ensures d.lines == [] || d.lines[|d.lines| - 1].indices != []
    ensures d.NumberLines() <= d.NumRows()
  {
    NumRowsCovered(d);
    LinesWithinSpan(d.lines, 0);
  }
}
