/** The editor's cursor: a screen position (1-based column, with document row `r`
    shown on screen row `r + 2`) and one saved position. Moving the cursor also
    builds a cursor-movement sequence that is never printed, so only the fields are
    modelled. */
module Cursors {
  import opened LineLayout
  import Documents
  import DocumentEdits

  /** Where `move_to_end_line` puts the cursor for a line whose last row is `last`:
      after the last character, or on the last column when the text fills whole
      rows. */
  function EndOfLine(last: nat, len: nat, width: nat): (nat, nat)
    requires width > 0
  {
    if len % width == 0 && len != 0 then (last + 2, width) else (last + 2, len % width + 1)
  }

  /** On a laid-out line that does not fill whole rows, the end position is one
      character past the text: the rows above the last hold `width` characters each
      and the column is one past the characters of the last row. */
  lemma EndOfLineAfterText(line: Line, width: nat)
    requires width > 0 && line.indices != []
    requires line.indices == Range(line.indices[0], RowSpan(|line.text|, width))
    requires |line.text| % width != 0 || |line.text| == 0
    ensures var pos := EndOfLine(Last(line.indices), |line.text|, width);
            pos.0 == Last(line.indices) + 2
            && (|line.indices| - 1) * width + (pos.1 - 1) == |line.text|
  {
    FullRowsAndRest(|line.text|, width);
  }

  /** The rows above the last hold `width` characters each and the last holds the
      remainder, when the text does not fill whole rows. */
  lemma FullRowsAndRest(len: nat, width: nat)
    requires width > 0 && (len % width != 0 || len == 0)
    ensures (RowSpan(len, width) - 1) * width + len % width == len
  {
    if len > width {
      var q := len / width;
      assert len == q * width + len % width;
    } else if len < width {
      assert len % width == len;
    }
  }

  /** Where `move_to_end_line` sends a cursor at `(row, column)` when it has looked
      up `line`: the end of that line, or nowhere when the line has no index. */
  function EndLineTarget(line: Line, row: nat, column: nat, width: nat): (nat, nat)
    requires width > 0
  {
    if line.indices == [] then (row, column) else EndOfLine(Last(line.indices), |line.text|, width)
  }

  /** The position in its line of the character under a cursor at screen row `row`
      and `column`: the line holding the document row `row - 2` is looked up, and
      the rows of it before that one count `width` characters each. */
  function PositionInLine(lines: seq<Line>, row: nat, column: nat, width: nat): nat
    requires row >= 2 && RowFound(lines, row - 2)
  {
    DocumentEdits.FoundLine(lines, row - 2);
    IndexOfRowFirst(lines, row - 2);
    PositionOf(lines[IndexOfRow(lines, row - 2)].indices, row - 2) * width + column
  }

  /** On a well-indexed document the position in the line is the distance of the
      cursor's document row from the line's first row, in rows of `width`, plus the
      column. */
  lemma PositionInLineLaidOut(lines: seq<Line>, row: nat, column: nat, width: nat)
    requires WellIndexedFrom(lines, 0) && row >= 2 && RowFound(lines, row - 2)
    ensures var k := IndexOfRow(lines, row - 2);
            k < |lines| && lines[k].indices != []
            && lines[k].indices[0] <= row - 2 < lines[k].indices[0] + |lines[k].indices|
            && PositionInLine(lines, row, column, width) == (row - 2 - lines[k].indices[0]) * width + column
  {
    var k := IndexOfRow(lines, row - 2);
    DocumentEdits.FoundLine(lines, row - 2);
    IndexOfRowFirst(lines, row - 2);
    var s := lines[k].indices;
    LineIsRange(lines, 0, k);
    var i :| 0 <= i < |s| && s[i] == row - 2;
    assert s[i] == s[0] + i;
    PositionInRange(s[0], |s|, row - 2);
  }

  /** `get_position_in_line` as written: it looks up the line holding the SCREEN row
      and searches it for the document row `row - 2`; `unwrap` panics unless both
      are found. */
  predicate PositionAsWrittenDefined(lines: seq<Line>, row: nat)
  {
    var k := IndexOfRow(lines, row);
    row >= 2 && k < |lines| && row - 2 in lines[k].indices
  }

  /** On a document whose lines each fit one row, the lookup as written never
      succeeds: the line holding screen row `row` holds only `row`, never `row - 2`. */
  lemma OneRowLinesNeverFound(texts: seq<string>, width: nat, row: nat)
    requires AllWrappable(texts, width)
    requires forall i :: 0 <= i < |texts| ==> |texts[i]| <= width
    ensures !PositionAsWrittenDefined(LayoutFrom(texts, 0, width), row)
  {
    var lines := LayoutFrom(texts, 0, width);
    var k := IndexOfRow(lines, row);
    LayoutShape(texts, 0, width);
    IndexOfRowFirst(lines, row);
    if k < |lines| {
      assert lines[k].text == texts[k];
      assert |lines[k].indices| == 1;
      assert lines[k].indices == [lines[k].indices[0]];
    }
  }

  /** `a`, `b` and `c` at width 4 take rows 0, 1 and 2. */
  lemma ThreeOneRowLines()
    ensures LayoutFrom(["a", "b", "c"], 0, 4) == [Line([0], "a"), Line([1], "b"), Line([2], "c")]
  {
    assert Range(0, 1) == [0] && Range(1, 1) == [1] && Range(2, 1) == [2];
    DocumentEdits.LayoutCons("c", [], 2, 4);
    DocumentEdits.LayoutCons("b", ["c"], 1, 4);
    DocumentEdits.LayoutCons("a", ["b", "c"], 0, 4);
    assert ["a"] + ["b", "c"] == ["a", "b", "c"];
    assert ["b"] + ["c"] == ["b", "c"];
    assert ["c"] + [] == ["c"];
  }

  /** With the cursor on screen row 2, column 1 of `a`, `b`, `c`, i.e. on `a`: as
      written, both operations look up `c`, which holds row 2; row 0 is not in it,
      so `get_position_in_line` panics, and `move_to_end_line` jumps to the end of
      `c` on screen row 4. Looking up row 0 finds `a`: position 1, end (2, 2). */
  lemma ScreenRowLookup()
    ensures var lines := [Line([0], "a"), Line([1], "b"), Line([2], "c")];
            lines == LayoutFrom(["a", "b", "c"], 0, 4)
            && IndexOfRow(lines, 2) == 2 && !PositionAsWrittenDefined(lines, 2)
            && EndLineTarget(lines[IndexOfRow(lines, 2)], 2, 1, 4) == (4, 2)
            && RowFound(lines, 0) && IndexOfRow(lines, 0) == 0
            && PositionInLine(lines, 2, 1, 4) == 1
            && EndLineTarget(lines[IndexOfRow(lines, 0)], 2, 1, 4) == (2, 2)
  {
    ThreeOneRowLines();
    var lines := [Line([0], "a"), Line([1], "b"), Line([2], "c")];
    assert 2 !in lines[0].indices && 2 !in lines[1].indices && 2 in lines[2].indices;
    Documents.IndexOfRowIs(lines, 2, 2);
    assert 0 in lines[0].indices;
    Documents.IndexOfRowIs(lines, 0, 0);
    assert PositionOf([0], 0) == 0;
  }

  class Cursor {
    var row: nat
    var column: nat
    var prevRow: nat
    var prevCol: nat

    /** `new`: the cursor at `(row, column)` with the saved position at `(0, 0)`. */
    constructor (row: nat, column: nat)
      ensures this.row == row && this.column == column
      ensures prevRow == 0 && prevCol == 0
    {
      this.row := row;
      this.column := column;
      prevRow := 0;
      prevCol := 0;
    }

    /** `get_position_in_line`, with the line looked up by the cursor's document
        row `row - 2`: whole rows before the cursor in that line times the width,
        plus the column. The lookup panics when no line holds that row. */
    method GetPositionInLine(document: Documents.Document, width: nat) returns (pos: nat)
      requires row >= 2 && RowFound(document.lines, row - 2)
      ensures pos == PositionInLine(document.lines, row, column, width)
    {
      DocumentEdits.FoundLine(document.lines, row - 2);
      var line := document.GetLineAtCursor(row - 2);
      var i := 0;
      while line.indices[i] != row - 2
        invariant 0 <= i < |line.indices|
        invariant forall j :: 0 <= j < i ==> line.indices[j] != row - 2
        invariant i <= PositionOf(line.indices, row - 2)
        decreases |line.indices| - i
      {
        i := i + 1;
      }
      pos := i * width + column;
    }

    /** `move_to_end_line`, with the line looked up by the cursor's document row
        `row - 2`: to the end of that line when it has indices; the remainder needs
        a non-zero width. */
    method MoveToEndLine(document: Documents.Document, width: nat)
      requires width > 0 && row >= 2 && IndexOfRow(document.lines, row - 2) < |document.lines|
      modifies this
      ensures (row, column) == EndLineTarget(document.lines[IndexOfRow(document.lines, old(row) - 2)],
                                             old(row), old(column), width)
      ensures prevRow == old(prevRow) && prevCol == old(prevCol)
    {
      DocumentEdits.FoundLine(document.lines, row - 2);
      var currLine := document.GetLineAtCursor(row - 2);
      if currLine.indices != [] {
        var last := currLine.indices[|currLine.indices| - 1];
        if |currLine.text| % width == 0 && |currLine.text| != 0 {
          MoveTo(last + 2, width);
        } else {
          var lenLastRow := |currLine.text| % width;
          MoveTo(last + 2, lenLastRow + 1);
        }
      }
    }

    /** `move_to`: the cursor goes to `(newRow, newCol)`; the saved position stays. */
    method MoveTo(newRow: nat, newCol: nat)
      modifies this
      ensures row == newRow && column == newCol
      ensures prevRow == old(prevRow) && prevCol == old(prevCol)
    {
      row := newRow;
      column := newCol;
    }

    /** `move_up`: one row up; the usize row must not be 0. */
    method MoveUp()
      requires row >= 1
      modifies this
      ensures row == old(row) - 1 && column == old(column)
      ensures prevRow == old(prevRow) && prevCol == old(prevCol)
    {
      row := row - 1;
    }

    /** `move_left`: one column left; the usize column must not be 0. */
    method MoveLeft()
      requires column >= 1
      modifies this
      ensures column == old(column) - 1 && row == old(row)
      ensures prevRow == old(prevRow) && prevCol == old(prevCol)
    {
      column := column - 1;
    }

    /** `move_down`: one row down, undone by `move_up`. */
    method MoveDown()
      modifies this
      ensures row == old(row) + 1 && column == old(column)
      ensures prevRow == old(prevRow) && prevCol == old(prevCol)
    {
      row := row + 1;
    }

    /** `move_right`: one column right, undone by `move_left`. */
    method MoveRight()
      modifies this
      ensures column == old(column) + 1 && row == old(row)
      ensures prevRow == old(prevRow) && prevCol == old(prevCol)
    {
      column := column + 1;
    }

    /** `move_to_left_border`: to column 1 of the same row. */
    method MoveToLeftBorder()
      modifies this
      ensures column == 1 && row == old(row)
      ensures prevRow == old(prevRow) && prevCol == old(prevCol)
    {
      column := 1;
    }

    /** `save_current_pos`: the saved position becomes the current one. */
    method SaveCurrentPos()
      modifies this
      ensures prevRow == row == old(row) && prevCol == column == old(column)
    {
      prevRow := row;
      prevCol := column;
    }

    /** `revert_pos`: back to the saved position, which is kept. */
    method RevertPos()
      modifies this
      ensures row == old(prevRow) && column == old(prevCol)
      ensures prevRow == old(prevRow) && prevCol == old(prevCol)
    {
      row := prevRow;
      column := prevCol;
    }
  }
  /** `move_down` then `move_up` puts the cursor back where it was. */
  method DownThenUp(c: Cursor)
    modifies c
    ensures c.row == old(c.row) && c.column == old(c.column)
    ensures c.prevRow == old(c.prevRow) && c.prevCol == old(c.prevCol)
  {
    c.MoveDown();
    c.MoveUp();
  }

  /** `move_right` then `move_left` puts the cursor back where it was. */
  method RightThenLeft(c: Cursor)
    modifies c
    ensures c.row == old(c.row) && c.column == old(c.column)
    ensures c.prevRow == old(c.prevRow) && c.prevCol == old(c.prevCol)
  {
    c.MoveRight();
    c.MoveLeft();
  }

  /** The cursor moves that need nothing of the position they start from. */
  datatype Move = To(row: nat, column: nat) | Down | Right | LeftBorder

  /** `save_current_pos`, any run of moves, then `revert_pos`: the cursor is back at
      the saved position, which is still saved. */
  method SaveMovesRevert(c: Cursor, moves: seq<Move>)
    modifies c
    ensures c.row == old(c.row) && c.column == old(c.column)
    ensures c.prevRow == old(c.row) && c.prevCol == old(c.column)
  {
    c.SaveCurrentPos();
    for i := 0 to |moves|
      invariant c.prevRow == old(c.row) && c.prevCol == old(c.column)
    {
      match moves[i]
      case To(r, col) => c.MoveTo(r, col);
      case Down => c.MoveDown();
      case Right => c.MoveRight();
      case LeftBorder => c.MoveToLeftBorder();
    }
    c.RevertPos();
  }
}
