/** What the editing operations of a document do to its sequence of lines, as
    functions of the old lines: inserting a line, replacing the text of the line
    under the cursor, and removing that line. Each is followed by the theorem that,
    applied to a freshly laid-out document, it yields the layout of the edited
    texts, so the document invariant of `LineLayout` survives the edit.

    Two of the source's re-indexing steps are also modelled as written, next to a
    concrete input on which they break the invariant. */
module DocumentEdits {
  import opened Text
  import opened LineLayout

  /** A layout seen around its `k`-th line. */
  lemma LayoutAround(texts: seq<string>, k: nat, start: nat, width: nat)
    requires AllWrappable(texts, width) && k < |texts|
    ensures AllWrappable(texts[..k], width) && AllWrappable(texts[k + 1..], width)
    ensures var t := start + TotalRows(texts[..k], width);
            var n := RowSpan(|texts[k]|, width);
            LayoutFrom(texts, start, width)
              == LayoutFrom(texts[..k], start, width) + [Line(Range(t, n), texts[k])]
                 + LayoutFrom(texts[k + 1..], t + n, width)
  {
    assert texts == texts[..k] + texts[k..];
    LayoutAppend(texts[..k], texts[k..], start, width);
    assert texts[k..][1..] == texts[k + 1..];
  }

  /** A layout seen at its first line. */
  lemma LayoutCons(text: string, rest: seq<string>, start: nat, width: nat)
    requires Wrappable(|text|, width) && AllWrappable(rest, width)
    ensures AllWrappable([text] + rest, width)
    ensures var n := RowSpan(|text|, width);
            LayoutFrom([text] + rest, start, width)
              == [Line(Range(start, n), text)] + LayoutFrom(rest, start + n, width)
  {
    assert ([text] + rest)[1..] == rest;
  }

  /** The index search stops inside the document exactly when some line holds
      `row`. */
  lemma FoundLine(lines: seq<Line>, row: nat)
    ensures RowFound(lines, row) <==> IndexOfRow(lines, row) < |lines|
  {
    IndexOfRowFirst(lines, row);
    if RowFound(lines, row) {
      var i :| 0 <= i < |lines| && row in lines[i].indices;
    }
  }

  /** The `k`-th line of `lines` replaced by `changed`, and the lines after it by
      `tail`. */
  function Splice(lines: seq<Line>, k: nat, changed: Line, tail: seq<Line>): (r: seq<Line>)
    requires k < |lines|
    ensures |r| == k + 1 + |tail|
  {
    lines[..k] + [changed] + tail
  }

  /** Replacing the `k`-th line by one with new text, and the lines after it by
      lines with the same texts, changes only the `k`-th text. */
  lemma TextsSplice(lines: seq<Line>, k: nat, changed: Line, tail: seq<Line>)
    requires k < |lines|
    requires Texts(tail) == Texts(lines[k + 1..])
    ensures var r := Splice(lines, k, changed, tail);
            r[..k] == lines[..k] && r[k] == changed
            && Texts(r) == Texts(lines)[k := changed.text]
  {
    var r := Splice(lines, k, changed, tail);
    assert r[..k] == lines[..k];
    assert |Texts(tail)| == |lines| - k - 1;
    forall i | 0 <= i < |r| ensures Texts(r)[i] == Texts(lines)[k := changed.text][i] {
      if i > k { assert Texts(tail)[i - k - 1] == Texts(lines[k + 1..])[i - k - 1]; }
    }
  }

  // ----- add_line_at_row -----

  /** `add_line_at_row`: `newLine` goes just before the first line holding `row` (at
      the end when none does), and every line after it moves down one row. */
  function AddLine(lines: seq<Line>, newLine: Line, row: nat): seq<Line>
  {
    var k := IndexOfRow(lines, row);
    lines[..k] + [newLine] + ShiftUp(lines[k..], 1)
  }

  /** Inserting a line that fits one row, numbered where the line it displaces
      started, into a laid-out document gives the layout with the text inserted. */
  lemma AddLineKeepsLayout(texts: seq<string>, row: nat, text: string, width: nat)
    requires AllWrappable(texts, width)
    requires |text| <= width
    ensures var lines := LayoutFrom(texts, 0, width);
            var k := IndexOfRow(lines, row);
            AllWrappable(texts[..k] + [text] + texts[k..], width)
            && AddLine(lines, Line([TotalRows(texts[..k], width)], text), row)
               == LayoutFrom(texts[..k] + [text] + texts[k..], 0, width)
  {
    var lines := LayoutFrom(texts, 0, width);
    var k := IndexOfRow(lines, row);
    var head, tail := InsertPieces(texts, k, text, width);
    AddLineOnPieces(lines, Line([TotalRows(texts[..k], width)], text), row, k, head, tail);
  }

  /** The layout of `texts` split before its `k`-th line into `head` and the rest,
      whose lines moved down one row are `tail`: with a one-row line for `text`
      between them, the layout with `text` inserted. */
  lemma InsertPieces(texts: seq<string>, k: nat, text: string, width: nat)
    returns (head: seq<Line>, tail: seq<Line>)
    requires AllWrappable(texts, width) && k <= |texts| && |text| <= width
    ensures AllWrappable(texts[..k] + [text] + texts[k..], width)
    ensures LayoutFrom(texts[..k] + [text] + texts[k..], 0, width)
              == head + [Line([TotalRows(texts[..k], width)], text)] + tail
    ensures var lines := LayoutFrom(texts, 0, width);
            lines[..k] == head && ShiftUp(lines[k..], 1) == tail
  {
    var t := TotalRows(texts[..k], width);
    head := LayoutFrom(texts[..k], 0, width);
    tail := LayoutFrom(texts[k..], t + 1, width);
    SplitBefore(texts, k, width);
    ShiftUpLayout(texts[k..], t, 1, width);
    InsertedLayout(texts[..k], texts[k..], text, width);
  }

  /** A layout split before its `k`-th line. */
  lemma SplitBefore(texts: seq<string>, k: nat, width: nat)
    requires AllWrappable(texts, width) && k <= |texts|
    ensures AllWrappable(texts[..k], width) && AllWrappable(texts[k..], width)
    ensures var lines := LayoutFrom(texts, 0, width);
            |lines| == |texts|
            && lines[..k] == LayoutFrom(texts[..k], 0, width)
            && lines[k..] == LayoutFrom(texts[k..], TotalRows(texts[..k], width), width)
  {
    var a, c := texts[..k], texts[k..];
    assert texts == a + c;
    LayoutAppend(a, c, 0, width);
    var head := LayoutFrom(a, 0, width);
    var rest := LayoutFrom(c, TotalRows(a, width), width);
    assert (head + rest)[..k] == head && (head + rest)[k..] == rest;
  }

  /** `AddLine` seen through the pieces of the old lines. */
  lemma AddLineOnPieces(lines: seq<Line>, newLine: Line, row: nat, k: nat, head: seq<Line>, tail: seq<Line>)
    requires IndexOfRow(lines, row) == k
    requires lines[..k] == head && ShiftUp(lines[k..], 1) == tail
    ensures AddLine(lines, newLine, row) == head + [newLine] + tail
  {
  }

  /** The layout of texts with a one-row text inserted after `a`. */
  lemma InsertedLayout(a: seq<string>, c: seq<string>, text: string, width: nat)
    requires AllWrappable(a, width) && AllWrappable(c, width) && |text| <= width
    ensures AllWrappable(a + [text] + c, width)
    ensures var t := TotalRows(a, width);
            LayoutFrom(a + [text] + c, 0, width)
              == LayoutFrom(a, 0, width) + [Line([t], text)] + LayoutFrom(c, t + 1, width)
  {
    var t := TotalRows(a, width);
    LayoutCons(text, c, t, width);
    assert Range(t, 1) == [t];
    LayoutAppend(a, [text] + c, 0, width);
    assert a + [text] + c == a + ([text] + c);
    var head := LayoutFrom(a, 0, width);
    var tail := LayoutFrom(c, t + 1, width);
    assert head + ([Line([t], text)] + tail) == head + [Line([t], text)] + tail;
  }

  // ----- set_line_at_cursor -----

  /** When re-indexing the lines after an edited line that now ends at row `last`
      is well defined: the next line has a first index, and a downward shift does
      not take any index below zero. */
  predicate FollowDefined(rest: seq<Line>, last: nat)
  {
    rest != [] ==>
      rest[0].indices != []
      && (last + 1 < rest[0].indices[0] ==> IndicesAtLeast(rest, rest[0].indices[0] - (last + 1)))
  }

  /** The tail of `set_line_at_cursor`: when the edited line's last index `last` is
      no longer just before the next line's first index `next`, every later line is
      shifted. `asWritten` selects the source's amount for a line that grew past
      `next`, `last - (next + 1)`; otherwise it is `last + 1 - next`. */
  function Follow(rest: seq<Line>, last: nat, asWritten: bool): (r: seq<Line>)
    requires FollowDefined(rest, last)
    ensures |r| == |rest|
  {
    if rest == [] then []
    else
      var next := rest[0].indices[0];
      if last + 1 == next then rest
      else if last > next then ShiftUp(rest, if asWritten then last - (next + 1) else last + 1 - next)
      else if last < next then ShiftDown(rest, next - (last + 1))
      else ShiftUp(rest, 1)
  }

  /** Re-indexing keeps every text. */
  lemma FollowTexts(rest: seq<Line>, last: nat, asWritten: bool)
    requires FollowDefined(rest, last)
    ensures Texts(Follow(rest, last, asWritten)) == Texts(rest)
  {
  }

  /** The corrected re-indexing moves a laid-out run to start right after `last`. */
  lemma FollowLayout(texts: seq<string>, start: nat, last: nat, width: nat)
    requires AllWrappable(texts, width)
    ensures FollowDefined(LayoutFrom(texts, start, width), last)
    ensures Follow(LayoutFrom(texts, start, width), last, false) == LayoutFrom(texts, last + 1, width)
  {
    var rest := LayoutFrom(texts, start, width);
    if texts != [] {
      LayoutCons(texts[0], texts[1..], start, width);
      assert texts == [texts[0]] + texts[1..];
      assert rest[0].indices[0] == start;
      if last + 1 > start {
        ShiftUpLayout(texts, start, last + 1 - start, width);
      } else if last + 1 < start {
        ShiftDownLayout(texts, start, start - (last + 1), width);
      }
    }
  }

  /** `FollowLayout` for a run given by name. */
  lemma FollowLayoutOf(rest: seq<Line>, texts: seq<string>, start: nat, last: nat, width: nat)
    requires AllWrappable(texts, width) && rest == LayoutFrom(texts, start, width)
    ensures FollowDefined(rest, last)
    ensures Follow(rest, last, false) == LayoutFrom(texts, last + 1, width)
  {
    FollowLayout(texts, start, last, width);
  }

  /** When `set_line_at_cursor` is well defined: the row is found, the new text can
      be wrapped, and the re-indexing of the lines after it is well defined. */
  predicate SetLineDefined(lines: seq<Line>, row: nat, text: string, width: nat)
  {
    var k := IndexOfRow(lines, row);
    k < |lines| && lines[k].indices != [] && Wrappable(|text|, width)
    && FollowDefined(lines[k + 1..], lines[k].indices[0] + RowSpan(|text|, width) - 1)
  }

  /** `set_line_at_cursor`: the line holding `row` gets `text`, re-wrapped from its
      first index (`from_existing`), and the lines after it follow it. */
  function SetLineWith(lines: seq<Line>, row: nat, text: string, width: nat, asWritten: bool): (r: seq<Line>)
    requires SetLineDefined(lines, row, text, width)
    ensures |r| == |lines|
  {
    SetLineAt(lines, IndexOfRow(lines, row), text, width, asWritten)
  }

  /** The edit at the `k`-th line: its text becomes `text` re-wrapped from its
      first index, and the lines after it follow it. */
  function SetLineAt(lines: seq<Line>, k: nat, text: string, width: nat, asWritten: bool): (r: seq<Line>)
    requires k < |lines| && lines[k].indices != [] && Wrappable(|text|, width)
    requires FollowDefined(lines[k + 1..], lines[k].indices[0] + RowSpan(|text|, width) - 1)
    ensures |r| == |lines|
  {
    var first := lines[k].indices[0];
    var n := RowSpan(|text|, width);
    Splice(lines, k, Line(Range(first, n), text), Follow(lines[k + 1..], first + n - 1, asWritten))
  }

  /** The source's re-indexing: a grown line shifts its followers by
      `last - (next + 1)`, two rows too few. */
  function SetLineAsWritten(lines: seq<Line>, row: nat, text: string, width: nat): (r: seq<Line>)
    requires SetLineDefined(lines, row, text, width)
    ensures |r| == |lines|
  {
    SetLineWith(lines, row, text, width, true)
  }

  /** The corrected re-indexing: a grown line shifts its followers by
      `last + 1 - next`, so the next line starts right after it. */
  function SetLine(lines: seq<Line>, row: nat, text: string, width: nat): (r: seq<Line>)
    requires SetLineDefined(lines, row, text, width)
    ensures |r| == |lines|
  {
    SetLineWith(lines, row, text, width, false)
  }

  /** `SetLineWith` with the line found by the search, `k`, named. */
  lemma SetLineUnfold(lines: seq<Line>, row: nat, text: string, width: nat, asWritten: bool)
    requires SetLineDefined(lines, row, text, width)
    ensures var k := IndexOfRow(lines, row);
            var first := lines[k].indices[0];
            var n := RowSpan(|text|, width);
            SetLineWith(lines, row, text, width, asWritten)
              == lines[..k] + [Line(Range(first, n), text)] + Follow(lines[k + 1..], first + n - 1, asWritten)
  {
  }

  /** Either way, the line count is kept, the lines before the target are
      untouched, the target gets `text` re-wrapped from its first index, and no
      other text changes. */
  lemma SetLineEffect(lines: seq<Line>, row: nat, text: string, width: nat, asWritten: bool)
    requires SetLineDefined(lines, row, text, width)
    ensures var r := SetLineWith(lines, row, text, width, asWritten);
            var k := IndexOfRow(lines, row);
            k < |lines|
            && r[..k] == lines[..k]
            && r[k].text == text
            && r[k].indices == Range(lines[k].indices[0], RowSpan(|text|, width))
            && Texts(r) == Texts(lines)[k := text]
  {
    var k := IndexOfRow(lines, row);
    var first := lines[k].indices[0];
    var n := RowSpan(|text|, width);
    FollowTexts(lines[k + 1..], first + n - 1, asWritten);
    TextsSplice(lines, k, Line(Range(first, n), text), Follow(lines[k + 1..], first + n - 1, asWritten));
  }

  /** Replacing the text of the line holding a covered row of a laid-out document
      gives the layout with that text replaced: the invariant survives. */
  lemma SetLineKeepsLayout(texts: seq<string>, row: nat, text: string, width: nat)
    requires AllWrappable(texts, width) && Wrappable(|text|, width)
    requires row < TotalRows(texts, width)
    ensures var lines := LayoutFrom(texts, 0, width);
            var k := IndexOfRow(lines, row);
            k < |texts| && SetLineDefined(lines, row, text, width)
            && AllWrappable(texts[k := text], width)
            && SetLine(lines, row, text, width) == LayoutFrom(texts[k := text], 0, width)
  {
    var lines := LayoutFrom(texts, 0, width);
    var k := IndexOfRow(lines, row);
    assert k < |texts| by { CoveredRowFound(texts, row, width); }
    var head, t, moved := ReplacePieces(texts, k, text, width);
    SetLineOnPieces(lines, row, text, width, k, head, t, moved);
  }

  /** The corrected edit on a document whose line `k` holds `row` and starts at row
      `t` after the lines `head`, when the lines after it, moved to follow the
      edited line, are `moved`. */
  lemma SetLineOnPieces(lines: seq<Line>, row: nat, text: string, width: nat, k: nat,
                        head: seq<Line>, t: nat, moved: seq<Line>)
    requires k < |lines| && IndexOfRow(lines, row) == k && lines[..k] == head
    requires lines[k].indices != [] && lines[k].indices[0] == t && Wrappable(|text|, width)
    requires FollowDefined(lines[k + 1..], t + RowSpan(|text|, width) - 1)
    requires Follow(lines[k + 1..], t + RowSpan(|text|, width) - 1, false) == moved
    ensures SetLineDefined(lines, row, text, width)
    ensures SetLine(lines, row, text, width) == head + [Line(Range(t, RowSpan(|text|, width)), text)] + moved
  {
    var n := RowSpan(|text|, width);
    var edited := Line(Range(t, n), text);
    assert SetLine(lines, row, text, width) == SetLineAt(lines, k, text, width, false);
    assert SetLineAt(lines, k, text, width, false) == Splice(lines, k, edited, moved);
    assert Splice(lines, k, edited, moved) == head + [edited] + moved;
  }

  /** The state reached by the steps of `set_line_at_cursor` (the `k`-th line
      replaced by `changed`, then the lines after it made to follow row `last`) is
      `SetLine`. */
  lemma SetLineSteps(lines: seq<Line>, row: nat, text: string, width: nat, k: nat,
                     changed: Line, last: nat, after: seq<Line>)
    requires SetLineDefined(lines, row, text, width) && k == IndexOfRow(lines, row)
    requires changed == Line(Range(lines[k].indices[0], RowSpan(|text|, width)), text)
    requires last == lines[k].indices[0] + RowSpan(|text|, width) - 1
    requires after == lines[k := changed][..k + 1] + Follow(lines[k := changed][k + 1..], last, false)
    ensures after == SetLine(lines, row, text, width)
  {
    var mid := lines[k := changed];
    assert mid[..k + 1] == lines[..k] + [changed];
    assert mid[k + 1..] == lines[k + 1..];
    SetLineUnfold(lines, row, text, width, false);
  }

  /** The layout of `texts` seen around its `k`-th line, which starts at row `t`
      after the lines `head`. */
  lemma SplitLayout(texts: seq<string>, k: nat, width: nat) returns (head: seq<Line>, t: nat)
    requires AllWrappable(texts, width) && k < |texts|
    ensures AllWrappable(texts[..k], width) && AllWrappable(texts[k + 1..], width)
    ensures head == LayoutFrom(texts[..k], 0, width) && t == TotalRows(texts[..k], width)
    ensures var lines := LayoutFrom(texts, 0, width);
            |lines| == |texts| && lines[..k] == head
            && lines[k] == Line(Range(t, RowSpan(|texts[k]|, width)), texts[k])
            && lines[k].indices != [] && lines[k].indices[0] == t
            && lines[k + 1..] == LayoutFrom(texts[k + 1..], t + RowSpan(|texts[k]|, width), width)
  {
    head := LayoutFrom(texts[..k], 0, width);
    t := TotalRows(texts[..k], width);
    var lines := LayoutFrom(texts, 0, width);
    var mid := Line(Range(t, RowSpan(|texts[k]|, width)), texts[k]);
    var rest := LayoutFrom(texts[k + 1..], t + RowSpan(|texts[k]|, width), width);
    assert lines == head + [mid] + rest by {
      LayoutAround(texts, k, 0, width);
    }
    SliceAround(lines, head, mid, rest);
  }

  /** The slices of `head + [mid] + rest` around position `|head|`. */
  lemma SliceAround<T>(s: seq<T>, head: seq<T>, mid: T, rest: seq<T>)
    requires s == head + [mid] + rest
    ensures var k := |head|; s[..k] == head && s[k] == mid && s[k + 1..] == rest
  {
    var k := |head|;
    assert s[..k] == head;
    assert s[k + 1..] == rest;
  }

  /** A sequence is its slices around any position. */
  lemma JoinAround<T>(s: seq<T>, k: nat)
    requires k < |s|
    ensures s == s[..k] + [s[k]] + s[k + 1..]
  {
  }

  /** The layout of `texts` around its `k`-th line, which starts at row `t` after
      the lines `head`, and the lines after it moved to follow the `k`-th line with
      `text` re-wrapped, `moved`: together the layout with the `k`-th text
      replaced. */
  lemma ReplacePieces(texts: seq<string>, k: nat, text: string, width: nat)
    returns (head: seq<Line>, t: nat, moved: seq<Line>)
    requires AllWrappable(texts, width) && Wrappable(|text|, width) && k < |texts|
    ensures AllWrappable(texts[k := text], width)
    ensures LayoutFrom(texts[k := text], 0, width) == head + [Line(Range(t, RowSpan(|text|, width)), text)] + moved
    ensures var lines := LayoutFrom(texts, 0, width);
            var n := RowSpan(|text|, width);
            |lines| == |texts| && lines[..k] == head
            && lines[k].indices != [] && lines[k].indices[0] == t
            && FollowDefined(lines[k + 1..], t + n - 1)
            && Follow(lines[k + 1..], t + n - 1, false) == moved
  {
    head, t, moved := FollowPieces(texts, k, RowSpan(|text|, width), width);
    EditedLayout(texts, k, text, width, head, t, moved);
  }

  /** The layout of `texts` around its `k`-th line, which starts at row `t` after
      the lines `head`, and the lines after it moved to follow a `k`-th line of `n`
      rows: `moved`, the layout of the later texts from row `t + n`. */
  lemma FollowPieces(texts: seq<string>, k: nat, n: nat, width: nat)
    returns (head: seq<Line>, t: nat, moved: seq<Line>)
    requires AllWrappable(texts, width) && k < |texts| && n > 0
    ensures AllWrappable(texts[..k], width) && AllWrappable(texts[k + 1..], width)
    ensures head == LayoutFrom(texts[..k], 0, width) && t == TotalRows(texts[..k], width)
    ensures moved == LayoutFrom(texts[k + 1..], t + n, width)
    ensures var lines := LayoutFrom(texts, 0, width);
            |lines| == |texts| && lines[..k] == head
            && lines[k].indices != [] && lines[k].indices[0] == t
            && FollowDefined(lines[k + 1..], t + n - 1)
            && Follow(lines[k + 1..], t + n - 1, false) == moved
  {
    var lines := LayoutFrom(texts, 0, width);
    var nk := RowSpan(|texts[k]|, width);
    head, t := SplitLayout(texts, k, width);
    var b := texts[k + 1..];
    moved := LayoutFrom(b, t + n, width);
    FollowLayoutOf(lines[k + 1..], b, t + nk, t + n - 1, width);
  }

  /** The layout of `texts` with its `k`-th text replaced, around that line. */
  lemma EditedLayout(texts: seq<string>, k: nat, text: string, width: nat,
                      head: seq<Line>, t: nat, moved: seq<Line>)
    requires AllWrappable(texts, width) && Wrappable(|text|, width) && k < |texts|
    requires AllWrappable(texts[..k], width) && AllWrappable(texts[k + 1..], width)
    requires head == LayoutFrom(texts[..k], 0, width) && t == TotalRows(texts[..k], width)
    requires moved == LayoutFrom(texts[k + 1..], t + RowSpan(|text|, width), width)
    ensures AllWrappable(texts[k := text], width)
    ensures LayoutFrom(texts[k := text], 0, width) == head + [Line(Range(t, RowSpan(|text|, width)), text)] + moved
  {
    var edited := texts[k := text];
    assert edited[..k] == texts[..k] && edited[k + 1..] == texts[k + 1..] && edited[k] == text;
    LayoutAround(edited, k, 0, width);
  }

  /** Three texts that each fit one row of width 2. */
  lemma ThreeShortLines()
    ensures LayoutFrom(["ab", "cd", "ef"], 0, 2) == [Line([0], "ab"), Line([1], "cd"), Line([2], "ef")]
  {
    assert Range(0, 1) == [0] && Range(1, 1) == [1] && Range(2, 1) == [2];
    LayoutCons("ef", [], 2, 2);
    LayoutCons("cd", ["ef"], 1, 2);
    LayoutCons("ab", ["cd", "ef"], 0, 2);
    assert ["ab"] + ["cd", "ef"] == ["ab", "cd", "ef"];
    assert ["cd"] + ["ef"] == ["cd", "ef"];
    assert ["ef"] + [] == ["ef"];
  }

  /** On three one-row lines at width 2, growing the first to four rows makes the
      source shift the other two by one row instead of three: row 2 then belongs to
      two lines, and rows no longer follow on. */
  lemma SetLineOverlap()
    ensures var lines := [Line([0], "ab"), Line([1], "cd"), Line([2], "ef")];
            lines == LayoutFrom(["ab", "cd", "ef"], 0, 2)
            && SetLineDefined(lines, 0, "abcdef", 2)
            && var r := SetLineAsWritten(lines, 0, "abcdef", 2);
               r == [Line([0, 1, 2, 3], "abcdef"), Line([2], "cd"), Line([3], "ef")]
               && 2 in r[0].indices && 2 in r[1].indices
               && !WellIndexedFrom(r, 0)
  {
    ThreeShortLines();
    ShortLinesAsWritten();
    var r := [Line([0, 1, 2, 3], "abcdef"), Line([2], "cd"), Line([3], "ef")];
    assert r[1].indices != Range(4, 1);
  }

  /** The source's re-indexing of `SetLineOverlap`, computed. */
  lemma ShortLinesAsWritten()
    ensures var lines := [Line([0], "ab"), Line([1], "cd"), Line([2], "ef")];
            SetLineDefined(lines, 0, "abcdef", 2)
            && SetLineAsWritten(lines, 0, "abcdef", 2)
               == [Line([0, 1, 2, 3], "abcdef"), Line([2], "cd"), Line([3], "ef")]
  {
    var lines := [Line([0], "ab"), Line([1], "cd"), Line([2], "ef")];
    assert IndexOfRow(lines, 0) == 0;
    assert Range(0, 4) == [0, 1, 2, 3];
    assert lines[1..] == [Line([1], "cd"), Line([2], "ef")];
    SetLineUnfold(lines, 0, "abcdef", 2, true);
    assert IndicesUp([1], 1) == [2] && IndicesUp([2], 1) == [3];
    var r := [Line([0, 1, 2, 3], "abcdef"), Line([2], "cd"), Line([3], "ef")];
    assert [Line(Range(0, 4), "abcdef")] + ShiftUp(lines[1..], 1) == r;
  }

  /** The same edit, corrected: the other two lines move down three rows, which is
      the layout of the edited texts. */
  lemma SetLineOverlapCorrected()
    ensures var lines := [Line([0], "ab"), Line([1], "cd"), Line([2], "ef")];
            SetLineDefined(lines, 0, "abcdef", 2)
            && SetLine(lines, 0, "abcdef", 2) == LayoutFrom(["abcdef", "cd", "ef"], 0, 2)
  {
    ShortLinesReindexed();
    EditedShortLines();
  }

  /** The corrected re-indexing of `SetLineOverlap`, computed. */
  lemma ShortLinesReindexed()
    ensures var lines := [Line([0], "ab"), Line([1], "cd"), Line([2], "ef")];
            SetLineDefined(lines, 0, "abcdef", 2)
            && SetLine(lines, 0, "abcdef", 2)
               == [Line([0, 1, 2, 3], "abcdef"), Line([4], "cd"), Line([5], "ef")]
  {
    var lines := [Line([0], "ab"), Line([1], "cd"), Line([2], "ef")];
    assert IndexOfRow(lines, 0) == 0;
    assert Range(0, 4) == [0, 1, 2, 3];
    assert lines[1..] == [Line([1], "cd"), Line([2], "ef")];
    SetLineUnfold(lines, 0, "abcdef", 2, false);
    assert IndicesUp([1], 3) == [4] && IndicesUp([2], 3) == [5];
    var r := [Line([0, 1, 2, 3], "abcdef"), Line([4], "cd"), Line([5], "ef")];
    assert [Line(Range(0, 4), "abcdef")] + ShiftUp(lines[1..], 3) == r;
  }

  /** The texts of `SetLineOverlap` after the edit, laid out at width 2. */
  lemma EditedShortLines()
    ensures LayoutFrom(["abcdef", "cd", "ef"], 0, 2)
            == [Line([0, 1, 2, 3], "abcdef"), Line([4], "cd"), Line([5], "ef")]
  {
    assert Range(0, 4) == [0, 1, 2, 3] && Range(4, 1) == [4] && Range(5, 1) == [5];
    LayoutCons("ef", [], 5, 2);
    LayoutCons("cd", ["ef"], 4, 2);
    LayoutCons("abcdef", ["cd", "ef"], 0, 2);
    assert ["abcdef"] + ["cd", "ef"] == ["abcdef", "cd", "ef"];
    assert ["cd"] + ["ef"] == ["cd", "ef"];
    assert ["ef"] + [] == ["ef"];
  }

  // ----- remove_line_from_doc -----

  /** When the source's re-indexing after a removal is well defined: the row is
      found and, whenever its guard fires, the line two past the removed one exists
      and a downward shift stays at or above zero. */
  predicate RemoveLineAsWrittenDefined(lines: seq<Line>, row: nat)
  {
    var k := IndexOfRow(lines, row);
    k < |lines| && lines[k].indices != []
    && var last := Last(lines[k].indices);
       (k + 1 < |lines| ==>
          lines[k + 1].indices != []
          && (last + 1 != lines[k + 1].indices[0] ==>
                k + 2 < |lines| && lines[k + 2].indices != []
                && (last < lines[k + 2].indices[0] ==>
                      IndicesAtLeast(lines[k + 1..], lines[k + 2].indices[0] - (last + 1)))))
  }

  /** `remove_line_from_doc` as written: the guard compares the removed line's last
      index with the first index of the line that followed it, which in a
      well-indexed document always match, so the followers are never moved back. */
  function RemoveLineAsWritten(lines: seq<Line>, row: nat): (r: seq<Line>)
    requires RemoveLineAsWrittenDefined(lines, row)
    ensures |r| == |lines| - 1
  {
    var k := IndexOfRow(lines, row);
    var rest := lines[..k] + lines[k + 1..];
    if k == |rest| then rest
    else
      var last := Last(lines[k].indices);
      if last + 1 == lines[k + 1].indices[0] then rest
      else
        var next := lines[k + 2].indices[0];
        if last > next then lines[..k] + ShiftUp(lines[k + 1..], last - (next + 1))
        else if last < next then lines[..k] + ShiftDown(lines[k + 1..], next - (last + 1))
        else lines[..k] + ShiftUp(lines[k + 1..], 1)
  }

  /** On a well-indexed document the source's removal never re-indexes: it leaves a
      gap of the removed line's rows. */
  lemma RemoveAsWrittenLeavesGap(lines: seq<Line>, row: nat)
    requires WellIndexedFrom(lines, 0) && RowFound(lines, row)
    ensures RemoveLineAsWrittenDefined(lines, row)
    ensures var k := IndexOfRow(lines, row);
            RemoveLineAsWritten(lines, row) == lines[..k] + lines[k + 1..]
  {
    Adjacent(lines, 0);
    FoundLine(lines, row);
  }

  /** `a`, an empty line and `b` at width 4. */
  lemma ShortLinesWithBlank()
    ensures LayoutFrom(["a", "", "b"], 0, 4) == [Line([0], "a"), Line([1], ""), Line([2], "b")]
  {
    assert Range(0, 1) == [0] && Range(1, 1) == [1] && Range(2, 1) == [2];
    LayoutCons("b", [], 2, 4);
    LayoutCons("", ["b"], 1, 4);
    LayoutCons("a", ["", "b"], 0, 4);
    assert ["a"] + ["", "b"] == ["a", "", "b"];
    assert [""] + ["b"] == ["", "b"];
    assert ["b"] + [] == ["b"];
  }

  /** Removing the empty middle line of `a`, ``, `b` as written leaves row 1
      uncovered. */
  lemma RemoveLineGap()
    ensures var lines := [Line([0], "a"), Line([1], ""), Line([2], "b")];
            lines == LayoutFrom(["a", "", "b"], 0, 4)
            && RemoveLineAsWrittenDefined(lines, 1)
            && var r := RemoveLineAsWritten(lines, 1);
               r == [Line([0], "a"), Line([2], "b")]
               && !RowFound(r, 1) && !WellIndexedFrom(r, 0)
  {
    ShortLinesWithBlank();
    var lines := [Line([0], "a"), Line([1], ""), Line([2], "b")];
    assert IndexOfRow(lines, 1) == 1;
    assert lines[..1] + lines[2..] == [Line([0], "a"), Line([2], "b")];
    var r := RemoveLineAsWritten(lines, 1);
    assert r[1].indices != Range(1, 1);
  }

  /** The same removal, corrected: `b` moves back to row 1, which is the layout of
      the remaining texts. */
  lemma RemoveLineGapCorrected()
    ensures var lines := [Line([0], "a"), Line([1], ""), Line([2], "b")];
            RemoveLineDefined(lines, 1)
            && RemoveLine(lines, 1) == [Line([0], "a"), Line([1], "b")] == LayoutFrom(["a", "b"], 0, 4)
  {
    var lines := [Line([0], "a"), Line([1], ""), Line([2], "b")];
    assert IndexOfRow(lines, 1) == 1;
    assert lines[2..] == [Line([2], "b")];
    assert IndicesDown([2], 1) == [1];
    assert lines[..1] + ShiftDown(lines[2..], 1) == [Line([0], "a"), Line([1], "b")];
    assert Range(0, 1) == [0] && Range(1, 1) == [1];
    LayoutCons("b", [], 1, 4);
    LayoutCons("a", ["b"], 0, 4);
    assert ["a"] + ["b"] == ["a", "b"];
    assert ["b"] + [] == ["b"];
  }

  /** When moving a run of lines back to start at row `first` is well defined: the
      run's first line has a first index, and a downward shift stays at or above
      zero. */
  predicate MoveBackDefined(rest: seq<Line>, first: nat)
  {
    rest != [] ==>
      rest[0].indices != []
      && (rest[0].indices[0] > first ==> IndicesAtLeast(rest, rest[0].indices[0] - first))
  }

  /** The lines after a removed line, shifted so that the first of them starts at
      `first`, the removed line's first row. */
  function MoveBack(rest: seq<Line>, first: nat): (r: seq<Line>)
    requires MoveBackDefined(rest, first)
    ensures |r| == |rest|
  {
    if rest == [] then []
    else
      var next := rest[0].indices[0];
      if first == next then rest
      else if first > next then ShiftUp(rest, first - next)
      else ShiftDown(rest, next - first)
  }

  lemma MoveBackTexts(rest: seq<Line>, first: nat)
    requires MoveBackDefined(rest, first)
    ensures Texts(MoveBack(rest, first)) == Texts(rest)
  {
  }

  /** Moving back a laid-out run gives the layout that starts at `first`. */
  lemma MoveBackLayout(rest: seq<Line>, texts: seq<string>, start: nat, first: nat, width: nat)
    requires AllWrappable(texts, width) && rest == LayoutFrom(texts, start, width)
    ensures MoveBackDefined(rest, first)
    ensures MoveBack(rest, first) == LayoutFrom(texts, first, width)
  {
    if texts != [] {
      LayoutCons(texts[0], texts[1..], start, width);
      assert texts == [texts[0]] + texts[1..];
      assert rest[0].indices[0] == start;
      if first > start {
        ShiftUpLayout(texts, start, first - start, width);
      } else if first < start {
        ShiftDownLayout(texts, start, start - first, width);
      }
    }
  }

  /** When the corrected removal is well defined: the row is found and the lines
      after it can be moved back to where it started. */
  predicate RemoveLineDefined(lines: seq<Line>, row: nat)
  {
    var k := IndexOfRow(lines, row);
    k < |lines| && lines[k].indices != []
    && MoveBackDefined(lines[k + 1..], lines[k].indices[0])
  }

  /** The corrected removal: the followers are moved so that the next line starts
      where the removed one started. */
  function RemoveLine(lines: seq<Line>, row: nat): (r: seq<Line>)
    requires RemoveLineDefined(lines, row)
    ensures |r| == |lines| - 1
  {
    var k := IndexOfRow(lines, row);
    lines[..k] + MoveBack(lines[k + 1..], lines[k].indices[0])
  }

  /** Dropping the `k`-th line, and replacing the lines after it by lines with the
      same texts, drops only the `k`-th text. */
  lemma TextsRemove(lines: seq<Line>, k: nat, tail: seq<Line>)
    requires k < |lines|
    requires Texts(tail) == Texts(lines[k + 1..])
    ensures Texts(lines[..k] + tail) == Texts(lines)[..k] + Texts(lines)[k + 1..]
  {
    var r := lines[..k] + tail;
    assert |Texts(tail)| == |lines| - k - 1;
    forall i | 0 <= i < |r| ensures Texts(r)[i] == (Texts(lines)[..k] + Texts(lines)[k + 1..])[i] {
      if i >= k { assert Texts(tail)[i - k] == Texts(lines[k + 1..])[i - k]; }
    }
  }

  /** The corrected removal keeps the lines before the removed one and the texts
      of all the others, in order. */
  lemma RemoveLineEffect(lines: seq<Line>, row: nat)
    requires RemoveLineDefined(lines, row)
    ensures var r := RemoveLine(lines, row);
            var k := IndexOfRow(lines, row);
            k < |lines| && r[..k] == lines[..k]
            && Texts(r) == Texts(lines)[..k] + Texts(lines)[k + 1..]
  {
    var k := IndexOfRow(lines, row);
    var tail := MoveBack(lines[k + 1..], lines[k].indices[0]);
    MoveBackTexts(lines[k + 1..], lines[k].indices[0]);
    TextsRemove(lines, k, tail);
    var r := lines[..k] + tail;
    assert r[..k] == lines[..k];
  }

  /** Removing the line holding a covered row of a laid-out document gives the
      layout of the remaining texts: the invariant survives. */
  lemma RemoveLineKeepsLayout(texts: seq<string>, row: nat, width: nat)
    requires AllWrappable(texts, width)
    requires row < TotalRows(texts, width)
    ensures var lines := LayoutFrom(texts, 0, width);
            var k := IndexOfRow(lines, row);
            k < |texts| && RemoveLineDefined(lines, row)
            && AllWrappable(texts[..k] + texts[k + 1..], width)
            && RemoveLine(lines, row) == LayoutFrom(texts[..k] + texts[k + 1..], 0, width)
  {
    var lines := LayoutFrom(texts, 0, width);
    var k := IndexOfRow(lines, row);
    assert k < |texts| by { CoveredRowFound(texts, row, width); }
    var head, moved := RemovePieces(texts, k, width);
    RemoveLineOnPieces(lines, row, k, head, moved);
  }

  /** The layout of `texts` around its `k`-th line: the lines `head` before it, and
      the lines after it moved back to where it started, `moved`, which together
      are the layout of the texts without the `k`-th. */
  lemma RemovePieces(texts: seq<string>, k: nat, width: nat) returns (head: seq<Line>, moved: seq<Line>)
    requires AllWrappable(texts, width) && k < |texts|
    ensures AllWrappable(texts[..k] + texts[k + 1..], width)
    ensures LayoutFrom(texts[..k] + texts[k + 1..], 0, width) == head + moved
    ensures var lines := LayoutFrom(texts, 0, width);
            |lines| == |texts| && lines[..k] == head && lines[k].indices != []
            && MoveBackDefined(lines[k + 1..], lines[k].indices[0])
            && MoveBack(lines[k + 1..], lines[k].indices[0]) == moved
  {
    var t;
    head, t := SplitLayout(texts, k, width);
    var lines := LayoutFrom(texts, 0, width);
    var b := texts[k + 1..];
    MoveBackLayout(lines[k + 1..], b, t + RowSpan(|texts[k]|, width), t, width);
    moved := LayoutFrom(b, t, width);
    LayoutAppend(texts[..k], b, 0, width);
  }

  /** The corrected removal on a document whose line `k` holds `row`, after the
      lines `head`, when the lines after it, moved back, are `moved`. */
  lemma RemoveLineOnPieces(lines: seq<Line>, row: nat, k: nat, head: seq<Line>, moved: seq<Line>)
    requires k < |lines| && IndexOfRow(lines, row) == k && lines[..k] == head
    requires lines[k].indices != [] && MoveBackDefined(lines[k + 1..], lines[k].indices[0])
    requires MoveBack(lines[k + 1..], lines[k].indices[0]) == moved
    ensures RemoveLineDefined(lines, row)
    ensures RemoveLine(lines, row) == head + moved
  {
  }

  /** A covered row of a laid-out document is found in one of its lines. */
  lemma CoveredRowFound(texts: seq<string>, row: nat, width: nat)
    requires AllWrappable(texts, width)
    requires row < TotalRows(texts, width)
    ensures IndexOfRow(LayoutFrom(texts, 0, width), row) < |texts|
  {
    var lines := LayoutFrom(texts, 0, width);
    LayoutShape(texts, 0, width);
    RowCovered(lines, 0, row);
  }

  // ----- remove_index_from_line -----

  /** `s` without its element at position `p`. */
  function DropAt(s: seq<nat>, p: nat): (r: seq<nat>)
    requires p < |s|
    ensures |r| == |s| - 1
    ensures forall i :: 0 <= i < p ==> r[i] == s[i]
    ensures forall i :: p <= i < |r| ==> r[i] == s[i + 1]
  {
    s[..p] + s[p + 1..]
  }

  /** When the source's `remove_index_from_line` does not panic: the screen row is
      at least 2, and the line holding the document row `cursorRow - 2`, if any,
      has that many indices and one more. */
  predicate RemoveIndexAsWrittenDefined(lines: seq<Line>, cursorRow: nat)
  {
    cursorRow >= 2
    && var k := IndexOfRow(lines, cursorRow - 2);
       k < |lines| ==> cursorRow - 2 < |lines[k].indices|
  }

  /** The source's `remove_index_from_line`: it finds the first line holding the
      document row `cursorRow - 2` by value, then drops the index at that
      POSITION of the line's indices. */
  function RemoveIndexAsWritten(lines: seq<Line>, cursorRow: nat): (r: seq<Line>)
    requires RemoveIndexAsWrittenDefined(lines, cursorRow)
    ensures |r| == |lines|
  {
    var k := IndexOfRow(lines, cursorRow - 2);
    if k == |lines| then lines
    else lines[k := lines[k].(indices := DropAt(lines[k].indices, cursorRow - 2))]
  }

  /** The corrected removal: the index `row` itself leaves the first line holding
      it; nothing changes when no line holds it. */
  function RemoveIndex(lines: seq<Line>, row: nat): (r: seq<Line>)
    ensures |r| == |lines|
  {
    var k := IndexOfRow(lines, row);
    if k == |lines| then lines
    else
      IndexOfRowFirst(lines, row);
      lines[k := lines[k].(indices := DropAt(lines[k].indices, PositionOf(lines[k].indices, row)))]
  }

  /** On a well-indexed document the corrected removal takes exactly `row` out of
      the line holding it, keeps every text, and leaves the other lines as they
      were. */
  lemma RemoveIndexEffect(lines: seq<Line>, row: nat)
    requires WellIndexedFrom(lines, 0)
    ensures var r := RemoveIndex(lines, row);
            var k := IndexOfRow(lines, row);
            Texts(r) == Texts(lines)
            && (k == |lines| ==> r == lines && !RowFound(lines, row))
            && (k < |lines| ==>
                  row !in r[k].indices
                  && multiset(r[k].indices) + multiset{row} == multiset(lines[k].indices)
                  && forall j :: 0 <= j < |lines| && j != k ==> r[j] == lines[j])
  {
    var k := IndexOfRow(lines, row);
    FoundLine(lines, row);
    if k < |lines| {
      IndexOfRowFirst(lines, row);
      var s := lines[k].indices;
      LineIsRange(lines, 0, k);
      PositionInRange(s[0], |s|, row);
      DropFromRange(s[0], |s|, row);
      var dropped := DropAt(s, PositionOf(s, row));
      assert RemoveIndex(lines, row) == lines[k := lines[k].(indices := dropped)];
      TextsKeepIndices(lines, k, dropped);
    }
  }

  /** Dropping `x` from a run of consecutive indices holding it removes `x` and
      nothing else. */
  lemma DropFromRange(start: nat, n: nat, x: nat)
    requires start <= x < start + n
    ensures var s := Range(start, n);
            var r := DropAt(s, x - start);
            x !in r && multiset(r) + multiset{x} == multiset(s)
  {
    var s := Range(start, n);
    var p := x - start;
    var r := DropAt(s, p);
    forall i | 0 <= i < |r| ensures r[i] != x {
      if i < p { assert r[i] == start + i; } else { assert r[i] == start + i + 1; }
    }
    JoinAround(s, p);
    assert r == s[..p] + s[p + 1..];
  }

  /** Giving the `k`-th line new indices keeps every text. */
  lemma TextsKeepIndices(lines: seq<Line>, k: nat, inds: seq<nat>)
    requires k < |lines|
    ensures Texts(lines[k := lines[k].(indices := inds)]) == Texts(lines)
  {
    var r := lines[k := lines[k].(indices := inds)];
    assert forall i :: 0 <= i < |r| ==> Texts(r)[i] == Texts(lines)[i];
  }

  /** At width 2, `a` takes row 0 and `bbbbb` rows 1 to 3. */
  lemma OneThenThreeRows()
    ensures LayoutFrom(["a", "bbbbb"], 0, 2) == [Line([0], "a"), Line([1, 2, 3], "bbbbb")]
  {
    assert Range(0, 1) == [0] && Range(1, 3) == [1, 2, 3];
    LayoutCons("bbbbb", [], 1, 2);
    LayoutCons("a", ["bbbbb"], 0, 2);
    assert ["a"] + ["bbbbb"] == ["a", "bbbbb"];
    assert ["bbbbb"] + [] == ["bbbbb"];
  }

  /** On `a`, `bbbbb` at width 2 the source, asked to remove row 1 (screen row 3),
      drops row 2 and keeps row 1; asked to remove row 3 (screen row 5), it
      indexes past the end of a three-index line. */
  lemma RemoveIndexWrongPosition()
    ensures var lines := [Line([0], "a"), Line([1, 2, 3], "bbbbb")];
            lines == LayoutFrom(["a", "bbbbb"], 0, 2)
            && RemoveIndexAsWrittenDefined(lines, 3)
            && RemoveIndexAsWritten(lines, 3) == [Line([0], "a"), Line([1, 3], "bbbbb")]
            && RowFound(RemoveIndexAsWritten(lines, 3), 1)
            && !RemoveIndexAsWrittenDefined(lines, 5)
  {
    OneThenThreeRows();
    var lines := [Line([0], "a"), Line([1, 2, 3], "bbbbb")];
    assert IndexOfRow(lines, 1) == 1;
    assert IndexOfRow(lines, 3) == 1;
    assert DropAt([1, 2, 3], 1) == [1, 3];
    assert 1 in RemoveIndexAsWritten(lines, 3)[1].indices;
  }

  /** The same removals, corrected: row 1, then row 3, leaves the line. */
  lemma RemoveIndexCorrected()
    ensures var lines := [Line([0], "a"), Line([1, 2, 3], "bbbbb")];
            RemoveIndex(lines, 1) == [Line([0], "a"), Line([2, 3], "bbbbb")]
            && RemoveIndex(lines, 3) == [Line([0], "a"), Line([1, 2], "bbbbb")]
  {
    var lines := [Line([0], "a"), Line([1, 2, 3], "bbbbb")];
    assert IndexOfRow(lines, 1) == 1;
    assert IndexOfRow(lines, 3) == 1;
    assert PositionOf([1, 2, 3], 1) == 0;
    assert PositionOf([2, 3], 3) == 1;
    assert PositionOf([1, 2, 3], 3) == 2;
    assert DropAt([1, 2, 3], 0) == [2, 3];
    assert DropAt([1, 2, 3], 2) == [1, 2];
  }
}
