/** A `Line` of a document: its text and the screen-row indices it occupies when
    wrapped at the editor width. This module holds the wrapping rule, the layout of
    a whole sequence of lines and the invariant of a well-indexed document: every
    line has at least one index, each line's indices are consecutive, the first line
    starts at the base row and each line starts right after the previous one ends. */
module LineLayout {
  import opened Text

  datatype Line = Line(indices: seq<nat>, text: string)

  /** The wrapping rule divides by the width only when the text is longer than it;
      a zero width with a non-empty text would divide by zero, and cutting such a
      text into rows of zero characters would never end. */
  predicate Wrappable(len: nat, width: nat) { len <= width || width > 0 }

  predicate AllWrappable(texts: seq<string>, width: nat)
  {
    forall i :: 0 <= i < |texts| ==> Wrappable(|texts[i]|, width)
  }

  /** How many row indices a text of length `len` receives: one when it fits the
      width, otherwise `len / width + 1`. */
  function RowSpan(len: nat, width: nat): (n: nat)
    requires Wrappable(len, width)
    ensures n >= 1
    ensures len <= width ==> n == 1
  {
    if len <= width then 1 else len / width + 1
  }

  /** A wrapped text fills all of its rows but the last, and never overflows that
      one: `(n - 1) * width <= len < n * width`. */
  lemma RowSpanBounds(len: nat, width: nat)
    requires len > width > 0
    ensures (RowSpan(len, width) - 1) * width <= len < RowSpan(len, width) * width
  {
    var q := len / width;
    assert len == q * width + len % width;
  }

  /** The first position of `x` in `s`, which must hold it. */
  function PositionOf(s: seq<nat>, x: nat): (i: nat)
    requires x in s
    ensures i < |s| && s[i] == x
    ensures forall j :: 0 <= j < i ==> s[j] != x
  {
    if s[0] == x then 0 else 1 + PositionOf(s[1..], x)
  }

  /** In a run of consecutive indices the position of an index is its distance from
      the first. */
  lemma PositionInRange(start: nat, n: nat, x: nat)
    requires start <= x < start + n
    ensures x in Range(start, n)
    ensures PositionOf(Range(start, n), x) == x - start
  {
    assert Range(start, n)[x - start] == x;
  }

  /** `start, start + 1, ..., start + n - 1`. */
  function Range(start: nat, n: nat): (r: seq<nat>)
    ensures |r| == n
    ensures forall i :: 0 <= i < n ==> r[i] == start + i
  {
    seq(n, i requires 0 <= i < n => start + i)
  }

  function Last(s: seq<nat>): nat
    requires s != []
  {
    s[|s| - 1]
  }

  function Texts(lines: seq<Line>): (r: seq<string>)
    ensures |r| == |lines|
    ensures forall i :: 0 <= i < |lines| ==> r[i] == lines[i].text
  {
    seq(|lines|, i requires 0 <= i < |lines| => lines[i].text)
  }

  lemma TextsAppend(a: seq<Line>, b: seq<Line>)
    ensures Texts(a + b) == Texts(a) + Texts(b)
  {
  }

  lemma TextsSlice(lines: seq<Line>, i: nat, j: nat)
    requires i <= j <= |lines|
    ensures Texts(lines[i..j]) == Texts(lines)[i..j]
  {
  }

  /** The number of screen rows the texts occupy under the wrapping rule. */
  function TotalRows(texts: seq<string>, width: nat): nat
    requires AllWrappable(texts, width)
  {
    if texts == [] then 0 else RowSpan(|texts[0]|, width) + TotalRows(texts[1..], width)
  }

  /** The lines that the wrapping rule gives to `texts` when numbering starts at
      `start`: what `Document::new` and `recalculate_indices` compute. */
  function LayoutFrom(texts: seq<string>, start: nat, width: nat): (r: seq<Line>)
    requires AllWrappable(texts, width)
    ensures |r| == |texts|
  {
    if texts == [] then []
    else
      var n := RowSpan(|texts[0]|, width);
      [Line(Range(start, n), texts[0])] + LayoutFrom(texts[1..], start + n, width)
  }

  /** The number of row indices held by all lines together. */
  function RowsSpanned(lines: seq<Line>): nat
  {
    if lines == [] then 0 else |lines[0].indices| + RowsSpanned(lines[1..])
  }

  /** The document invariant: indices run consecutively from `start`, every line has
      at least one, and no two lines share one. */
  predicate WellIndexedFrom(lines: seq<Line>, start: nat)
  {
    lines == [] ||
    (lines[0].indices != [] && lines[0].indices == Range(start, |lines[0].indices|)
     && WellIndexedFrom(lines[1..], start + |lines[0].indices|))
  }

  /** Each line of a well-indexed document holds a run of consecutive indices. */
  lemma {:induction false} LineIsRange(lines: seq<Line>, start: nat, i: nat)
    requires WellIndexedFrom(lines, start) && i < |lines|
    ensures lines[i].indices != []
    ensures lines[i].indices == Range(lines[i].indices[0], |lines[i].indices|)
  {
    if i > 0 {
      LineIsRange(lines[1..], start + |lines[0].indices|, i - 1);
    }
  }

  /** Every line of a well-indexed document covers at least one row. */
  lemma {:induction false} LinesWithinSpan(lines: seq<Line>, start: nat)
    requires WellIndexedFrom(lines, start)
    ensures |lines| <= RowsSpanned(lines)
  {
    if lines != [] {
      LinesWithinSpan(lines[1..], start + |lines[0].indices|);
    }
  }

  /** Every line holds as many indices as the wrapping rule gives its text. */
  predicate SpansMatch(lines: seq<Line>, width: nat)
  {
    forall i :: 0 <= i < |lines| ==>
      Wrappable(|lines[i].text|, width) && |lines[i].indices| == RowSpan(|lines[i].text|, width)
  }

  /** The position of the first line whose indices contain `row`, or the number of
      lines when none does: the counter that the index-search loops end with. */
  function IndexOfRow(lines: seq<Line>, row: nat): (k: nat)
    ensures k <= |lines|
  {
    IndexFrom(lines, row, 0)
  }

  /** The index search continued from line `i`. */
  function IndexFrom(lines: seq<Line>, row: nat, i: nat): (k: nat)
    requires i <= |lines|
    ensures i <= k <= |lines|
    decreases |lines| - i
  {
    if i == |lines| then i
    else if row in lines[i].indices then i
    else IndexFrom(lines, row, i + 1)
  }

  /** The search from line `i` passes only lines without `row` and stops at one
      that holds it, unless it runs off the end. */
  lemma {:induction false} IndexFromFirst(lines: seq<Line>, row: nat, i: nat)
    requires i <= |lines|
    ensures var k := IndexFrom(lines, row, i);
            (forall j :: i <= j < k ==> row !in lines[j].indices)
            && (k < |lines| ==> row in lines[k].indices)
    decreases |lines| - i
  {
    if i < |lines| && row !in lines[i].indices {
      IndexFromFirst(lines, row, i + 1);
    }
  }

  /** The search stops at the first line holding `row`: no earlier line holds it,
      and the line it stops at does, unless it ran off the end. */
  lemma IndexOfRowFirst(lines: seq<Line>, row: nat)
    ensures var k := IndexOfRow(lines, row);
            (forall j :: 0 <= j < k ==> row !in lines[j].indices)
            && (k < |lines| ==> row in lines[k].indices)
  {
    IndexFromFirst(lines, row, 0);
  }

  /** A search from line `i` that passes lines without `row` up to `k` and stops at
      `k` ends there. */
  lemma {:induction false} IndexFromIs(lines: seq<Line>, row: nat, i: nat, k: nat)
    requires i <= k <= |lines|
    requires forall j :: i <= j < k ==> row !in lines[j].indices
    requires k < |lines| ==> row in lines[k].indices
    ensures IndexFrom(lines, row, i) == k
    decreases k - i
  {
    if i < k {
      IndexFromIs(lines, row, i + 1, k);
    }
  }

  predicate RowFound(lines: seq<Line>, row: nat)
  {
    exists i :: 0 <= i < |lines| && row in lines[i].indices
  }

  /** The laid-out lines carry the texts in order, satisfy the document invariant,
      give each text its span, and cover exactly `TotalRows` rows. */
  lemma {:induction false} LayoutShape(texts: seq<string>, start: nat, width: nat)
    requires AllWrappable(texts, width)
    ensures var lines := LayoutFrom(texts, start, width);
            |lines| == |texts| && Texts(lines) == texts
            && WellIndexedFrom(lines, start) && SpansMatch(lines, width)
            && RowsSpanned(lines) == TotalRows(texts, width)
  {
    if texts != [] {
      LayoutShape(texts[1..], start + RowSpan(|texts[0]|, width), width);
      var lines := LayoutFrom(texts, start, width);
      assert lines[1..] == LayoutFrom(texts[1..], start + RowSpan(|texts[0]|, width), width);
      assert Texts(lines) == [texts[0]] + Texts(lines[1..]);
      assert texts == [texts[0]] + texts[1..];
    }
  }

  /** A well-indexed sequence of lines whose spans follow the wrapping rule is the
      layout of its own texts: recomputing the indices changes nothing. */
  lemma {:induction false} LayoutUnique(lines: seq<Line>, start: nat, width: nat)
    requires WellIndexedFrom(lines, start) && SpansMatch(lines, width)
    ensures AllWrappable(Texts(lines), width)
    ensures lines == LayoutFrom(Texts(lines), start, width)
  {
    if lines != [] {
      assert SpansMatch(lines[1..], width) by {
        forall i | 0 <= i < |lines| - 1 ensures lines[1..][i] == lines[i + 1] {}
      }
      LayoutUnique(lines[1..], start + |lines[0].indices|, width);
      assert Texts(lines)[1..] == Texts(lines[1..]);
    }
  }

  /** Two runs of texts together take the rows of the first and then those of the
      second. */
  lemma {:induction false} TotalRowsAppend(a: seq<string>, b: seq<string>, width: nat)
    requires AllWrappable(a, width) && AllWrappable(b, width)
    ensures AllWrappable(a + b, width)
    ensures TotalRows(a + b, width) == TotalRows(a, width) + TotalRows(b, width)
  {
    var ab := a + b;
    assert forall i :: 0 <= i < |ab| ==> ab[i] == if i < |a| then a[i] else b[i - |a|];
    if a != [] {
      assert ab[0] == a[0] && ab[1..] == a[1..] + b;
      TotalRowsAppend(a[1..], b, width);
    } else {
      assert ab == b;
    }
  }

  /** Laying out two runs of texts one after the other. */
  lemma {:induction false} LayoutAppend(a: seq<string>, b: seq<string>, start: nat, width: nat)
    requires AllWrappable(a, width) && AllWrappable(b, width)
    ensures AllWrappable(a + b, width)
    ensures TotalRows(a + b, width) == TotalRows(a, width) + TotalRows(b, width)
    ensures LayoutFrom(a + b, start, width)
         == LayoutFrom(a, start, width) + LayoutFrom(b, start + TotalRows(a, width), width)
  {
    TotalRowsAppend(a, b, width);
    var ab := a + b;
    if a == [] {
      assert ab == b;
    } else {
      var n := RowSpan(|a[0]|, width);
      assert ab[0] == a[0] && ab[1..] == a[1..] + b;
      LayoutAppend(a[1..], b, start + n, width);
      ConsAppend(Line(Range(start, n), a[0]), LayoutFrom(a[1..], start + n, width),
                 LayoutFrom(b, start + n + TotalRows(a[1..], width), width));
    }
  }

  /** Regrouping a concatenation that starts with one element. */
  lemma ConsAppend<T>(x: T, r: seq<T>, s: seq<T>)
    ensures [x] + (r + s) == ([x] + r) + s
  {
  }

  /** Adds `d` to each index (the `map(|l| *l + d)` of the source). */
  function IndicesUp(inds: seq<nat>, d: nat): (r: seq<nat>)
    ensures |r| == |inds|
    ensures forall i :: 0 <= i < |inds| ==> r[i] == inds[i] + d
  {
    seq(|inds|, i requires 0 <= i < |inds| => inds[i] + d)
  }

  /** Subtracts `d` from each index (the `map(|l| *l - d)` of the source). */
  function IndicesDown(inds: seq<nat>, d: nat): (r: seq<nat>)
    requires forall i :: 0 <= i < |inds| ==> inds[i] >= d
    ensures |r| == |inds|
    ensures forall i :: 0 <= i < |inds| ==> r[i] == inds[i] - d
  {
    seq(|inds|, i requires 0 <= i < |inds| => inds[i] - d)
  }

  /** Adds `d` to every index of every line. */
  function ShiftUp(lines: seq<Line>, d: nat): (r: seq<Line>)
    ensures |r| == |lines|
    ensures forall i :: 0 <= i < |lines| ==> r[i] == lines[i].(indices := IndicesUp(lines[i].indices, d))
  {
    seq(|lines|, i requires 0 <= i < |lines| => lines[i].(indices := IndicesUp(lines[i].indices, d)))
  }

  predicate IndicesAtLeast(lines: seq<Line>, d: nat)
  {
    forall i, j :: 0 <= i < |lines| && 0 <= j < |lines[i].indices| ==> lines[i].indices[j] >= d
  }

  /** Subtracts `d` from every index of every line. */
  function ShiftDown(lines: seq<Line>, d: nat): (r: seq<Line>)
    requires IndicesAtLeast(lines, d)
    ensures |r| == |lines|
    ensures forall i :: 0 <= i < |lines| ==> r[i] == lines[i].(indices := IndicesDown(lines[i].indices, d))
  {
    seq(|lines|, i requires 0 <= i < |lines| => lines[i].(indices := IndicesDown(lines[i].indices, d)))
  }

  /** Shifting a layout up moves its starting row up. */
  lemma {:induction false} ShiftUpLayout(texts: seq<string>, start: nat, d: nat, width: nat)
    requires AllWrappable(texts, width)
    ensures ShiftUp(LayoutFrom(texts, start, width), d) == LayoutFrom(texts, start + d, width)
  {
    if texts != [] {
      var n := RowSpan(|texts[0]|, width);
      ShiftUpLayout(texts[1..], start + n, d, width);
      var lines := LayoutFrom(texts, start, width);
      var moved := LayoutFrom(texts, start + d, width);
      assert lines[1..] == LayoutFrom(texts[1..], start + n, width);
      assert moved[1..] == LayoutFrom(texts[1..], start + d + n, width);
      assert IndicesUp(Range(start, n), d) == Range(start + d, n);
      assert ShiftUp(lines, d)[1..] == ShiftUp(lines[1..], d);
    }
  }

  /** A layout's indices are at least its starting row, and shifting it down by at
      most that much moves its starting row down. */
  lemma {:induction false} ShiftDownLayout(texts: seq<string>, start: nat, d: nat, width: nat)
    requires AllWrappable(texts, width)
    requires d <= start
    ensures IndicesAtLeast(LayoutFrom(texts, start, width), d)
    ensures ShiftDown(LayoutFrom(texts, start, width), d) == LayoutFrom(texts, start - d, width)
  {
    if texts != [] {
      var n := RowSpan(|texts[0]|, width);
      ShiftDownLayout(texts[1..], start + n, d, width);
      var lines := LayoutFrom(texts, start, width);
      var moved := LayoutFrom(texts, start - d, width);
      assert lines[1..] == LayoutFrom(texts[1..], start + n, width);
      assert moved[1..] == LayoutFrom(texts[1..], start - d + n, width);
      assert IndicesAtLeast(lines, d) by {
        forall i, j | 0 <= i < |lines| && 0 <= j < |lines[i].indices|
          ensures lines[i].indices[j] >= d
        {
          if i > 0 { assert lines[i] == lines[1..][i - 1]; }
        }
      }
      assert IndicesDown(Range(start, n), d) == Range(start - d, n);
      assert ShiftDown(lines, d)[1..] == ShiftDown(lines[1..], d);
    }
  }

  /** Every index of a well-indexed run lies in `[start, start + RowsSpanned)`. */
  lemma {:induction false} IndicesInRange(lines: seq<Line>, start: nat, i: nat, x: nat)
    requires WellIndexedFrom(lines, start)
    requires i < |lines| && x in lines[i].indices
    ensures start <= x < start + RowsSpanned(lines)
  {
    if i > 0 {
      IndicesInRange(lines[1..], start + |lines[0].indices|, i - 1, x);
    }
  }

  /** In a well-indexed run no row belongs to two lines. */
  lemma {:induction false} RowOwnerUnique(lines: seq<Line>, start: nat, i: nat, j: nat, row: nat)
    requires WellIndexedFrom(lines, start)
    requires i < |lines| && j < |lines|
    requires row in lines[i].indices && row in lines[j].indices
    ensures i == j
  {
    var n := |lines[0].indices|;
    if i == 0 && j > 0 {
      IndicesInRange(lines[1..], start + n, j - 1, row);
    } else if j == 0 && i > 0 {
      IndicesInRange(lines[1..], start + n, i - 1, row);
    } else if i > 0 && j > 0 {
      RowOwnerUnique(lines[1..], start + n, i - 1, j - 1, row);
    }
  }

  /** In a well-indexed run a row belongs to some line exactly when it lies in
      `[start, start + RowsSpanned)`; the index search then finds that line. */
  lemma {:induction false} RowCovered(lines: seq<Line>, start: nat, row: nat)
    requires WellIndexedFrom(lines, start)
    ensures RowFound(lines, row) <==> start <= row < start + RowsSpanned(lines)
    ensures RowFound(lines, row) <==> IndexOfRow(lines, row) < |lines|
  {
    IndexOfRowFirst(lines, row);
    if RowFound(lines, row) {
      var i :| 0 <= i < |lines| && row in lines[i].indices;
    }
    if lines != [] {
      var n := |lines[0].indices|;
      RowCovered(lines[1..], start + n, row);
      if start <= row < start + n {
        assert lines[0].indices[row - start] == row;
      } else if RowFound(lines, row) {
        var i :| 0 <= i < |lines| && row in lines[i].indices;
        IndicesInRange(lines, start, i, row);
        assert i > 0 && lines[1..][i - 1] == lines[i];
      }
      if RowFound(lines[1..], row) {
        var i :| 0 <= i < |lines| - 1 && row in lines[1..][i].indices;
        assert row in lines[i + 1].indices;
      }
    }
  }

  /** Each line of a well-indexed run starts right after the previous one ends, and
      the first starts at `start`. */
  lemma {:induction false} Adjacent(lines: seq<Line>, start: nat)
    requires WellIndexedFrom(lines, start)
    ensures forall i :: 0 <= i < |lines| ==> lines[i].indices != []
    ensures lines != [] ==> lines[0].indices[0] == start
    ensures forall i :: 0 <= i < |lines| - 1 ==>
              lines[i + 1].indices[0] == Last(lines[i].indices) + 1
  {
    if lines != [] {
      Adjacent(lines[1..], start + |lines[0].indices|);
      forall i | 0 <= i < |lines| - 1
        ensures lines[i + 1].indices[0] == Last(lines[i].indices) + 1
      {
        if i > 0 { assert lines[i] == lines[1..][i - 1] && lines[i + 1] == lines[1..][i]; }
      }
    }
  }

  /** The last index of a non-empty well-indexed run is one below the end of the
      rows it covers. */
  lemma {:induction false} LastIndex(lines: seq<Line>, start: nat)
    requires WellIndexedFrom(lines, start) && lines != []
    ensures lines[|lines| - 1].indices != []
    ensures Last(lines[|lines| - 1].indices) + 1 == start + RowsSpanned(lines)
  {
    if |lines| > 1 {
      LastIndex(lines[1..], start + |lines[0].indices|);
      assert lines[1..][|lines| - 2] == lines[|lines| - 1];
    }
  }

  /** The `for i in 0..=overflow { push(start + i) }` loop shared by `from_str`,
      `from_existing` and `recalculate_indices`. */
  method ConsecutiveIndices(start: nat, overflow: nat) returns (inds: seq<nat>)
    ensures inds == Range(start, overflow + 1)
  {
    inds := [];
    var i := 0;
    while i <= overflow
      invariant 0 <= i <= overflow + 1
      invariant inds == Range(start, i)
    {
      inds := inds + [start + i];
      i := i + 1;
    }
  }

  /** `Line::from_str`: the line gets `RowSpan` consecutive indices from the
      counter, and the counter moves past them. */
  method FromStr(src: string, counter: nat, width: nat) returns (line: Line, next: nat)
    requires Wrappable(|src|, width)
    ensures line.text == src
    ensures line.indices == Range(counter, RowSpan(|src|, width))
    ensures next == counter + |line.indices|
    ensures |src| <= width ==> line.indices == [counter] && next == counter + 1
    ensures |src| > width ==> next == counter + |src| / width + 1
  {
    line := Line([], src);
    next := counter;
    if |src| <= width {
      line := line.(indices := [next]);
      next := next + 1;
    } else {
      var overflow := |src| / width;
      var inds := ConsecutiveIndices(next, overflow);
      line := line.(indices := inds);
      next := next + overflow;
      next := next + 1;
    }
  }

  /** `Line::from_existing`: re-wraps a line whose text may have changed, keeping its
      first index (or `cursorRow` when it had none). */
  method FromExisting(original: Line, width: nat, cursorRow: nat) returns (line: Line)
    requires Wrappable(|original.text|, width)
    ensures line.text == original.text
    ensures line.indices == Range(if original.indices != [] then original.indices[0] else cursorRow,
                                  RowSpan(|original.text|, width))
  {
    line := Line([], original.text);
    var counter := cursorRow;
    if original.indices != [] {
      counter := original.indices[0];
    }
    if |original.text| <= width {
      line := line.(indices := [counter]);
    } else {
      var overflow := |original.text| / width;
      var inds := ConsecutiveIndices(counter, overflow);
      line := line.(indices := inds);
    }
  }
}
