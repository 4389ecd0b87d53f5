# textchen core in Dafny

textchen is a modal terminal text editor. Its model of a file is a `Document`, a
list of `Line`s. Each line holds its text and the screen-row indices it takes up
once wrapped at the editor width. The text is edited through a gap buffer and a
cursor. The editor's screen is split into rows (title, text area, mode row,
command row), and a thin terminal layer emits control sequences and switches the
terminal between raw and cooked mode. A rope that splits a string into
width-sized leaves sits beside them.

This project models that core and proves what it does:

- `Text`: string helpers. Rust's `str::lines()` and `split(';')`, joining, and
  decimal formatting, each with its round trip.
- `LineLayout`: the wrapping rule of `Line::from_str`. The layout of a whole
  list of texts from a starting row. The document invariant that every line owns
  a run of consecutive rows starting where the previous line ended. The
  index search the editing operations share.
- `DocumentEdits`: the edits of `Document` as functions of the old lines. Adding
  a line, replacing the text of a line, removing a line and removing an index
  are each proved to keep a laid-out document laid out. Where the source re-indexes
  wrongly, its own behaviour is defined beside the corrected one.
- `Documents`: the `Document` class, whose methods update `lines` in place and are
  proved to compute the functions of `DocumentEdits`. Also the display-row
  iterator `Rows`, and the scrolling of the visible window.
- `GapBuffer`, `Cursors`, `BufferManager`, `EditorLayout`, `EditorModes`: the gap
  buffer, the cursor with its saved position, the list of open buffers, the screen
  layout and the mode switch, as classes over their fields.
- `Ropes`: `Rope::from_str`, proved to spell its input with every leaf within the
  width and every node weighted by its left subtree. Its unit test is reproduced.
- `Term`, `TermColor`, `TermC`: escape sequences, specified by what a terminal
  parsing them per ECMA-48 reads back. The `termios` flag updates of
  `set_raw_term` and `set_cooked_term`. The window size and key-pressed queries.

Strings are sequences of single-byte characters and sizes are unbounded
naturals. Where a `usize` subtraction or an index would panic in the source, the
member requires what prevents the panic. The native terminal calls are
represented by the fields of a `Terminal` object that the C code would read or
write.

## Model

| member | source | states |
|---|---|---|
| LineLayout.FromStr | src/document.rs:13-34 | the line keeps the text; its indices are consecutive from the counter, one when the text fits the width and `len / width + 1` otherwise; the counter moves past them |
| LineLayout.FromExisting | src/document.rs:36-57 | the text is kept and re-wrapped from the original line's first index, or from `cursor_row` when the line has no index yet |
| LineLayout.ConsecutiveIndices | src/document.rs:25-27 | the `0..=overflow` loop yields `overflow + 1` consecutive indices from the counter |
| LineLayout.RowSpan | src/document.rs:18-31 | every text takes at least one row, exactly one when it fits the width |
| LineLayout.RowSpanBounds | src/document.rs:23-27 | a text longer than the width spans `n` rows with `(n - 1) * width <= len < n * width` |
| LineLayout.LayoutShape | src/document.rs:126-133 | laying out texts from a row keeps them in order, makes the rows consecutive with no gap or overlap, gives each text its span, and covers the total of the spans |
| LineLayout.LayoutUnique | src/document.rs:323-346 | a well-indexed list whose spans match the wrapping rule is exactly the layout of its texts |
| LineLayout.LayoutAppend | src/document.rs:323-346 | the layout of two lists joined is the first's layout followed by the second's, started after the first's rows |
| LineLayout.ShiftUpLayout | src/document.rs:198-200 | adding `d` to every index of a layout gives the layout started `d` rows lower |
| LineLayout.ShiftDownLayout | src/document.rs:207-209 | subtracting `d` from every index of a layout started at or below row `d` gives the layout started `d` rows higher, with no index below zero |
| LineLayout.IndexOfRowFirst | src/document.rs:176-184 | the index search passes only lines without the row and stops at the first line holding it, or runs off the end |
| LineLayout.RowCovered | src/document.rs:142-150 | in a well-indexed document a row is held by some line exactly when it lies between the first row and the rows spanned, exactly when the search stops inside the list |
| LineLayout.RowOwnerUnique | src/document.rs:142-150 | in a well-indexed document no row belongs to two lines, so the first line holding it is the only one |
| LineLayout.Adjacent | src/document.rs:188-190 | in a well-indexed document each line starts one row after the previous one's last index, the first at the base row |
| LineLayout.LastIndex | src/document.rs:231-249 | the last line's last index plus one is the base row plus the rows spanned |
| DocumentEdits.AddLineKeepsLayout | src/document.rs:304-321 | inserting a one-row line at the row where the displaced line started gives the layout of the texts with the new text inserted |
| DocumentEdits.FollowTexts | src/document.rs:188-216 | re-indexing the lines after an edit keeps every text |
| DocumentEdits.FollowLayout | src/document.rs:188-216 | the corrected re-indexing moves a laid-out run so that it starts just after the edited line's last row |
| DocumentEdits.SetLineEffect | src/document.rs:162-217 | the line count is kept, the lines before the edited one are untouched, it gets the new text re-wrapped from its first index, and no other text changes |
| DocumentEdits.SetLineKeepsLayout | src/document.rs:162-217 | replacing the text of the line holding a covered row of a laid-out document gives the layout of the texts with that text replaced |
| DocumentEdits.SetLineOverlap | src/document.rs:193-200 | as written, growing the first of three one-row lines to four rows leaves row 2 owned by two lines |
| DocumentEdits.SetLineOverlapCorrected | src/document.rs:193-200 | with the corrected shift the same edit yields the layout of the edited texts |
| DocumentEdits.RemoveAsWrittenLeavesGap | src/document.rs:271-275 | as written, removing a line from a well-indexed document never re-indexes the lines after it |
| DocumentEdits.RemoveLineGap | src/document.rs:275 | as written, removing the empty middle of `a`, ``, `b` leaves row 1 held by no line |
| DocumentEdits.RemoveLineGapCorrected | src/document.rs:260-302 | the corrected removal moves `b` back to row 1, the layout of the remaining texts |
| DocumentEdits.MoveBackTexts | src/document.rs:278-299 | moving the lines after a removed one back keeps every text |
| DocumentEdits.MoveBackLayout | src/document.rs:278-299 | moving a laid-out run back gives its layout from the removed line's first row |
| DocumentEdits.RemoveLineEffect | src/document.rs:260-302 | the corrected removal keeps the lines before the removed one and the texts of all the others, in order |
| DocumentEdits.RemoveLineKeepsLayout | src/document.rs:260-302 | removing the line holding a covered row of a laid-out document gives the layout of the remaining texts |
| DocumentEdits.RemoveIndexWrongPosition | src/document.rs:254 | as written, asked to drop row 1 from a line holding rows 1 to 3 the source drops row 2, and asked for row 3 it indexes past the end |
| DocumentEdits.RemoveIndexEffect | src/document.rs:251-258 | the corrected `remove_index_from_line` takes exactly the row out of the first line holding it, keeps every text and the other lines, and changes nothing when no line holds it |
| DocumentEdits.RemoveIndexCorrected | src/document.rs:251-258 | the corrected removal drops row 1 and row 3 from the example line |
| Documents.InitialLinesShape | src/document.rs:113-140 | a new document holds one line per content line (one empty line on row 0 for empty content), laid out from row 0 |
| Documents.NewDocumentRoundTrip | src/document.rs:219-225 | joining a new document's lines with newlines gives back content without carriage returns or a final newline |
| Documents.ChunksCover | src/document.rs:355-362 | the pieces the display loop cuts a text into are non-empty, at most the width long, and spell the text |
| Documents.ChunksCount | src/document.rs:355-362 | a text has one piece per row, except that a text longer than the width and a whole multiple of it has one row more than pieces |
| Documents.LineRowsOfLaidOut | src/document.rs:364-368 | the display rows of a laid-out line pair its first indices with its pieces and spell its text |
| Documents.DisplayRowsAppend | src/document.rs:348-377 | the display rows of two lists joined are the rows of the first followed by those of the second |
| Documents.RowIter.constructor | src/document.rs:67-82 | a new iterator holds the first row and has every row still to yield; the source reads row 0 before testing for emptiness |
| Documents.RowIter.Next | src/document.rs:88-102 | each call yields the next row and drops it from those remaining, and `None` once all are gone |
| Documents.Document.constructor | src/document.rs:113-140 | the lines are those of `InitialLines` at the editor width and the window covers rows 0 to the editor height |
| Documents.Document.LineIndexAt | src/document.rs:176-184 | the counter loop ends at the first line holding the row, or at the line count |
| Documents.Document.GetLineAtCursor | src/document.rs:142-150 | returns the first line holding the row, which must exist |
| Documents.Document.GetStrAtCursor | src/document.rs:152-155 | returns the text of the first line holding the row |
| Documents.Document.ShiftLinesUp | src/document.rs:318-320 | every line from `from` on gets its indices raised by `d`, the others are unchanged |
| Documents.Document.ShiftLinesDown | src/document.rs:292-294 | every line from `from` on gets its indices lowered by `d`, the others are unchanged |
| Documents.Document.AddLineAtRow | src/document.rs:304-321 | the new lines are `AddLine` of the old ones, which keeps a layout by `AddLineKeepsLayout` |
| Documents.Document.SetLineAtCursor | src/document.rs:162-217 | the new lines are the corrected `SetLine` of the old ones, which keeps a layout by `SetLineKeepsLayout` |
| Documents.Document.FollowAfter | src/document.rs:188-216 | the lines after the edited one are re-indexed by the corrected `Follow` (see Findings), the rest kept |
| Documents.Document.RemoveLineFromDoc | src/document.rs:260-302 | the new lines are the corrected `RemoveLine` of the old ones, which keeps a layout by `RemoveLineKeepsLayout` |
| Documents.Document.MoveBackFrom | src/document.rs:278-299 | the lines from `k` on are moved back to start at `first` (the corrected move-back, see Findings), the rest kept |
| Documents.Document.RemoveIndexFromLine | src/document.rs:251-258 | the new lines are the corrected `RemoveIndex` of the old ones at the document row `cursor_row - 2` |
| Documents.Document.RecalculateIndices | src/document.rs:323-346 | the new lines are the layout of the old texts from row 0 at the given width |
| Documents.Document.CollectRows | src/document.rs:348-377 | the collected rows are the display rows of every line, in order |
| Documents.Document.Rows | src/document.rs:348-377 | the iterator yields exactly the display rows |
| Documents.Document.PushVisDown | src/document.rs:379-386 | the window starts one row lower and its end follows while it is before the row count |
| Documents.Document.PushVisUp | src/document.rs:388-397 | the window starts one row higher, and its end moves up too when the window is exactly the editor's height |
| Documents.RowsOfLine | src/document.rs:351-373 | the rows of one line are its indices paired with its pieces, or its first index with the empty string for an empty line |
| Documents.ChunkText | src/document.rs:355-362 | the `while let` loop cuts the text into its width-sized pieces |
| Documents.NumRowsCovered | src/document.rs:231-249 | the row count of a well-indexed document is the number of rows its lines cover, and a row is held by some line exactly when it is below the row count |
| Documents.NumRowsOfLayout | src/document.rs:231-249 | the row count of a laid-out document is the total span of its texts |
| Documents.LinesWithinRows | src/document.rs:227-229 | a well-indexed document has no more lines than rows |
| Documents.RelayoutStep | src/document.rs:324-345 | one step of `recalculate_indices` extends the laid-out prefix by one line and moves the counter past its rows |
| GapBuffer.GapBuf.constructor | src/gapbuf.rs:10-15 | a new buffer is empty |
| GapBuffer.GapBuf.FromStr | src/gapbuf.rs:17-26 | the text before the cursor index is on the left, the rest on the right, and together they spell the source |
| GapBuffer.GapBuf.FromLine | src/gapbuf.rs:28-35 | as `FromStr` on the line's text |
| GapBuffer.GapBuf.CollectToString | src/gapbuf.rs:57-60 | the text is the left part followed by the right part |
| GapBuffer.GapBuf.Len | src/gapbuf.rs:53-55 | the length is the length of the collected text |
| GapBuffer.GapBuf.CollectToPieces | src/gapbuf.rs:62-66 | the two pieces join into the collected text, split at the cursor |
| GapBuffer.GapBuf.Insert | src/gapbuf.rs:37-39 | the character goes into the text at the cursor, the length grows by one |
| GapBuffer.GapBuf.Pop | src/gapbuf.rs:41-44 | the character before the cursor goes, if any; the right part stays |
| GapBuffer.GapBuf.PopTab | src/gapbuf.rs:46-51 | up to four characters before the cursor go; the right part stays |
| LineLayout.PositionInRange | src/cursor.rs:21-37 | in a run of consecutive indices a row's position is its distance from the first |
| Cursors.EndOfLineAfterText | src/cursor.rs:39-51 | the end-of-line position is on the line's last row, just after its last character |
| Cursors.Cursor.constructor | src/cursor.rs:12-19 | the cursor starts at the given position with the saved position at the origin |
| Cursors.Cursor.GetPositionInLine | src/cursor.rs:21-37 | the position is `PositionInLine`: the place of document row `row - 2` among the indices of the line that holds it, times the width, plus the column |
| Cursors.Cursor.MoveToEndLine | src/cursor.rs:39-51 | the cursor moves to the end of the line holding document row `row - 2`: its last row plus 2, after its last character (`EndLineTarget`); an empty line leaves it in place; the saved position stays |
| Cursors.PositionInLineLaidOut | src/cursor.rs:21-37 | on a well-indexed document the line found holds document row `row - 2`, and the position is the rows of that line before it times the width, plus the column |
| Cursors.OneRowLinesNeverFound | src/cursor.rs:29-35 | when every line fits in one row, looking up the line at the screen row and then searching it for `row - 2`, as written, never finds the row |
| Cursors.ScreenRowLookup | src/cursor.rs:29-48 | lines `a`, `b`, `c` at width 4, cursor at screen row 2, column 1: the as-written lookup finds `c`, which does not hold row 0, and the move to the end of line goes to (4, 2); the corrected lookup finds `a`, position 1, end of line (2, 2) |
| Cursors.Cursor.MoveTo | src/cursor.rs:53-57 | the cursor is at the new position; the saved one stays |
| Cursors.Cursor.MoveUp | src/cursor.rs:59-62 | one row up, same column |
| Cursors.Cursor.MoveLeft | src/cursor.rs:63-66 | one column left, same row |
| Cursors.Cursor.MoveDown | src/cursor.rs:67-70 | one row down, same column |
| Cursors.Cursor.MoveRight | src/cursor.rs:71-74 | one column right, same row |
| Cursors.Cursor.MoveToLeftBorder | src/cursor.rs:76-79 | column 1, same row |
| Cursors.Cursor.SaveCurrentPos | src/cursor.rs:85-88 | the saved position is the current one |
| Cursors.Cursor.RevertPos | src/cursor.rs:90-94 | the cursor returns to the saved position |
| Cursors.DownThenUp | src/cursor.rs:59-70 | moving down then up returns the cursor to where it was |
| Cursors.RightThenLeft | src/cursor.rs:63-74 | moving right then left returns the cursor to where it was |
| Cursors.SaveMovesRevert | src/cursor.rs:85-94 | saving, making any moves and reverting returns the cursor to where it was saved |
| BufferManager.BufManager.constructor | src/buffer_manager.rs:11-16 | no buffers, the active index 0 |
| BufferManager.BufManager.AddBuffer | src/buffer_manager.rs:17-27 | the document is appended; the active index moves to it unless it is the first |
| BufferManager.BufManager.RemoveBuffer | src/buffer_manager.rs:29-35 | the active buffer is removed and the active index steps back unless it is 0, keeping it in range |
| EditorLayout.Editor.constructor | src/editor.rs:32-43 | the editor rows are stacked: text from row 2, bottom, mode and command rows in order, the width the distance between the edges |
| EditorLayout.Editor.RecomputeLayout | src/editor.rs:167-171 | the right edge, width, mode and command rows follow the new terminal size and the home position is the editor's top left |
| EditorModes.ModeLabelInjective | src/editor.rs:141-146 | each mode prints its own three-letter label |
| EditorModes.ChangeMode | src/editor.rs:127-151 | the mode becomes the new one and the cursor ends where it was, which is also its saved position |
| Ropes.NewLeaf | src/rope.rs:19-24 | a leaf weighs its text's length and holds that text |
| Ropes.NewNode | src/rope.rs:26-32 | a node holds its children and its leaves are theirs, left then right |
| Ropes.LhsWeightIsLength | src/rope.rs:34-48 | on a built rope `lhs_weight` is the length of the text under the node |
| Ropes.PairUpLeaves | src/rope.rs:83-120 | pairing the nodes of a level keeps their leaves in order |
| Ropes.PairUpBuilt | src/rope.rs:83-120 | pairing built nodes gives built nodes |
| Ropes.ProcessKeeps | src/rope.rs:83-120 | the root built from a level holds its leaves in order, and is built when the level is |
| Ropes.CheckIsWithinWidth | src/rope.rs:73-81 | the answer is whether every piece fits the width |
| Ropes.HalveAllText | src/rope.rs:122-134 | halving every piece keeps the text |
| Ropes.HalveAllShrinks | src/rope.rs:122-134 | halving every piece at least halves the longest one, rounding up |
| Ropes.HalveUntilKeeps | src/rope.rs:122-134 | the halving loop ends with every piece within the width and the text kept |
| Ropes.RopeOfSpells | src/rope.rs:69-141 | the rope's leaves spell the input, each fits the width, and every weight is the length of the left subtree's text |
| Ropes.FromStr | src/rope.rs:69-141 | the method builds `RopeOf` the input |
| Ropes.HelloWorldRope | src/rope.rs:181-218 | `"Hello,_World!"` at width 4 gives the tree the unit test expects |
| Ropes.RopeLeaves.Next | src/rope.rs:164-174 | each call yields the next leaf and `None` at the end |
| Term.ControlSequenceParses | src/term.rs:64-82 | ESC, `[`, parameter bytes and a final byte read back as those parameters and that final byte |
| Term.MoveCursorHome | src/term.rs:64-66 | a terminal reads a cursor move to line 1, column 1 |
| Term.SwitchToAltBuf | src/term.rs:68-70 | a terminal reads the private mode set `?1049 h` |
| Term.ReturnToNormalBuf | src/term.rs:72-74 | a terminal reads the private mode reset `?1049 l` |
| Term.ClearLine | src/term.rs:76-78 | a terminal reads an erase in display with parameter 2 |
| Term.MoveCursorTo | src/term.rs:80-82 | a terminal reads a cursor move to the given row and column, a 0 standing for 1 as in every CUP sequence |
| Term.FromC | src/term.rs:10-14 | width and height are the native values |
| Term.TermSize | src/term.rs:58-62 | the size is the window's columns and rows |
| Term.Kbhit | src/term.rs:53-56 | true exactly when input is waiting |
| TermColor.RgbForeground | src/term_color.rs:1-10 | the parameters are 38, 2 and the first three pieces of the colour; for numeric pieces a terminal reads that foreground colour |
| TermColor.RgbBackground | src/term_color.rs:12-21 | the same with 48, the background |
| TermColor.DirectColorParses | src/term_color.rs:6-9 | a direct-colour sequence reads back as its selector and colour values |
| TermColor.CreateColor | src/term_color.rs:23-37 | the foreground sequence, if any, followed by the background sequence, if any |
| TermC.RawLflag | src/termc.c:38-39 | echo and canonical mode are cleared and every other local flag is kept |
| TermC.CookedLflag | src/termc.c:53-54 | echo and canonical mode are set and every other local flag is kept |
| TermC.RawAttrs | src/termc.c:29-43 | only the local flags change |
| TermC.CookedAttrs | src/termc.c:46-58 | only the local flags change |
| TermC.RawIdempotent | src/termc.c:29-43 | entering raw mode twice is entering it once |
| TermC.CookedIdempotent | src/termc.c:46-58 | entering cooked mode twice is entering it once |
| TermC.RawThenCookedRestores | src/termc.c:29-58 | raw then cooked gives back the settings exactly when echo and canonical mode were both on |
| TermC.CookedThenRawRestores | src/termc.c:29-58 | cooked then raw gives back the settings exactly when echo and canonical mode were both off |
| TermC.Terminal.SetRawTerm | src/termc.c:29-43 | the terminal's settings become their raw form |
| TermC.Terminal.SetCookedTerm | src/termc.c:46-58 | the terminal's settings become their cooked form |
| TermC.Terminal.CKbhit | src/termc.c:70-76 | 1 when input is waiting, 0 otherwise |
| TermC.Terminal.GetTermSize | src/termc.c:17-26 | the window's columns and rows |
| TermC.RawSession | src/termc.c:29-58 | a raw session followed by cooked mode restores a terminal that started with echo and canonical mode on |
| Text.JoinSplit | src/term_color.rs:4 | joining the pieces of a split with the separator gives back the string |
| Text.SplitJoin | src/term_color.rs:4 | splitting a join of separator-free pieces gives back the pieces |
| Text.LinesShape | src/document.rs:129 | the lines of non-empty content are at least one, and none holds a newline |
| Text.JoinLines | src/document.rs:129 | joining the lines with newlines gives back content without carriage returns or a final newline |
| Text.DecimalRoundTrip | src/term.rs:80-82 | the decimal digits of a number read back as that number |

## Left out

- `src/main.rs`, `src/debug.rs`, `build.rs` and `src/termc.h` are not part of this model: they are the event loop, debugging output, the build script and the C header.
- The drawing functions of `src/editor.rs` (`display_line`, `display_document`, `clear_editor_window`, `reset_editor_view`) and `spawn_char_channel` are not modelled: they only print or start a thread.
- EditorLayout.Editor.RecomputeLayout covers the layout updates of `redraw_screen`. The rest of that function (clearing, printing, `move_to_pos_in_line`, which `Cursor` does not define) is not modelled.
- The native calls `tcgetattr`, `tcsetattr`, `ioctl` and `scanf` are represented by the fields of `TermC.Terminal`. `get_ch`/`get_char` read a key and are not modelled.
- The `_WIN32` branch of `src/termc.c` is not modelled.
- `reset_color` and `print_colored` only print and are not modelled.
- `Rope::new` is not modelled: it calls `new_node(None, None)`, which unwraps `None` and always panics.
- `Rope::collect_leaves` is not modelled: its loop never advances, so it does not terminate. Its iterator `RopeLeaves` is modelled.
- `Rc<RefCell<…>>` sharing in the rope and `RefCell` in the buffer list are modelled as plain values and references; no aliasing between ropes is captured.
- `Cursor::update_pos` is not modelled: it builds an escape string and discards it.
- Characters are treated as single bytes: `len()` on a `String` and the number of `char`s are taken to be the same.
- `usize` overflow is not modelled: indices and counters are unbounded naturals.
- BufferManager.BufManager.AddBuffer: takes the `Document` as a parameter, because the source's `Document::new(file_name, editor_dim)` call does not match the three-argument constructor.
- Documents.Document.SetLineAtCursor: uses the corrected shift of the lines that follow, not the source's `last - (next + 1)` (see Findings).
- Documents.Document.RemoveLineFromDoc: re-indexes the lines that follow the removed one, which the source's guard prevents (see Findings).
- Documents.Document.RemoveIndexFromLine: removes the index by value, not by position (see Findings).
- Documents.Document.FollowAfter: shifts the following lines by the corrected `last + 1 - next`, not the source's `last - (next + 1)` (see Findings).
- Documents.Document.MoveBackFrom: is the corrected move-back; it runs whenever a line is removed, which the source's guard at line 275 prevents (see Findings).
- Cursors.Cursor.GetPositionInLine: looks up the line holding document row `row - 2`, not the line at the screen row `row` as the source does (see Findings).
- Cursors.Cursor.MoveToEndLine: looks up the line holding document row `row - 2`, not the line at the screen row `row` as the source does (see Findings).
- Ropes.FromStr: also `Ropes.RopeOf` and `Ropes.HalveUntil`; requires a width above 0 or empty text. With width 0 and text `a` the halving loop of `Rope::from_str` never ends, because a one-character piece splits into `""` and itself.
- Documents.ChunkText: also `Documents.RowsOfLine`, `Documents.Document.Rows` and `Documents.Document.CollectRows`; requires `Wrappable`: a width above 0, or an empty text. With width 0 and a line `a`, `rows(0)` never ends, because `take(0)` does not advance the characters.
- Cursors.SaveMovesRevert: its `Move` list excludes `move_up` and `move_left`, whose `usize` subtraction panics at row or column 0.
- Documents.Document.PushVisUp: requires the window to start at row 1 or later, because the source's `usize` subtraction panics at 0.

## Findings

| source | as written | input that shows it | evidently intended | confidence | as-written member | corrected member |
|---|---|---|---|---|---|---|
| src/document.rs:193-200 | a grown line shifts the lines after it by `last - (next + 1)` | lines `ab`, `cd`, `ef` at width 2 (rows 0, 1, 2); set row 0 to `abcdef` (rows 0-3): `cd` moves to row 2, which `abcdef` also holds | shift by `last + 1 - next`, so the next line starts right after the edited one | high; not executed | DocumentEdits.SetLineOverlap | DocumentEdits.SetLineOverlapCorrected |
| src/document.rs:275 | the guard compares the removed line's last index plus one with the first index of the line that followed it, which always match in a well-indexed document, so nothing is moved back | lines `a`, ``, `b` at width 4 (rows 0, 1, 2); remove row 1: `b` stays on row 2 and row 1 belongs to no line | move the following lines back to start where the removed line started | high; not executed | DocumentEdits.RemoveLineGap | DocumentEdits.RemoveLineGapCorrected |
| src/document.rs:254 | `line.0.remove(cursor_row - 2)` removes the index at that position of the line's indices, after `contains` matched it by value | lines `a`, `bbbbb` at width 2 (rows 0 and 1-3); screen row 3 (row 1) removes row 2 instead; screen row 5 (row 3) indexes past the end of three indices and panics | remove the index whose value is `cursor_row - 2` | medium; not executed | DocumentEdits.RemoveIndexWrongPosition | DocumentEdits.RemoveIndexEffect |
| src/cursor.rs:29-35 | `get_position_in_line` and `move_to_end_line` pass the screen row `self.row` to `get_line_at_cursor`, then search that line for the document row `self.row - 2` | lines `a`, `b`, `c` at width 4 (rows 0, 1, 2), cursor at screen row 2, column 1: the lookup finds `c`, which does not hold row 0, so `unwrap` panics, and `move_to_end_line` jumps to the end of `c` at (4, 2) | look up the line holding `self.row - 2` | high; not executed | Cursors.ScreenRowLookup | Cursors.PositionInLineLaidOut |
