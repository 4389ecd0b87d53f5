/** The editor's modes and the mode switch, which shows the new mode on the mode
    row and puts the cursor back where it was. */
module EditorModes {
  import Cursors

  datatype Mode = Normal | Insert | Command | MoveTo

  /** The label printed on the mode row for each mode. */
  function ModeLabel(mode: Mode): (name: string)
    ensures |name| == 3
  {
    match mode
    case Normal => "NOR"
    case Insert => "INS"
    case Command => "COM"
    case MoveTo => "MOV"
  }

  /** Different modes show different labels, so the label names the mode. */
  lemma ModeLabelInjective(a: Mode, b: Mode)
    ensures ModeLabel(a) == ModeLabel(b) <==> a == b
  {
    if a != b {
      assert ModeLabel(a)[0] != ModeLabel(b)[0];
    }
  }

  /** `change_mode`: the mode becomes `newMode`; the cursor saves its position, goes
      to the mode row to print the label, and reverts, so it ends where it started
      with that position saved. */
  method ChangeMode(curr: Mode, newMode: Mode, modeRow: nat, cursor: Cursors.Cursor) returns (mode: Mode)
    modifies cursor
    ensures mode == newMode
    ensures cursor.row == old(cursor.row) && cursor.column == old(cursor.column)
    ensures cursor.prevRow == old(cursor.row) && cursor.prevCol == old(cursor.column)
  {
    mode := newMode;
    cursor.SaveCurrentPos();
    cursor.MoveTo(modeRow, 0);
    cursor.RevertPos();
  }
}
