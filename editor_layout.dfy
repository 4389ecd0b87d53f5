/** The editor's screen layout, derived from the terminal size: the text area runs
    from row `editorTop` to row `editorBottom` between the left and right edges, the
    mode is shown on `modeRow` and commands are typed on `commandRow`, the last row. */
module EditorLayout {
  import Term

  class Editor {
    var editorTop: nat
    var editorBottom: nat
    var editorLeftEdge: nat
    var editorRightEdge: nat
    var editorWidth: nat
    var editorHeight: nat
    var modeRow: nat
    var commandRow: nat

    /** The rows stack up with nothing between them: the text area ends one row
        above the mode row, which is one row above the command row; the width is the
        distance between the edges. */
    predicate Stacked()
      reads this
    {
      editorHeight + 1 == editorBottom && editorBottom + 1 == modeRow
      && modeRow + 1 == commandRow
      && editorLeftEdge + editorWidth == editorRightEdge
    }

    /** `Editor::new`: the usize subtractions need a terminal at least three rows
        high and a right edge not left of the left edge. */
    constructor (dimensions: Term.Wh, leftEdge: nat, rightEdge: nat)
      requires dimensions.height >= 3
      requires rightEdge >= leftEdge
      ensures editorTop == 2
      ensures editorBottom == dimensions.height - 2 && editorHeight == dimensions.height - 3
      ensures modeRow == dimensions.height - 1 && commandRow == dimensions.height
      ensures editorLeftEdge == leftEdge && editorRightEdge == rightEdge
      ensures editorWidth == rightEdge - leftEdge
      ensures Stacked()
    {
      editorTop := 2;
      editorBottom := dimensions.height - 2;
      editorLeftEdge := leftEdge;
      editorRightEdge := rightEdge;
      editorWidth := rightEdge - leftEdge;
      editorHeight := dimensions.height - 3;
      modeRow := dimensions.height - 1;
      commandRow := dimensions.height;
    }

    /** The layout part of `redraw_screen`: the right edge follows the new width, the
        mode and command rows follow the new height, and the home position is the
        top-left corner of the text area. `editorBottom` and `editorHeight` are not
        recomputed, so the rows stay stacked only when the height is unchanged. */
    method RecomputeLayout(dimensions: Term.Wh) returns (home: (nat, nat))
      requires dimensions.width >= 2 && dimensions.width - 2 >= editorLeftEdge
      requires dimensions.height >= 1
      modifies this
      ensures editorRightEdge == dimensions.width - 2
      ensures editorWidth == editorRightEdge - editorLeftEdge
      ensures modeRow == dimensions.height - 1 && commandRow == dimensions.height
      ensures home == (editorTop, editorLeftEdge)
      ensures editorTop == old(editorTop) && editorBottom == old(editorBottom)
      ensures editorLeftEdge == old(editorLeftEdge) && editorHeight == old(editorHeight)
      ensures old(Stacked()) ==> (Stacked() <==> dimensions.height == old(commandRow))
    {
      editorRightEdge := dimensions.width - 2;
      editorWidth := editorRightEdge - editorLeftEdge;
      modeRow := dimensions.height - 1;
      commandRow := dimensions.height;
      home := (editorTop, editorLeftEdge);
    }
  }
}
