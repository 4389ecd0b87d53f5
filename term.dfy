/** The Rust side of the terminal layer: ECMA-48 control sequences built as strings,
    the conversion of the native window size, and the key-pressed test.

    A control sequence (section 5.4 of ECMA-48) is ESC, `[`, a run of parameter
    bytes (0x30-0x3F: digits, `;`, `?` and friends) and one final byte
    (0x40-0x7E). `ParseControlSequence` reads one back, and each builder below is
    specified by what a terminal reads from its output. */
module Term {
  import opened Text
  import TermC

  const Esc: char := '\U{1B}'

  predicate IsParameterByte(c: char) { 0x30 <= c as int <= 0x3F }

  predicate AllParameterBytes(s: string) { forall i :: 0 <= i < |s| ==> IsParameterByte(s[i]) }

  predicate IsFinalByte(c: char) { 0x40 <= c as int <= 0x7E }

  /** The parameter string and final byte of a control sequence, or `None` when the
      string is not exactly one control sequence. */
  function ParseControlSequence(s: string): Option<(string, char)>
  {
    if |s| >= 3 && s[0] == Esc && s[1] == '[' && IsFinalByte(s[|s| - 1])
       && forall i :: 2 <= i < |s| - 1 ==> IsParameterByte(s[i])
    then Some((s[2..|s| - 1], s[|s| - 1]))
    else None
  }

  /** The numeric value of one parameter; an empty parameter takes the default. */
  function ParameterValue(p: string, default: nat): Option<nat>
  {
    if p == [] then Some(default)
    else if AllDigits(p) then Some(ParseDecimal(p))
    else None
  }

  /** The (line, column) a CUP sequence (section 8.3.21) moves to. Each omitted
      parameter defaults to 1, and terminals of the VT100 family also read a 0 as
      1, the first line or column. */
  function ParseCursorPosition(s: string): Option<(nat, nat)>
  {
    match ParseControlSequence(s)
    case None => None
    case Some((params, final)) =>
      var ps := Split(params, ';');
      if final != 'H' || |ps| > 2 then None
      else
        var line := CupValue(ps[0]);
        var column := if |ps| == 2 then CupValue(ps[1]) else Some(1);
        if line.None? || column.None? then None else Some((line.value, column.value))
  }

  /** One CUP parameter: omitted or 0 both mean 1. */
  function CupValue(p: string): Option<nat>
  {
    match ParameterValue(p, 1)
    case None => None
    case Some(v) => Some(if v == 0 then 1 else v)
  }

  /** The line or column a terminal moves to for a CUP parameter `n`. */
  function FirstIfZero(n: nat): nat
  {
    if n == 0 then 1 else n
  }

  /** The selective parameter of an ED sequence (section 8.3.39); it defaults to 0. */
  function ParseEraseInDisplay(s: string): Option<nat>
  {
    match ParseControlSequence(s)
    case None => None
    case Some((params, final)) =>
      var ps := Split(params, ';');
      if final != 'J' || |ps| != 1 then None else ParameterValue(ps[0], 0)
  }

  /** A parameter string made of parameter bytes, closed by a final byte, reads
      back as itself. */
  lemma ControlSequenceParses(params: string, final: char)
    requires AllParameterBytes(params)
    requires IsFinalByte(final)
    ensures ParseControlSequence([Esc] + "[" + params + [final]) == Some((params, final))
  {
    var s := [Esc] + "[" + params + [final];
    assert s[2..|s| - 1] == params;
    assert forall i :: 2 <= i < |s| - 1 ==> s[i] == params[i - 2];
  }

  /** `move_cursor_home`: CUP with both parameters omitted, i.e. line 1, column 1. */
  function MoveCursorHome(): (r: string)
    ensures ParseCursorPosition(r) == Some((1, 1))
  {
    ControlSequenceParses("", 'H');
    [Esc] + "[" + "" + "H"
  }

  /** `switch_to_alt_buf`: set private mode 1049 (alternate screen buffer). */
  function SwitchToAltBuf(): (r: string)
    ensures ParseControlSequence(r) == Some(("?1049", 'h'))
  {
    ControlSequenceParses("?1049", 'h');
    [Esc] + "[" + "?1049" + "h"
  }

  /** `return_to_normal_buf`: reset private mode 1049. */
  function ReturnToNormalBuf(): (r: string)
    ensures ParseControlSequence(r) == Some(("?1049", 'l'))
  {
    ControlSequenceParses("?1049", 'l');
    [Esc] + "[" + "?1049" + "l"
  }

  /** `clear_line`: despite its name this is ED with parameter 2, erasing the whole
      display rather than a line. */
  function ClearLine(): (r: string)
    ensures ParseEraseInDisplay(r) == Some(2)
  {
    ControlSequenceParses("2", 'J');
    SplitPrefix("2", [], ';');
    assert "2" + [] == "2";
    assert Split("2", ';') == ["2"];
    [Esc] + "[" + "2" + "J"
  }

  /** `move_cursor_to(row, column)`: the CUP sequence that a terminal reads back as
      that line and column, where a 0 stands for the first. */
  function MoveCursorTo(row: nat, column: nat): (r: string)
    ensures ParseCursorPosition(r) == Some((FirstIfZero(row), FirstIfZero(column)))
  {
    var params := Decimal(row) + ";" + Decimal(column);
    CupParses(row, column, params);
    [Esc] + "[" + params + "H"
  }

  lemma CupParses(row: nat, column: nat, params: string)
    requires params == Decimal(row) + ";" + Decimal(column)
    ensures ParseCursorPosition([Esc] + "[" + params + "H") == Some((FirstIfZero(row), FirstIfZero(column)))
  {
    var a, b := Decimal(row), Decimal(column);
    forall i | 0 <= i < |params| ensures IsParameterByte(params[i]) {
      if i < |a| { assert IsDigit(a[i]); }
      else if i > |a| { assert IsDigit(b[i - |a| - 1]); }
    }
    ControlSequenceParses(params, 'H');
    var pieces := [a, b];
    assert ';' !in a && ';' !in b;
    assert Join(pieces, ';') == params by {
      assert Join(pieces[1..], ';') == b;
    }
    SplitJoin(pieces, ';');
    DecimalRoundTrip(row);
    DecimalRoundTrip(column);
  }

  /** The terminal size on the Rust side. */
  datatype Wh = Wh(width: nat, height: nat)

  /** `Wh::from_c`: both fields are carried over unchanged (an `unsigned int` always
      fits a `usize`). */
  function FromC(c: TermC.WidthHeight): (r: Wh)
    ensures r.width == c.width as int && r.height == c.height as int
  {
    Wh(c.width as int, c.height as int)
  }

  /** `term_size`: the live window size of the terminal, columns as width and rows
      as height. Nothing is cached. */
  method TermSize(t: TermC.Terminal) returns (r: Wh)
    ensures r.width == t.window.wsCol as int && r.height == t.window.wsRow as int
  {
    var c := t.GetTermSize();
    r := FromC(c);
  }

  /** `kbhit`: true exactly when input bytes are waiting; nothing is consumed. */
  method Kbhit(t: TermC.Terminal) returns (hit: bool)
    ensures hit <==> t.waiting > 0
  {
    var native := t.CKbhit();
    hit := native != 0;
  }
}
