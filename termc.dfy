/** The Linux half of the native terminal shim: switching the terminal between raw
    and cooked input by editing the local-mode word `c_lflag` of its `termios`
    attributes, asking whether input bytes are pending, and reading the window size.
    The terminal device itself is an object holding its current attributes, the
    number of bytes waiting to be read and its window size; `tcgetattr`, `tcsetattr`
    and `ioctl` become reads and writes of those fields. */
module TermC {

  newtype u16 = x: int | 0 <= x < 0x1_0000
  newtype u32 = x: int | 0 <= x < 0x1_0000_0000

  /** The local-mode flags this layer touches (Linux values, octal 0000010 and
      0000002; "Local Modes", section 11.2.5 of the POSIX Base Definitions). */
  const ECHO: bv32 := 0x8
  const ICANON: bv32 := 0x2
  const CONTROLLED: bv32 := ECHO | ICANON

  /** A `struct termios`: the four flag words, the line discipline and the control
      characters. */
  datatype Termios = Termios(iflag: bv32, oflag: bv32, cflag: bv32, lflag: bv32,
                             line: bv8, cc: seq<bv8>)

  /** A `struct winsize` as filled in by `TIOCGWINSZ`. */
  datatype Winsize = Winsize(wsRow: u16, wsCol: u16, wsXpixel: u16, wsYpixel: u16)

  /** The `struct wh` handed back to Rust. */
  datatype WidthHeight = WidthHeight(width: u32, height: u32)

  /** The local-mode word after `set_raw_term`: echo and canonical input are off and
      every other bit is as it was. */
  function RawLflag(lflag: bv32): (r: bv32)
    ensures r & ECHO == 0 && r & ICANON == 0
    ensures r & !CONTROLLED == lflag & !CONTROLLED
  {
    lflag & !ECHO & !ICANON
  }

  /** The local-mode word after `set_cooked_term`: echo and canonical input are on
      and every other bit is as it was. */
  function CookedLflag(lflag: bv32): (r: bv32)
    ensures r & ECHO == ECHO && r & ICANON == ICANON
    ensures r & !CONTROLLED == lflag & !CONTROLLED
  {
    lflag | ECHO | ICANON
  }

  /** Attributes after `set_raw_term`: only `c_lflag` differs. */
  function RawAttrs(t: Termios): (r: Termios)
    ensures r.iflag == t.iflag && r.oflag == t.oflag && r.cflag == t.cflag
    ensures r.line == t.line && r.cc == t.cc
    ensures r.lflag == RawLflag(t.lflag)
  {
    t.(lflag := RawLflag(t.lflag))
  }

  /** Attributes after `set_cooked_term`: only `c_lflag` differs. */
  function CookedAttrs(t: Termios): (r: Termios)
    ensures r.iflag == t.iflag && r.oflag == t.oflag && r.cflag == t.cflag
    ensures r.line == t.line && r.cc == t.cc
    ensures r.lflag == CookedLflag(t.lflag)
  {
    t.(lflag := CookedLflag(t.lflag))
  }

  /** Entering raw mode twice is the same as entering it once. */
  lemma RawIdempotent(t: Termios)
    ensures RawAttrs(RawAttrs(t)) == RawAttrs(t)
  {
  }

  /** Entering cooked mode twice is the same as entering it once. */
  lemma CookedIdempotent(t: Termios)
    ensures CookedAttrs(CookedAttrs(t)) == CookedAttrs(t)
  {
  }

  /** Raw then cooked gives back the original attributes exactly when echo and
      canonical input were both on beforehand. */
  lemma RawThenCookedRestores(t: Termios)
    ensures CookedAttrs(RawAttrs(t)) == t <==> t.lflag & CONTROLLED == CONTROLLED
  {
    if CookedAttrs(RawAttrs(t)) == t {
      assert CookedLflag(RawLflag(t.lflag)) == t.lflag;
    }
  }

  /** Cooked then raw gives back the original attributes exactly when echo and
      canonical input were both off beforehand. */
  lemma CookedThenRawRestores(t: Termios)
    ensures RawAttrs(CookedAttrs(t)) == t <==> t.lflag & CONTROLLED == 0
  {
    if RawAttrs(CookedAttrs(t)) == t {
      assert RawLflag(CookedLflag(t.lflag)) == t.lflag;
    }
  }

  /** The controlling terminal of the process. */
  class Terminal {
    var attrs: Termios
    var waiting: int
    var window: Winsize

    constructor (attrs: Termios, waiting: int, window: Winsize)
      ensures this.attrs == attrs && this.waiting == waiting && this.window == window
    {
      this.attrs := attrs;
      this.waiting := waiting;
      this.window := window;
    }

    /** `set_raw_term`: copy the current attributes, clear `ECHO` and `ICANON` in
        the copy's `c_lflag`, write the copy back. */
    method SetRawTerm()
      modifies this`attrs
      ensures attrs == RawAttrs(old(attrs))
    {
      var cooked := attrs;
      var raw := cooked;
      raw := raw.(lflag := raw.lflag & !ECHO);
      raw := raw.(lflag := raw.lflag & !ICANON);
      attrs := raw;
    }

    /** `set_cooked_term`: copy the current attributes, set `ECHO` and `ICANON` in
        the copy's `c_lflag`, write the copy back. */
    method SetCookedTerm()
      modifies this`attrs
      ensures attrs == CookedAttrs(old(attrs))
    {
      var raw := attrs;
      var cooked := raw;
      cooked := cooked.(lflag := cooked.lflag | ECHO);
      cooked := cooked.(lflag := cooked.lflag | ICANON);
      attrs := cooked;
    }

    /** `c_kbhit`: 1 when the `FIONREAD` count is positive, else 0. Nothing is
        consumed. */
    method CKbhit() returns (r: u32)
      ensures r <= 1
      ensures r == 1 <==> waiting > 0
    {
      var pending := waiting;
      r := if pending > 0 then 1 else 0;
    }

    /** `get_term_size`: the window's columns and rows, widened to `unsigned int`. */
    method GetTermSize() returns (wh: WidthHeight)
      ensures wh.width as int == window.wsCol as int
      ensures wh.height as int == window.wsRow as int
    {
      var w := window;
      wh := WidthHeight(w.wsCol as int as u32, w.wsRow as int as u32);
    }
  }

  /** A raw session bracketed by the two transitions leaves a cooked terminal as it
      was found. */
  method RawSession(t: Terminal)
    requires t.attrs.lflag & CONTROLLED == CONTROLLED
    modifies t
    ensures t.attrs == old(t.attrs)
  {
    t.SetRawTerm();
    t.SetCookedTerm();
    RawThenCookedRestores(old(t.attrs));
  }
}
