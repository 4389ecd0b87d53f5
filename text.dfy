/** Small string helpers standing in for the Rust standard library calls the editor
    relies on: `Option`, `str::split`, `slice::join`, `str::lines` and the decimal
    formatting that `format!("{}", n)` performs on a `usize`. Characters are single
    bytes; no Unicode distinctions are modelled. */
module Text {

  datatype Option<T> = None | Some(value: T)

  /** `s.split(sep)`: the pieces between separators, in order. An empty string gives
      one empty piece and a trailing separator gives a trailing empty piece. */
  function Split(s: string, sep: char): (r: seq<string>)
    ensures |r| >= 1
    ensures forall i :: 0 <= i < |r| ==> sep !in r[i]
  {
    if s == [] then [[]]
    else
      var rest := Split(s[1..], sep);
      if s[0] == sep then [[]] + rest
      else [[s[0]] + rest[0]] + rest[1..]
  }

  /** The pieces written one after another, as `collect::<String>()` on an
      iterator of strings does. */
  function Concat(pieces: seq<string>): string
  {
    if pieces == [] then [] else pieces[0] + Concat(pieces[1..])
  }

  /** Writing two runs of pieces is writing one after the other. */
  lemma {:induction false} ConcatAppend(a: seq<string>, b: seq<string>)
    ensures Concat(a + b) == Concat(a) + Concat(b)
  {
    if a != [] {
      assert (a + b)[1..] == a[1..] + b;
      ConcatAppend(a[1..], b);
    } else {
      assert a + b == b;
    }
  }

  /** `pieces.join(sep)` with a one-character separator. */
  function Join(pieces: seq<string>, sep: char): string
  {
    if |pieces| == 0 then []
    else if |pieces| == 1 then pieces[0]
    else pieces[0] + [sep] + Join(pieces[1..], sep)
  }

  /** Joining the pieces of a split gives back the original string. */
  lemma {:induction false} JoinSplit(s: string, sep: char)
    ensures Join(Split(s, sep), sep) == s
  {
    if s != [] {
      var rest := Split(s[1..], sep);
      JoinSplit(s[1..], sep);
      if s[0] == sep {
        assert Split(s, sep) == [[]] + rest;
        assert Join([[]] + rest, sep) == [] + [sep] + Join(rest, sep);
      } else {
        var r := Split(s, sep);
        assert r == [[s[0]] + rest[0]] + rest[1..];
        if |rest| == 1 {
          assert Join(r, sep) == [s[0]] + rest[0];
          assert Join(rest, sep) == rest[0];
        } else {
          assert r[1..] == rest[1..];
          assert Join(r, sep) == [s[0]] + rest[0] + [sep] + Join(rest[1..], sep);
          assert Join(rest, sep) == rest[0] + [sep] + Join(rest[1..], sep);
        }
      }
    }
  }

  /** Splitting a string that starts with a separator-free prefix. */
  lemma {:induction false} SplitPrefix(a: string, b: string, sep: char)
    requires sep !in a
    ensures Split(a + b, sep) == [a + Split(b, sep)[0]] + Split(b, sep)[1..]
  {
    if a != [] {
      SplitPrefix(a[1..], b, sep);
      assert (a + b)[1..] == a[1..] + b;
      assert (a + b)[0] == a[0];
      assert [a[0]] + (a[1..] + Split(b, sep)[0]) == a + Split(b, sep)[0];
    } else {
      var r := Split(b, sep);
      assert a + b == b;
      assert a + r[0] == r[0];
      assert r == [r[0]] + r[1..];
    }
  }

  /** Splitting the join of separator-free pieces gives back the pieces. */
  lemma {:induction false} SplitJoin(pieces: seq<string>, sep: char)
    requires |pieces| >= 1
    requires forall i :: 0 <= i < |pieces| ==> sep !in pieces[i]
    ensures Split(Join(pieces, sep), sep) == pieces
  {
    if |pieces| == 1 {
      SplitPrefix(pieces[0], [], sep);
      assert pieces[0] + [] == pieces[0];
    } else {
      var tail := Join(pieces[1..], sep);
      SplitJoin(pieces[1..], sep);
      assert Join(pieces, sep) == pieces[0] + ([sep] + tail);
      SplitPrefix(pieces[0], [sep] + tail, sep);
      assert ([sep] + tail)[1..] == tail;
      assert ([sep] + tail)[0] == sep;
      assert Split([sep] + tail, sep) == [[]] + Split(tail, sep);
      assert pieces[0] + [] == pieces[0];
      assert pieces == [pieces[0]] + pieces[1..];
    }
  }

  /** The last piece of a split is empty exactly when the string is empty or ends
      with the separator. */
  lemma {:induction false} SplitLastEmpty(s: string, sep: char)
    ensures var r := Split(s, sep); (r[|r| - 1] == []) <==> (s == [] || s[|s| - 1] == sep)
  {
    if s != [] {
      SplitLastEmpty(s[1..], sep);
      var rest := Split(s[1..], sep);
      if s[0] != sep && |rest| == 1 {
        assert Split(s, sep) == [[s[0]] + rest[0]];
        if s[1..] != [] { assert s[|s| - 1] == s[1..][|s[1..]| - 1]; }
      } else if s[1..] != [] {
        assert s[|s| - 1] == s[1..][|s[1..]| - 1];
      }
    }
  }

  /** Removes one `'\r'` from the end of a line that was terminated by `'\n'`. */
  function StripCr(line: string): string
  {
    if line != [] && line[|line| - 1] == '\r' then line[..|line| - 1] else line
  }

  function StripAll(lines: seq<string>): (r: seq<string>)
    ensures |r| == |lines|
    ensures forall i :: 0 <= i < |r| ==> r[i] == StripCr(lines[i])
  {
    if lines == [] then [] else [StripCr(lines[0])] + StripAll(lines[1..])
  }

  /** `s.lines()`: lines split at `'\n'`, a final line ending is optional (an empty
      last piece is dropped) and a `'\r'` just before a `'\n'` is removed. */
  function Lines(s: string): seq<string>
  {
    if s == [] then []
    else
      var pieces := Split(s, '\n');
      var last := pieces[|pieces| - 1];
      StripAll(pieces[..|pieces| - 1]) + (if last == [] then [] else [last])
  }

  /** Non-empty content yields at least one line, and no line holds a `'\n'`. */
  lemma LinesShape(s: string)
    ensures s != [] ==> |Lines(s)| >= 1
    ensures forall i :: 0 <= i < |Lines(s)| ==> '\n' !in Lines(s)[i]
  {
    if s != [] {
      var pieces := Split(s, '\n');
      var n := |pieces| - 1;
      var init := StripAll(pieces[..n]);
      var last := pieces[n];
      var lines := init + (if last == [] then [] else [last]);
      assert Lines(s) == lines;
      if n == 0 {
        SplitLastEmpty(s, '\n');
      }
      forall i | 0 <= i < |lines| ensures '\n' !in lines[i] {
        if i < n {
          assert '\n' !in pieces[..n][i];
          assert lines[i] == StripCr(pieces[..n][i]);
        } else {
          assert lines[i] == last;
        }
      }
    }
  }

  /** For content without `'\r'` that does not end in a newline, joining its lines
      with `'\n'` rebuilds it exactly. */
  lemma JoinLines(s: string)
    requires s != [] && s[|s| - 1] != '\n'
    requires '\r' !in s
    ensures Join(Lines(s), '\n') == s
  {
    var pieces := Split(s, '\n');
    SplitLastEmpty(s, '\n');
    NoCrInPieces(s, '\n');
    assert StripAll(pieces[..|pieces| - 1]) == pieces[..|pieces| - 1] by {
      forall i | 0 <= i < |pieces| - 1 ensures StripCr(pieces[i]) == pieces[i] {
        assert '\r' !in pieces[i];
      }
    }
    assert pieces[..|pieces| - 1] + [pieces[|pieces| - 1]] == pieces;
    JoinSplit(s, '\n');
  }

  lemma {:induction false} NoCrInPieces(s: string, sep: char)
    requires '\r' !in s
    ensures forall i :: 0 <= i < |Split(s, sep)| ==> '\r' !in Split(s, sep)[i]
  {
    if s != [] {
      NoCrInPieces(s[1..], sep);
      assert forall c :: c in s[1..] ==> c in s;
    }
  }

  predicate IsDigit(c: char) { '0' <= c <= '9' }

  predicate AllDigits(s: string) { forall i :: 0 <= i < |s| ==> IsDigit(s[i]) }

  function DigitChar(d: nat): (c: char)
    requires d < 10
    ensures IsDigit(c)
  {
    ('0' as int + d) as char
  }

  /** `format!("{}", n)` for an unsigned integer: its decimal digits, most
      significant first, with no leading zero. */
  function Decimal(n: nat): (r: string)
    ensures |r| >= 1 && AllDigits(r)
    ensures |r| > 1 ==> r[0] != '0'
  {
    if n < 10 then [DigitChar(n)] else Decimal(n / 10) + [DigitChar(n % 10)]
  }

  /** Reads a run of decimal digits as a number. */
  function ParseDecimal(s: string): nat
    requires AllDigits(s)
  {
    if s == [] then 0
    else ParseDecimal(s[..|s| - 1]) * 10 + (s[|s| - 1] as int - '0' as int)
  }

  /** Reading the decimal form of a number gives the number back. */
  lemma {:induction false} DecimalRoundTrip(n: nat)
    ensures ParseDecimal(Decimal(n)) == n
  {
    var r := Decimal(n);
    if n >= 10 {
      DecimalRoundTrip(n / 10);
      assert r[..|r| - 1] == Decimal(n / 10);
    }
  }
}
