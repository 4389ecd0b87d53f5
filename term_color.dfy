/** Direct-colour SGR sequences (section 8.3.117 of ECMA-48, parameters `38;2` for
    the foreground and `48;2` for the background, followed by red, green and blue).
    The colour is passed as one `"red;green;blue"` string. */
module TermColor {
  import opened Text
  import opened Term

  /** The parameters of a sequence built as `ESC [ params m`. */
  function SgrParameters(s: string): Option<seq<string>>
  {
    if |s| >= 3 && s[0] == Esc && s[1] == '[' && s[|s| - 1] == 'm'
    then Some(Split(s[2..|s| - 1], ';'))
    else None
  }

  /** The selector (38 or 48) and the red, green and blue values of a direct-colour
      SGR sequence whose parameters are all numeric. */
  function ParseDirectColor(s: string): Option<(nat, nat, nat, nat)>
  {
    match ParseControlSequence(s)
    case None => None
    case Some((params, final)) =>
      var ps := Split(params, ';');
      if final != 'm' || |ps| != 5 || ps[1] != "2"
         || !(forall i :: 0 <= i < 5 ==> ps[i] != [] && AllDigits(ps[i]))
      then None
      else Some((ParseDecimal(ps[0]), ParseDecimal(ps[2]), ParseDecimal(ps[3]), ParseDecimal(ps[4])))
  }

  predicate IsNumber(p: string) { p != [] && AllDigits(p) }

  /** `ESC [ selector ; 2 ; red ; green ; blue m`, the string both colour builders
      format. */
  function DirectColor(selector: string, red: string, green: string, blue: string): string
  {
    [Esc] + "[" + Join([selector, "2", red, green, blue], ';') + "m"
  }

  /** `rgb_foreground`: the parameters are 38, 2 and the first three `;`-separated
      pieces of `rgb`; further pieces are ignored. */
  function RgbForeground(rgb: string): (r: string)
    requires |Split(rgb, ';')| >= 3
    ensures var p := Split(rgb, ';');
            SgrParameters(r) == Some(["38", "2", p[0], p[1], p[2]])
    ensures var p := Split(rgb, ';');
            IsNumber(p[0]) && IsNumber(p[1]) && IsNumber(p[2]) ==>
              ParseDirectColor(r) == Some((38, ParseDecimal(p[0]), ParseDecimal(p[1]), ParseDecimal(p[2])))
  {
    var pieces := Split(rgb, ';');
    DirectColorParses("38", pieces[0], pieces[1], pieces[2]);
    DirectColor("38", pieces[0], pieces[1], pieces[2])
  }

  /** `rgb_background`: the parameters are 48, 2 and the first three `;`-separated
      pieces of `rgb`; further pieces are ignored. */
  function RgbBackground(rgb: string): (r: string)
    requires |Split(rgb, ';')| >= 3
    ensures var p := Split(rgb, ';');
            SgrParameters(r) == Some(["48", "2", p[0], p[1], p[2]])
    ensures var p := Split(rgb, ';');
            IsNumber(p[0]) && IsNumber(p[1]) && IsNumber(p[2]) ==>
              ParseDirectColor(r) == Some((48, ParseDecimal(p[0]), ParseDecimal(p[1]), ParseDecimal(p[2])))
  {
    var pieces := Split(rgb, ';');
    DirectColorParses("48", pieces[0], pieces[1], pieces[2]);
    DirectColor("48", pieces[0], pieces[1], pieces[2])
  }

  lemma DirectColorParses(selector: string, red: string, green: string, blue: string)
    requires selector == "38" || selector == "48"
    requires ';' !in red && ';' !in green && ';' !in blue
    ensures var s := DirectColor(selector, red, green, blue);
            SgrParameters(s) == Some([selector, "2", red, green, blue])
            && (IsNumber(red) && IsNumber(green) && IsNumber(blue) ==>
                ParseDirectColor(s) == Some((ParseDecimal(selector), ParseDecimal(red),
                                             ParseDecimal(green), ParseDecimal(blue))))
  {
    var pieces := [selector, "2", red, green, blue];
    var params := Join(pieces, ';');
    var s := DirectColor(selector, red, green, blue);
    assert s[2..|s| - 1] == params;
    SplitJoin(pieces, ';');
    if IsNumber(red) && IsNumber(green) && IsNumber(blue) {
      assert forall i :: 0 <= i < |pieces| ==> AllDigits(pieces[i]);
      JoinedNumbersAreParameters(pieces);
      ControlSequenceParses(params, 'm');
    }
  }

  /** Digit strings joined with `;` consist of parameter bytes only. */
  lemma {:induction false} JoinedNumbersAreParameters(pieces: seq<string>)
    requires forall i :: 0 <= i < |pieces| ==> AllDigits(pieces[i])
    ensures AllParameterBytes(Join(pieces, ';'))
  {
    if |pieces| > 1 {
      JoinedNumbersAreParameters(pieces[1..]);
      var head, tail := pieces[0], Join(pieces[1..], ';');
      var s := head + [';'] + tail;
      forall i | 0 <= i < |s| ensures IsParameterByte(s[i]) {
        if i < |head| { assert s[i] == head[i] && IsDigit(head[i]); }
        else if i > |head| { assert s[i] == tail[i - |head| - 1] && IsParameterByte(tail[i - |head| - 1]); }
        else { assert s[i] == ';'; }
      }
      assert Join(pieces, ';') == s;
    } else if |pieces| == 1 {
      forall i | 0 <= i < |pieces[0]| ensures IsParameterByte(pieces[0][i]) {
        assert IsDigit(pieces[0][i]);
      }
    }
  }

  /** `create_color`: the foreground sequence (when given) followed by the
      background sequence (when given); nothing at all when neither is given. */
  function CreateColor(foreground: Option<string>, background: Option<string>): (r: string)
    requires foreground.Some? ==> |Split(foreground.value, ';')| >= 3
    requires background.Some? ==> |Split(background.value, ';')| >= 3
    ensures foreground.None? && background.None? ==> r == []
    ensures foreground.Some? ==> RgbForeground(foreground.value) <= r
    ensures background.Some? ==> IsSuffix(RgbBackground(background.value), r)
    ensures |r| == (if foreground.Some? then |RgbForeground(foreground.value)| else 0)
                 + (if background.Some? then |RgbBackground(background.value)| else 0)
  {
    var newColor := [];
    var newColor := match foreground
      case Some(color) => newColor + RgbForeground(color)
      case None => newColor;
    var newColor := match background
      case Some(color) => newColor + RgbBackground(color)
      case None => newColor;
    newColor
  }

  predicate IsSuffix(a: string, b: string)
  {
    |a| <= |b| && b[|b| - |a|..] == a
  }
}
