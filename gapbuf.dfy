/** The gap buffer that holds the line being edited: the characters before the
    cursor in `lhs`, which grows and shrinks at its end, and the rest of the line in
    `rhs`. Characters are single bytes here. */
module GapBuffer {
  import opened LineLayout

  class GapBuf {
    var lhs: seq<char>
    var rhs: string

    /** `new`: an empty buffer. */
    constructor ()
      ensures lhs == [] && rhs == []
      ensures CollectToString() == [] && Len() == 0
    {
      lhs := [];
      rhs := "";
    }

    /** `from_str`: `src` split at `ind`; `split_at` panics past the end. */
    constructor FromStr(src: string, ind: nat)
      requires ind <= |src|
      ensures lhs == src[..ind] && rhs == src[ind..]
      ensures CollectToString() == src
    {
      lhs := src[..ind];
      rhs := src[ind..];
      assert src == src[..ind] + src[ind..];
    }

    /** `from_line`: the text of `src` split at `ind`, as `from_str` does. */
    constructor FromLine(src: Line, ind: nat)
      requires ind <= |src.text|
      ensures lhs == src.text[..ind] && rhs == src.text[ind..]
      ensures CollectToString() == src.text
    {
      lhs := src.text[..ind];
      rhs := src.text[ind..];
      assert src.text == src.text[..ind] + src.text[ind..];
    }

    /** `collect_to_string` and `Display`: the whole line. */
    function CollectToString(): (s: string)
      reads this
      ensures |s| == |lhs| + |rhs|
      ensures s[..|lhs|] == lhs && s[|lhs|..] == rhs
    {
      lhs + rhs
    }

    /** `len`: the length of the whole line. */
    function Len(): (n: nat)
      reads this
      ensures n == |CollectToString()|
    {
      |lhs| + |rhs|
    }

    /** `collect_to_pieces`: the line cut at the cursor, whose halves put back
        together give the whole line. */
    function CollectToPieces(): (p: (string, string))
      reads this
      ensures p.0 + p.1 == CollectToString()
      ensures |p.0| == |lhs|
    {
      (lhs, rhs)
    }

    /** `insert`: `c` goes in at the cursor, which moves past it. */
    method Insert(c: char)
      modifies this
      ensures lhs == old(lhs) + [c] && rhs == old(rhs)
      ensures CollectToString() == old(CollectToString()[..|lhs|]) + [c] + old(CollectToString()[|lhs|..])
      ensures Len() == old(Len()) + 1
    {
      lhs := lhs + [c];
    }

    /** `pop`: the character before the cursor, if any, is deleted. */
    method Pop()
      modifies this
      ensures lhs == if old(lhs) == [] then [] else old(lhs)[..|old(lhs)| - 1]
      ensures rhs == old(rhs)
      ensures old(lhs) != [] ==> old(lhs) == lhs + [old(lhs)[|old(lhs)| - 1]]
      ensures Len() == if old(lhs) == [] then old(Len()) else old(Len()) - 1
    {
      if lhs != [] {
        lhs := lhs[..|lhs| - 1];
      }
    }

    /** `pop_tab`: four pops, so up to four characters before the cursor go. */
    method PopTab()
      modifies this
      ensures var n := if |old(lhs)| < 4 then |old(lhs)| else 4;
              lhs == old(lhs)[..|old(lhs)| - n]
      ensures rhs == old(rhs)
    {
      var i := 0;
      while i < 4
        invariant 0 <= i <= 4
        invariant lhs == old(lhs)[..|old(lhs)| - (if |old(lhs)| < i then |old(lhs)| else i)]
        invariant rhs == old(rhs)
      {
        Pop();
        i := i + 1;
      }
    }
  }
}
