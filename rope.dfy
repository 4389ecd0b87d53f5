/** The rope built from a line of text: the text is halved until every piece fits
    the display width, the pieces become leaves, and adjacent nodes are paired level
    by level up to a single root. A node's weight is the length of the text under
    its left child. The shared, mutable node cells of the source are plain values
    here. */
module Ropes {
  import opened Text

  datatype RopeNode =
    | Node(weight: nat, lhs: Option<RopeNode>, rhs: Option<RopeNode>)
    | Leaf(weight: nat, val: string)

  datatype Rope = Rope(root: RopeNode)

  /** The leaf texts under a node, left to right. */
  function Leaves(n: RopeNode): seq<string>
  {
    match n
    case Leaf(_, val) => [val]
    case Node(_, lhs, rhs) =>
      (if lhs.Some? then Leaves(lhs.value) else []) + (if rhs.Some? then Leaves(rhs.value) else [])
  }

  /** The leaf texts under a run of nodes, left to right. */
  function AllLeaves(nodes: seq<RopeNode>): seq<string>
  {
    if nodes == [] then [] else Leaves(nodes[0]) + AllLeaves(nodes[1..])
  }

  /** `new_leaf`: a leaf weighs its text's length. */
  function NewLeaf(val: string): (n: RopeNode)
    ensures n.Leaf? && n.weight == |val| && Leaves(n) == [val]
  {
    Leaf(|val|, val)
  }

  /** `lhs_weight`: a leaf's weight; for a node, the sum over its children, or 0 when
      it has no left child. */
  function LhsWeight(n: RopeNode): nat
  {
    match n
    case Leaf(weight, _) => weight
    case Node(_, lhs, rhs) =>
      if lhs.Some? then LhsWeight(lhs.value) + (if rhs.Some? then LhsWeight(rhs.value) else 0)
      else 0
  }

  /** `new_node`: the weight is read from the left child, which must be present. */
  function NewNode(lhs: Option<RopeNode>, rhs: Option<RopeNode>): (n: RopeNode)
    requires lhs.Some?
    ensures n.Node? && n.lhs == lhs && n.rhs == rhs
    ensures Leaves(n) == Leaves(lhs.value) + (if rhs.Some? then Leaves(rhs.value) else [])
  {
    Node(LhsWeight(lhs.value), lhs, rhs)
  }

  /** A node as `new_leaf` and `new_node` build it: leaves weigh their text, every
      node has a left child and weighs the text under it. */
  predicate Built(n: RopeNode)
  {
    match n
    case Leaf(weight, val) => weight == |val|
    case Node(weight, lhs, rhs) =>
      lhs.Some? && Built(lhs.value) && (rhs.Some? ==> Built(rhs.value))
      && weight == |Concat(Leaves(lhs.value))|
  }

  predicate AllBuilt(nodes: seq<RopeNode>)
  {
    forall i :: 0 <= i < |nodes| ==> Built(nodes[i])
  }

  /** On a built node `lhs_weight` is the length of all the text under the node. */
  lemma {:induction false} LhsWeightIsLength(n: RopeNode)
    requires Built(n)
    ensures LhsWeight(n) == |Concat(Leaves(n))|
  {
    match n
    case Leaf(_, val) =>
      assert Concat([val]) == val + Concat([]);
    case Node(_, lhs, rhs) =>
      LhsWeightIsLength(lhs.value);
      if rhs.Some? {
        LhsWeightIsLength(rhs.value);
        ConcatAppend(Leaves(lhs.value), Leaves(rhs.value));
      } else {
        assert Leaves(n) == Leaves(lhs.value) + [] == Leaves(lhs.value);
        assert LhsWeight(n) == LhsWeight(lhs.value);
      }
  }

  /** Pairing built nodes gives a built node. */
  lemma NewNodeBuilt(lhs: RopeNode, rhs: Option<RopeNode>)
    requires Built(lhs) && (rhs.Some? ==> Built(rhs.value))
    ensures Built(NewNode(Some(lhs), rhs))
  {
    LhsWeightIsLength(lhs);
  }

  /** One level of `process_nodes_to_root`: adjacent nodes are paired, and an odd
      last node becomes a node with only a left child. */
  function PairUp(nodes: seq<RopeNode>): (r: seq<RopeNode>)
    ensures |r| == (|nodes| + 1) / 2
  {
    if nodes == [] then []
    else if |nodes| == 1 then [NewNode(Some(nodes[0]), None)]
    else [NewNode(Some(nodes[0]), Some(nodes[1]))] + PairUp(nodes[2..])
  }

  /** Pairing keeps the leaves in order. */
  lemma {:induction false} PairUpLeaves(nodes: seq<RopeNode>)
    ensures AllLeaves(PairUp(nodes)) == AllLeaves(nodes)
  {
    var r := PairUp(nodes);
    if |nodes| == 1 {
      assert AllLeaves(nodes) == Leaves(nodes[0]) + AllLeaves([]);
      assert AllLeaves(r) == Leaves(r[0]) + AllLeaves([]);
    } else if |nodes| >= 2 {
      var a, b, rest := nodes[0], nodes[1], nodes[2..];
      PairUpLeaves(rest);
      assert nodes[1..][1..] == rest;
      var la, lb, lr := Leaves(a), Leaves(b), AllLeaves(rest);
      assert AllLeaves(nodes) == la + (lb + lr);
      assert r[1..] == PairUp(rest);
      assert Leaves(r[0]) == la + lb;
      assert AllLeaves(r) == (la + lb) + lr;
    }
  }

  /** Pairing built nodes gives built nodes. */
  lemma {:induction false} PairUpBuilt(nodes: seq<RopeNode>)
    requires AllBuilt(nodes)
    ensures AllBuilt(PairUp(nodes))
  {
    var r := PairUp(nodes);
    if |nodes| == 1 {
      NewNodeBuilt(nodes[0], None);
    } else if |nodes| >= 2 {
      NewNodeBuilt(nodes[0], Some(nodes[1]));
      assert AllBuilt(nodes[2..]) by {
        forall i | 0 <= i < |nodes| - 2 ensures Built(nodes[2..][i]) { assert nodes[2..][i] == nodes[i + 2]; }
      }
      PairUpBuilt(nodes[2..]);
      forall i | 0 <= i < |r| ensures Built(r[i]) { if i > 0 { assert r[i] == PairUp(nodes[2..])[i - 1]; } }
    }
  }

  /** `process_nodes_to_root`: pairs level by level until one node is left. */
  function ProcessNodesToRoot(nodes: seq<RopeNode>): RopeNode
    requires nodes != []
    decreases |nodes|
  {
    var next := PairUp(nodes);
    if |next| > 1 then ProcessNodesToRoot(next) else next[0]
  }

  /** The root holds the given nodes' leaves in order, and is built when they are. */
  lemma {:induction false} ProcessKeeps(nodes: seq<RopeNode>)
    requires nodes != []
    ensures Leaves(ProcessNodesToRoot(nodes)) == AllLeaves(nodes)
    ensures AllBuilt(nodes) ==> Built(ProcessNodesToRoot(nodes))
    decreases |nodes|
  {
    var next := PairUp(nodes);
    PairUpLeaves(nodes);
    if AllBuilt(nodes) { PairUpBuilt(nodes); }
    if |next| > 1 {
      ProcessKeeps(next);
    } else {
      assert AllLeaves(next) == Leaves(next[0]) + [];
    }
  }

  /** Leaves for the pieces, in order. */
  function LeafNodes(pieces: seq<string>): (r: seq<RopeNode>)
    ensures |r| == |pieces|
    ensures forall i :: 0 <= i < |pieces| ==> r[i] == NewLeaf(pieces[i])
  {
    seq(|pieces|, i requires 0 <= i < |pieces| => NewLeaf(pieces[i]))
  }

  lemma {:induction false} LeafNodesKeep(pieces: seq<string>)
    ensures AllLeaves(LeafNodes(pieces)) == pieces
    ensures AllBuilt(LeafNodes(pieces))
  {
    if pieces != [] {
      LeafNodesKeep(pieces[1..]);
      assert LeafNodes(pieces)[1..] == LeafNodes(pieces[1..]);
    }
  }

  // ----- halving the text -----

  /** `check_is_within_width`: every piece fits the width. */
  predicate AllWithin(pieces: seq<string>, width: nat)
  {
    forall i :: 0 <= i < |pieces| ==> |pieces[i]| <= width
  }

  /** The longest piece's length. */
  function MaxLen(pieces: seq<string>): (m: nat)
    ensures forall i :: 0 <= i < |pieces| ==> |pieces[i]| <= m
  {
    if pieces == [] then 0
    else
      var rest := MaxLen(pieces[1..]);
      assert forall i :: 1 <= i < |pieces| ==> pieces[i] == pieces[1..][i - 1];
      if |pieces[0]| > rest then |pieces[0]| else rest
  }

  /** One round of the halving loop: every piece is split at half its length. */
  function HalveAll(pieces: seq<string>): (r: seq<string>)
    ensures |r| == 2 * |pieces|
  {
    if pieces == [] then []
    else
      var p := pieces[0];
      [p[..|p| / 2], p[|p| / 2..]] + HalveAll(pieces[1..])
  }

  /** Halving keeps the text. */
  lemma {:induction false} HalveAllText(pieces: seq<string>)
    ensures Concat(HalveAll(pieces)) == Concat(pieces)
  {
    if pieces != [] {
      var p := pieces[0];
      var r := HalveAll(pieces);
      HalveAllText(pieces[1..]);
      assert r[2..] == HalveAll(pieces[1..]);
      assert r[1..][1..] == r[2..];
      assert p == p[..|p| / 2] + p[|p| / 2..];
      assert Concat(r) == p[..|p| / 2] + (p[|p| / 2..] + Concat(r[2..]));
    }
  }

  /** Halving at least halves the longest piece, rounding up. */
  lemma {:induction false} HalveAllShrinks(pieces: seq<string>)
    ensures MaxLen(HalveAll(pieces)) <= (MaxLen(pieces) + 1) / 2
  {
    if pieces != [] {
      var r := HalveAll(pieces);
      HalveAllShrinks(pieces[1..]);
      assert r[2..] == HalveAll(pieces[1..]);
      assert r[1..][1..] == r[2..];
    }
  }

  /** The halving loop as a recursion: halve until every piece fits. A zero width
      is only met by empty pieces; for anything else the source loops forever. */
  function HalveUntil(pieces: seq<string>, width: nat): (r: seq<string>)
    requires width > 0 || MaxLen(pieces) == 0
    ensures |r| >= |pieces|
    decreases MaxLen(pieces)
  {
    if AllWithin(pieces, width) then pieces
    else
      HalveAllShrinks(pieces);
      HalveUntil(HalveAll(pieces), width)
  }

  /** The pieces fit the width and spell the text. */
  lemma {:induction false} HalveUntilKeeps(pieces: seq<string>, width: nat)
    requires width > 0 || MaxLen(pieces) == 0
    ensures AllWithin(HalveUntil(pieces, width), width)
    ensures Concat(HalveUntil(pieces, width)) == Concat(pieces)
    decreases MaxLen(pieces)
  {
    if !AllWithin(pieces, width) {
      HalveAllShrinks(pieces);
      HalveAllText(pieces);
      HalveUntilKeeps(HalveAll(pieces), width);
    }
  }

  /** The rope `from_str` builds. */
  function RopeOf(value: string, width: nat): Rope
    requires width > 0 || value == []
  {
    assert MaxLen([value]) == |value|;
    Rope(ProcessNodesToRoot(LeafNodes(HalveUntil([value], width))))
  }

  /** The rope spells the text, every leaf fits the width, and every weight is the
      length of the text under the node's left child. */
  lemma RopeOfSpells(value: string, width: nat)
    requires width > 0 || value == []
    ensures var root := RopeOf(value, width).root;
            Concat(Leaves(root)) == value
            && AllWithin(Leaves(root), width)
            && Built(root)
  {
    assert MaxLen([value]) == |value|;
    var pieces := HalveUntil([value], width);
    HalveUntilKeeps([value], width);
    assert Concat([value]) == value + Concat([]);
    LeafNodesKeep(pieces);
    ProcessKeeps(LeafNodes(pieces));
  }

  /** `check_is_within_width`, with its early return. */
  method CheckIsWithinWidth(pieces: seq<string>, width: nat) returns (b: bool)
    ensures b <==> AllWithin(pieces, width)
  {
    for i := 0 to |pieces|
      invariant AllWithin(pieces[..i], width)
    {
      if |pieces[i]| > width {
        return false;
      }
    }
    assert pieces[..|pieces|] == pieces;
    return true;
  }

  /** `Rope::from_str`: halves the pieces while some piece is too wide, then builds
      the tree over their leaves. */
  method FromStr(value: string, width: nat) returns (rope: Rope)
    requires width > 0 || value == []
    ensures rope == RopeOf(value, width)
  {
    var pieces := [value];
    assert MaxLen(pieces) == |value|;
    var within := CheckIsWithinWidth(pieces, width);
    while !within
      invariant width > 0 || MaxLen(pieces) == 0
      invariant within <==> AllWithin(pieces, width)
      invariant HalveUntil(pieces, width) == HalveUntil([value], width)
      decreases MaxLen(pieces)
    {
      HalveAllShrinks(pieces);
      pieces := HalveAll(pieces);
      within := CheckIsWithinWidth(pieces, width);
    }
    rope := Rope(ProcessNodesToRoot(LeafNodes(pieces)));
  }

  /** The first halving of the source's unit test. */
  lemma HelloWorldFirstHalving()
    ensures HalveAll(["Hello,_World!"]) == ["Hello,", "_World!"]
  {
    var s := "Hello,_World!";
    assert s[..6] == "Hello," && s[6..] == "_World!";
    assert HalveAll([s]) == [s[..6], s[6..]] + HalveAll([]);
  }

  /** The second halving of the source's unit test. */
  lemma HelloWorldSecondHalving()
    ensures HalveAll(["Hello,", "_World!"]) == ["Hel", "lo,", "_Wo", "rld!"]
  {
    var a, b := "Hello,", "_World!";
    assert a[..3] == "Hel" && a[3..] == "lo," && b[..3] == "_Wo" && b[3..] == "rld!";
    assert [a, b][1..] == [b];
    assert HalveAll([b]) == [b[..3], b[3..]] + HalveAll([]);
    assert HalveAll([a, b]) == [a[..3], a[3..]] + HalveAll([b]);
  }

  /** The pieces of the source's unit test: "Hello,_World!" is halved twice at
      width 4. */
  lemma HelloWorldPieces()
    ensures HalveUntil(["Hello,_World!"], 4) == ["Hel", "lo,", "_Wo", "rld!"]
  {
    var s := "Hello,_World!";
    var halves := ["Hello,", "_World!"];
    var pieces := ["Hel", "lo,", "_Wo", "rld!"];
    HelloWorldFirstHalving();
    HelloWorldSecondHalving();
    assert !AllWithin([s], 4) by { assert |[s][0]| == 13; }
    assert !AllWithin(halves, 4) by { assert |halves[0]| == 6; }
    assert AllWithin(pieces, 4);
    assert HalveUntil([s], 4) == HalveUntil(halves, 4);
    assert HalveUntil(halves, 4) == HalveUntil(pieces, 4);
  }

  /** The rope of the source's unit test: "Hello,_World!" at width 4. */
  lemma HelloWorldRope()
    ensures RopeOf("Hello,_World!", 4)
            == Rope(Node(6, Some(Node(3, Some(Leaf(3, "Hel")), Some(Leaf(3, "lo,")))),
                            Some(Node(3, Some(Leaf(3, "_Wo")), Some(Leaf(4, "rld!"))))))
  {
    HelloWorldPieces();
    var pieces := ["Hel", "lo,", "_Wo", "rld!"];
    var leaves := [Leaf(3, "Hel"), Leaf(3, "lo,"), Leaf(3, "_Wo"), Leaf(4, "rld!")];
    assert LeafNodes(pieces) == leaves;
    var left := Node(3, Some(Leaf(3, "Hel")), Some(Leaf(3, "lo,")));
    var right := Node(3, Some(Leaf(3, "_Wo")), Some(Leaf(4, "rld!")));
    assert leaves[2..][2..] == [];
    assert PairUp(leaves[2..]) == [right] + PairUp([]);
    assert PairUp(leaves) == [left] + PairUp(leaves[2..]);
    assert [left, right][2..] == [];
    assert PairUp([left, right]) == [Node(6, Some(left), Some(right))] + PairUp([]);
  }

  /** `RopeLeaves`: an iterator over a list of leaves. */
  class RopeLeaves {
    var leaves: seq<RopeNode>
    var index: nat

    predicate Valid()
      reads this
    {
      index <= |leaves|
    }

    constructor (leaves: seq<RopeNode>)
      ensures this.leaves == leaves && index == 0 && Valid()
    {
      this.leaves := leaves;
      index := 0;
    }

    /** `next`: the leaves in order, then nothing, and the index stops at the end. */
    method Next() returns (res: Option<RopeNode>)
      requires Valid()
      modifies this
      ensures Valid() && leaves == old(leaves)
      ensures old(index) < |leaves| ==> res == Some(leaves[old(index)]) && index == old(index) + 1
      ensures old(index) == |leaves| ==> res == None && index == old(index)
    {
      if index < |leaves| {
        res := Some(leaves[index]);
        index := index + 1;
      } else {
        res := None;
      }
    }
  }
}
