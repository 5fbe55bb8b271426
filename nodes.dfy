/** The search node: a cell with its cost from the start and a back link to
    the node it was last reached from. Two nodes are equal when their cells
    are; cost and parent play no part in equality. */
module Nodes {
  import opened Grid

  class AStarNode {
    const x: int
    const y: int
    const z: int
    /** Accumulated cost from the start. */
    var g: int
    /** Predecessor on the best known route; null for a seed node. */
    var parent: AStarNode?

    /** The cell this node stands for. */
    function Pos(): Coord
    {
      Coord(x, y, z)
    }

    /** new AStarNode(x, y, z, parent, target): a node without a parent costs
        0, one with a parent costs the parent's cost plus the move. */
    constructor (x: int, y: int, z: int, parent: AStarNode?)
      ensures Pos() == Coord(x, y, z) && this.parent == parent
      ensures parent == null ==> g == 0
      ensures parent != null ==> g == parent.g + Manhattan(parent.Pos(), Coord(x, y, z))
    {
      this.x, this.y, this.z := x, y, z;
      this.parent := parent;
      this.g := if parent == null then 0 else parent.g + Manhattan(parent.Pos(), Coord(x, y, z));
    }

    /** equals: positional identity. */
    predicate Equals(other: AStarNode)
      ensures Equals(other) <==> Pos() == other.Pos()
    {
      x == other.x && y == other.y && z == other.z
    }

    /** setG(g, parent): overwrites both cost and parent, whatever they were. */
    method SetG(g: int, parent: AStarNode?)
      modifies this
      ensures this.g == g && this.parent == parent
    {
      this.g := g;
      this.parent := parent;
    }
  }

  /** Some node of `s` stands for cell `p`. */
  predicate HasPos(s: seq<AStarNode>, p: Coord)
  {
    exists n :: n in s && n.Pos() == p
  }

  /** No two nodes of `s` stand for the same cell. */
  predicate DistinctPos(s: seq<AStarNode>)
  {
    forall i, j :: 0 <= i < j < |s| ==> s[i].Pos() != s[j].Pos()
  }

  /** Index of the first node of `s` equal to cell `p`, as an iteration that
      stops at the first match finds it; |s| when there is none. */
  function IndexOfPos(s: seq<AStarNode>, p: Coord): (k: nat)
    ensures k <= |s|
    ensures k < |s| <==> HasPos(s, p)
    ensures k < |s| ==> s[k].Pos() == p
    ensures forall j :: 0 <= j < k ==> s[j].Pos() != p
  {
    if s == [] then 0
    else if s[0].Pos() == p then 0
    else
      assert forall n :: n in s ==> n == s[0] || n in s[1..];
      1 + IndexOfPos(s[1..], p)
  }

  /** A scan that first meets `p` at index `i` agrees with IndexOfPos. */
  lemma IndexOfPosAt(s: seq<AStarNode>, p: Coord, i: nat)
    requires i < |s| && s[i].Pos() == p
    requires forall j :: 0 <= j < i ==> s[j].Pos() != p
    ensures IndexOfPos(s, p) == i
  {
    var k := IndexOfPos(s, p);
    assert HasPos(s, p) by { assert s[i] in s; }
  }

  /** `n` is the node an iteration over `s` stops at when looking for `p`. */
  predicate IsFirstMatch(n: AStarNode, s: seq<AStarNode>, p: Coord)
  {
    var k := IndexOfPos(s, p);
    k < |s| && s[k] == n
  }

  /** In a sequence without repeated cells the first match is the only one. */
  lemma {:induction false} FirstMatchUnique(s: seq<AStarNode>, n: AStarNode)
    requires DistinctPos(s) && n in s
    ensures IsFirstMatch(n, s, n.Pos())
  {
    var i :| 0 <= i < |s| && s[i] == n;
    IndexOfPosAt(s, n.Pos(), i);
  }

  /** A cell present in a prefix is present in the whole sequence. */
  lemma HasPosPrefix(a: seq<AStarNode>, b: seq<AStarNode>, p: Coord)
    requires |a| <= |b| && b[..|a|] == a
    ensures HasPos(a, p) ==> HasPos(b, p)
  {
    if HasPos(a, p) {
      var n :| n in a && n.Pos() == p;
      var i :| 0 <= i < |a| && a[i] == n;
      assert b[i] == n;
    }
  }

  /** Following parent links from the first node of `w` visits the nodes
      of `w` in order, and none but the last is `start`. */
  predicate ParentWalk(w: seq<AStarNode>, start: AStarNode)
    reads w
  {
    forall i :: 0 <= i < |w| - 1 ==> w[i] != start && w[i + 1] == w[i].parent
  }
}
