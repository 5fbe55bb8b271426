/** Parent cycles. getNextCandidates re-parents a closed node whatever the
    new cost: when the node it expands has a move back onto its own parent,
    that parent becomes its child and the two point at each other. A walk
    that enters such a pair never reaches the start, so the path
    reconstruction of getPath never ends. This module proves that the
    relaxation as written closes such a cycle, in general and on a
    four-cell corridor; it then proves that a relaxation of closed nodes
    made only when it is cheaper keeps costs strictly decreasing along
    parent links, and that every parent walk is then short and repeats no
    node. */
module Cycles {
  import opened Grid
  import opened Nodes
  import opened Search
  import opened Counting

  /** As written: expanding `node`, whose parent `p` is the first closed
      node at the cell the move `off` leads to, makes `p` the child of
      `node` while `node` stays the child of `p`. */
  lemma PassReversesParent(w: World, s: SearchState, node: AStarNode, g0: int, off: Offset, m: AStarNode, p: AStarNode)
    requires node in s.fields && s.fields[node].parent == p
    requires IsFirstMatch(p, s.closed, Shift(node.Pos(), off)) && off != Offset(0, 0, 0)
    ensures var r := Pass(w, s, node, g0, off, m);
      p != node && p in r.fields && node in r.fields &&
      r.fields[p].parent == node && r.fields[node].parent == p
  {
    assert p.Pos() != node.Pos();
    assert HasPos(s.closed, p.Pos()) by { assert s.closed[IndexOfPos(s.closed, p.Pos())] == p; }
  }

  /** The corridor of cells x = 0..3 (y = z = 0), the only cells a move may
      enter; no ladders anywhere. */
  function Corridor(): World
  {
    World((p: Coord) => false, (p: Coord, dy: int) => p.y == 0 && p.z == 0 && 0 <= p.x <= 3)
  }

  /** A move table holding one block east and one block west. */
  function EastWest(): seq<Offset>
  {
    [Offset(1, 0, 0), Offset(-1, 0, 0)]
  }

  /** The cell x blocks east of the origin. */
  function Cell(x: int): Coord
  {
    Coord(x, 0, 0)
  }

  /** The states of a search on the corridor from `s0` at x = 0 to `e` at
      x = 3 with the east-west table, after 0, 1, 2 and 3 iterations. */
  function CorridorStates(s0: AStarNode, a: AStarNode, b: AStarNode, e: AStarNode): seq<SearchState>
  {
    var f1 := map[s0 := NodeState(0, null)][a := NodeState(1, s0)];
    var f2 := f1[b := NodeState(2, a)][s0 := NodeState(2, a)];
    var f3 := f2[e := NodeState(3, b)][a := NodeState(3, b)];
    [Initial(s0, NodeState(0, null)),
     SearchState([a], [s0], f1),
     SearchState([b], [s0, a], f2),
     SearchState([e], [s0, a, b], f3)]
  }

  /** The nodes those iterations create: `x` for the blocked cell west of
      the start; the candidates for known cells are reused nodes at those
      cells, since such a candidate is only compared by its cell. */
  function CorridorSteps(s0: AStarNode, a: AStarNode, b: AStarNode, e: AStarNode, x: AStarNode): seq<Made>
  {
    [Made(s0, s0, [a, x]), Made(s0, s0, [b, s0]), Made(s0, s0, [e, a])]
  }

  /** Two candidates, one block east and one block west of the head, fit
      an iteration on the corridor. */
  lemma CorridorFits(s: SearchState, k: Made)
    requires s.queue != [] && |k.cands| == 2
    requires k.cands[0].Pos() == Shift(s.queue[0].Pos(), Offset(1, 0, 0))
    requires k.cands[1].Pos() == Shift(s.queue[0].Pos(), Offset(-1, 0, 0))
    ensures Fits(Corridor(), EastWest(), s, k)
  {
    var c := EastWest();
    forall i | 0 <= i < |c|
      ensures k.cands[i].Pos() == Shift(s.queue[0].Pos(), c[i])
    {
      if i == 0 {
        assert c[i] == Offset(1, 0, 0);
      } else {
        assert c[i] == Offset(-1, 0, 0);
      }
    }
  }

  lemma CorridorFirst(s0: AStarNode, a: AStarNode, b: AStarNode, e: AStarNode, x: AStarNode)
    requires s0.Pos() == Cell(0) && a.Pos() == Cell(1) && b.Pos() == Cell(2) && e.Pos() == Cell(3)
    requires x.Pos() == Cell(-1)
    ensures Advances(Corridor(), EastWest(), CorridorStates(s0, a, b, e)[0], CorridorStates(s0, a, b, e)[1], CorridorSteps(s0, a, b, e, x)[0])
  {
    var w, c, t, k := Corridor(), EastWest(), CorridorStates(s0, a, b, e), CorridorSteps(s0, a, b, e, x)[0];
    var e0 := Expand(t[0]);
    assert e0 == SearchState([], [s0], t[0].fields);
    assert !HasPos(e0.closed, Cell(1)) && !HasPos(e0.queue, Cell(1));
    var p1 := Pass(w, e0, s0, 0, c[0], a);
    assert p1 == t[1];
    assert !HasPos(p1.closed, Cell(-1)) && !HasPos(p1.queue, Cell(-1));
    assert Passes(w, e0, s0, 0, c[..1], k.cands[..1]) == p1;
  }

  /** The passes of iteration 2 on the corridor. */
  lemma CorridorSecondPasses(s0: AStarNode, a: AStarNode, b: AStarNode, e: AStarNode, x: AStarNode)
    requires s0.Pos() == Cell(0) && a.Pos() == Cell(1) && b.Pos() == Cell(2) && e.Pos() == Cell(3)
    requires x.Pos() == Cell(-1)
    ensures var t, k := CorridorStates(s0, a, b, e), CorridorSteps(s0, a, b, e, x)[1];
      t[1].queue != [] && Passes(Corridor(), Expand(t[1]), a, 1, EastWest(), k.cands) == t[2]
  {
    var w, c, t, k := Corridor(), EastWest(), CorridorStates(s0, a, b, e), CorridorSteps(s0, a, b, e, x)[1];
    var e1 := Expand(t[1]);
    assert e1 == SearchState([], [s0, a], t[1].fields);
    assert !HasPos(e1.closed, Cell(2)) && !HasPos(e1.queue, Cell(2));
    var p1 := Pass(w, e1, a, 1, c[0], b);
    assert p1 == SearchState([b], [s0, a], t[1].fields[b := NodeState(2, a)]);
    IndexOfPosAt(p1.closed, Cell(0), 0);
    assert Passes(w, e1, a, 1, c[..1], k.cands[..1]) == p1;
    var p2 := Relax(p1, s0, NodeState(2, a));
    assert Pass(w, p1, a, 1, c[1], s0) == p2;
    assert Passes(w, e1, a, 1, c, k.cands) == p2;
    assert p2 == t[2];
  }

  lemma CorridorSecond(s0: AStarNode, a: AStarNode, b: AStarNode, e: AStarNode, x: AStarNode)
    requires s0.Pos() == Cell(0) && a.Pos() == Cell(1) && b.Pos() == Cell(2) && e.Pos() == Cell(3)
    requires x.Pos() == Cell(-1)
    ensures Advances(Corridor(), EastWest(), CorridorStates(s0, a, b, e)[1], CorridorStates(s0, a, b, e)[2], CorridorSteps(s0, a, b, e, x)[1])
  {
    var w, c, t, k := Corridor(), EastWest(), CorridorStates(s0, a, b, e), CorridorSteps(s0, a, b, e, x)[1];
    CorridorSecondPasses(s0, a, b, e, x);
    assert Ladder(w, Expand(t[1]), a, 1, s0, s0) == Expand(t[1]);
    assert Iterate(w, c, t[1], k) == t[2];
    CorridorFits(t[1], k);
  }

  /** The passes of iteration 3 on the corridor. */
  lemma CorridorThirdPasses(s0: AStarNode, a: AStarNode, b: AStarNode, e: AStarNode, x: AStarNode)
    requires s0.Pos() == Cell(0) && a.Pos() == Cell(1) && b.Pos() == Cell(2) && e.Pos() == Cell(3)
    requires x.Pos() == Cell(-1)
    ensures var t, k := CorridorStates(s0, a, b, e), CorridorSteps(s0, a, b, e, x)[2];
      t[2].queue != [] && Passes(Corridor(), Expand(t[2]), b, 2, EastWest(), k.cands) == t[3]
  {
    var w, c, t, k := Corridor(), EastWest(), CorridorStates(s0, a, b, e), CorridorSteps(s0, a, b, e, x)[2];
    var e2 := Expand(t[2]);
    assert e2 == SearchState([], [s0, a, b], t[2].fields);
    assert !HasPos(e2.closed, Cell(3)) && !HasPos(e2.queue, Cell(3));
    var p1 := Pass(w, e2, b, 2, c[0], e);
    assert p1 == SearchState([e], [s0, a, b], t[2].fields[e := NodeState(3, b)]);
    IndexOfPosAt(p1.closed, Cell(1), 1);
    assert Passes(w, e2, b, 2, c[..1], k.cands[..1]) == p1;
    var p2 := Relax(p1, a, NodeState(3, b));
    assert Pass(w, p1, b, 2, c[1], a) == p2;
    assert Passes(w, e2, b, 2, c, k.cands) == p2;
    assert p2 == t[3];
  }

  lemma CorridorThird(s0: AStarNode, a: AStarNode, b: AStarNode, e: AStarNode, x: AStarNode)
    requires s0.Pos() == Cell(0) && a.Pos() == Cell(1) && b.Pos() == Cell(2) && e.Pos() == Cell(3)
    requires x.Pos() == Cell(-1)
    ensures Advances(Corridor(), EastWest(), CorridorStates(s0, a, b, e)[2], CorridorStates(s0, a, b, e)[3], CorridorSteps(s0, a, b, e, x)[2])
  {
    var w, c, t, k := Corridor(), EastWest(), CorridorStates(s0, a, b, e), CorridorSteps(s0, a, b, e, x)[2];
    CorridorThirdPasses(s0, a, b, e, x);
    assert Ladder(w, Expand(t[2]), b, 2, s0, s0) == Expand(t[2]);
    assert Iterate(w, c, t[2], k) == t[3];
    CorridorFits(t[2], k);
  }


  /** As written, on the corridor: three iterations form a run that puts
      `e`, at the target cell x = 3, at the head of the open set with parent
      `b`, while `a` and `b` are each other's parent and neither is the
      start. The walk of lines 105-108 from `e` goes e, b, a, b, a, ... and
      never meets the start. */
  lemma CorridorCycle(s0: AStarNode, a: AStarNode, b: AStarNode, e: AStarNode, x: AStarNode)
    requires s0.Pos() == Cell(0) && a.Pos() == Cell(1) && b.Pos() == Cell(2) && e.Pos() == Cell(3)
    requires x.Pos() == Cell(-1)
    ensures var t := CorridorStates(s0, a, b, e);
      IsRun(Corridor(), EastWest(), t, CorridorSteps(s0, a, b, e, x)) &&
      t[0] == Initial(s0, NodeState(0, null)) && t[3].queue == [e] &&
      t[3].fields[e].parent == b && t[3].fields[b].parent == a && t[3].fields[a].parent == b &&
      s0 !in {a, b, e}
  {
    var t, k := CorridorStates(s0, a, b, e), CorridorSteps(s0, a, b, e, x);
    forall i | 0 <= i < 3
      ensures Advances(Corridor(), EastWest(), t[i], t[i + 1], k[i])
    {
      if i == 0 {
        CorridorFirst(s0, a, b, e, x);
      } else if i == 1 {
        CorridorSecond(s0, a, b, e, x);
      } else {
        CorridorThird(s0, a, b, e, x);
      }
    }
    assert s0 != a && s0 != b && s0 != e;
  }

  /** The property the relaxation evidently intends: every parent link
      points at a closed node whose cost is strictly lower. */
  ghost predicate Descending(s: SearchState)
  {
    forall n :: n in s.fields && s.fields[n].parent != null ==>
      s.fields[n].parent in s.closed && s.fields[n].parent in s.fields &&
      s.fields[s.fields[n].parent].g < s.fields[n].g
  }

  /** The start node without a parent is a descending state. */
  lemma InitialDescending(start: AStarNode, g: int)
    ensures Descending(Initial(start, NodeState(g, null)))
  {
  }

  /** One pass of getNextCandidates with the closed relaxation evidently
      intended: a closed node is re-parented only when the route through
      `parent` is strictly cheaper than its own cost; queued nodes are
      updated and new nodes queued as written. */
  function CheckedPass(w: World, s: SearchState, parent: AStarNode, g0: int, off: Offset, m: AStarNode): (r: SearchState)
    ensures r == s || r == Pass(w, s, parent, g0, off, m)
  {
    var p := Shift(parent.Pos(), off);
    var t := RelaxTarget(s.closed, s.queue, p);
    var v := NodeState(g0 + Length(off), parent);
    if t != null && HasPos(s.closed, p) then
      if t in s.fields && v.g < s.fields[t].g then Relax(s, t, v) else s
    else Pass(w, s, parent, g0, off, m)
  }

  /** The corrected passes for the moves `c` in order. */
  function CheckedPasses(w: World, s: SearchState, parent: AStarNode, g0: int, c: seq<Offset>, ms: seq<AStarNode>): (r: SearchState)
    requires |ms| == |c|
    ensures r.closed == s.closed
    decreases |c|
  {
    if c == [] then s
    else CheckedPass(w, CheckedPasses(w, s, parent, g0, c[..|c| - 1], ms[..|ms| - 1]), parent, g0, c[|c| - 1], ms[|ms| - 1])
  }

  /** One iteration of getPath with the corrected passes. */
  function CheckedIterate(w: World, c: seq<Offset>, s: SearchState, k: Made): (r: SearchState)
    requires s.queue != [] && s.queue[0] in s.fields && |k.cands| == |c|
    ensures r.closed == s.closed + [s.queue[0]]
  {
    var h := s.queue[0];
    var g0 := s.fields[h].g;
    CheckedPasses(w, Ladder(w, Expand(s), h, g0, k.up, k.down), h, g0, c, k.cands)
  }

  /** Giving `t` the cost and parent `v` keeps costs descending when the
      new parent is closed, at another cell and strictly cheaper, and when
      `t`, if closed, does not get dearer (its children stay dearer). */
  lemma AttachDescends(s: SearchState, t: AStarNode, v: NodeState, q: seq<AStarNode>)
    requires Descending(s)
    requires v.parent != null && v.parent in s.closed && v.parent in s.fields
    requires v.parent.Pos() != t.Pos() && s.fields[v.parent].g < v.g
    requires t in s.closed ==> t in s.fields && v.g <= s.fields[t].g
    ensures Descending(SearchState(q, s.closed, s.fields[t := v]))
  {
  }

  /** The corrected pass keeps costs descending, changes neither the closed
      list nor the cost of the expanded node, and queues only nodes at
      cells the closed list does not hold. */
  lemma CheckedPassDescends(w: World, s: SearchState, parent: AStarNode, g0: int, off: Offset, m: AStarNode)
    requires Descending(s) && parent in s.closed && parent in s.fields && s.fields[parent].g == g0
    requires off != Offset(0, 0, 0) && m.Pos() == Shift(parent.Pos(), off)
    requires forall n :: n in s.queue ==> n !in s.closed
    ensures var r := CheckedPass(w, s, parent, g0, off, m);
      Descending(r) && r.closed == s.closed && parent in r.fields && r.fields[parent].g == g0 &&
      forall n :: n in r.queue ==> n !in r.closed
  {
    var p := Shift(parent.Pos(), off);
    var t := RelaxTarget(s.closed, s.queue, p);
    var v := NodeState(g0 + Length(off), parent);
    assert Length(off) > 0;
    if t != null && HasPos(s.closed, p) {
      if t in s.fields && v.g < s.fields[t].g {
        AttachDescends(s, t, v, s.queue);
      }
    } else if t != null {
      assert t !in s.closed;
      AttachDescends(s, t, v, s.queue);
    } else if w.isViable(p, off.dy) {
      assert m !in s.closed;
      AttachDescends(s, m, v, s.queue + [m]);
    }
  }

  lemma {:induction false} CheckedPassesDescend(w: World, s: SearchState, parent: AStarNode, g0: int, c: seq<Offset>, ms: seq<AStarNode>)
    requires Descending(s) && parent in s.closed && parent in s.fields && s.fields[parent].g == g0
    requires |ms| == |c| && forall k :: 0 <= k < |c| ==> c[k] != Offset(0, 0, 0) && ms[k].Pos() == Shift(parent.Pos(), c[k])
    requires forall n :: n in s.queue ==> n !in s.closed
    ensures var r := CheckedPasses(w, s, parent, g0, c, ms);
      Descending(r) && r.closed == s.closed && parent in r.fields && r.fields[parent].g == g0 &&
      forall n :: n in r.queue ==> n !in r.closed
    decreases |c|
  {
    if c != [] {
      var n := |c| - 1;
      CheckedPassesDescend(w, s, parent, g0, c[..n], ms[..n]);
      CheckedPassDescends(w, CheckedPasses(w, s, parent, g0, c[..n], ms[..n]), parent, g0, c[n], ms[n]);
    }
  }

  /** One ladder block, as written, keeps costs descending: it touches
      only a queued node, or queues a node that is not closed. */
  lemma LadderStepDescends(s: SearchState, node: AStarNode, g0: int, dy: int, m: AStarNode)
    requires Descending(s) && node in s.closed && node in s.fields && s.fields[node].g == g0
    requires dy != 0 && m.Pos() == Shift(node.Pos(), Offset(0, dy, 0)) && m !in s.closed
    requires forall n :: n in s.queue ==> n !in s.closed
    ensures var r := LadderStep(s, node, g0, dy, m);
      Descending(r) && r.closed == s.closed && node in r.fields && r.fields[node].g == g0 &&
      forall n :: n in r.queue ==> n !in r.closed
  {
    var p := Shift(node.Pos(), Offset(0, dy, 0));
    var v := NodeState(g0 + 1, node);
    if HasPos(s.queue, p) {
      var t := s.queue[IndexOfPos(s.queue, p)];
      AttachDescends(s, t, v, s.queue);
    } else {
      AttachDescends(s, m, v, s.queue + [m]);
    }
  }

  /** The corrected iteration keeps costs descending, given new ladder
      candidates and a move table without the empty move. */
  lemma CheckedIterateDescends(w: World, c: seq<Offset>, s: SearchState, seed: AStarNode, k: Made)
    requires ValidState(s, seed) && Descending(s) && s.queue != [] && Fits(w, c, s, k)
    requires forall i :: 0 <= i < |c| ==> c[i] != Offset(0, 0, 0)
    ensures Descending(CheckedIterate(w, c, s, k))
  {
    var h := s.queue[0];
    var g0 := s.fields[h].g;
    var e := Expand(s);
    ExpandValid(s, seed);
    assert forall n :: n in e.queue ==> n !in e.closed;
    var l := e;
    if w.isLadder(h.Pos()) {
      LadderStepDescends(e, h, g0, 1, k.up);
      var l1 := LadderStep(e, h, g0, 1, k.up);
      LadderStepDescends(l1, h, g0, -1, k.down);
      l := LadderStep(l1, h, g0, -1, k.down);
    }
    assert l == Ladder(w, e, h, g0, k.up, k.down);
    CheckedPassesDescend(w, l, h, g0, c, k.cands);
  }

  /** In a descending state, costs fall strictly along a parent walk. */
  lemma {:induction false} WalkCostFalls(s: SearchState, wk: seq<AStarNode>, i: nat, j: nat)
    requires Descending(s) && |wk| >= 1 && wk[0] in s.fields
    requires forall k :: 0 <= k < |wk| - 1 ==> wk[k] in s.fields && s.fields[wk[k]].parent == wk[k + 1]
    requires i < j < |wk|
    ensures wk[i] in s.fields && wk[j] in s.fields && s.fields[wk[j]].g < s.fields[wk[i]].g
    decreases j
  {
    if j > i + 1 {
      WalkCostFalls(s, wk, i, j - 1);
    }
  }

  /** In a descending state, a parent walk repeats no node and is at most
      one longer than the closed list: the walk of lines 105-108 ends. */
  lemma DescendingWalkShort(s: SearchState, wk: seq<AStarNode>)
    requires Descending(s) && |wk| >= 1 && wk[0] in s.fields
    requires forall k :: 0 <= k < |wk| - 1 ==> wk[k] in s.fields && s.fields[wk[k]].parent == wk[k + 1]
    ensures forall i, j :: 0 <= i < j < |wk| ==> wk[i] != wk[j]
    ensures |wk| <= |s.closed| + 1
  {
    forall i, j | 0 <= i < j < |wk|
      ensures wk[i] != wk[j]
    {
      WalkCostFalls(s, wk, i, j);
    }
    if |wk| > |s.closed| + 1 {
      forall i | 1 <= i < |wk|
        ensures wk[i] in s.closed
      {
        assert wk[i - 1] in s.fields && s.fields[wk[i - 1]].parent == wk[i];
      }
      LongWalkRepeats(wk, s.closed);
    }
  }

  // ---------------------------------------------------------------------
  // Runs of the corrected search

  /** The corrected pass keeps the invariant of a search: it does what the
      pass as written does, or nothing. */
  lemma CheckedPassValid(w: World, s: SearchState, seed: AStarNode, parent: AStarNode, g0: int, off: Offset, m: AStarNode)
    requires ValidState(s, seed) && parent in s.closed
    requires m.Pos() == Shift(parent.Pos(), off)
    ensures ValidState(CheckedPass(w, s, parent, g0, off, m), seed)
  {
    var p := Shift(parent.Pos(), off);
    var t := RelaxTarget(s.closed, s.queue, p);
    var v := NodeState(g0 + Length(off), parent);
    if t != null && HasPos(s.closed, p) {
      if t in s.fields && v.g < s.fields[t].g {
        RelaxValid(s, seed, t, v);
      }
    } else {
      PassValid(w, s, seed, parent, g0, off, m);
      PassQueue(w, s, parent, g0, off, m);
    }
  }

  lemma {:induction false} CheckedPassesValid(w: World, s: SearchState, seed: AStarNode, parent: AStarNode, g0: int, c: seq<Offset>, ms: seq<AStarNode>)
    requires ValidState(s, seed) && parent in s.closed && |ms| == |c|
    requires forall k :: 0 <= k < |c| ==> ms[k].Pos() == Shift(parent.Pos(), c[k])
    ensures ValidState(CheckedPasses(w, s, parent, g0, c, ms), seed)
    decreases |c|
  {
    if c != [] {
      var n := |c| - 1;
      CheckedPassesValid(w, s, seed, parent, g0, c[..n], ms[..n]);
      CheckedPassValid(w, CheckedPasses(w, s, parent, g0, c[..n], ms[..n]), seed, parent, g0, c[n], ms[n]);
    }
  }

  /** An iteration with the corrected passes keeps the invariant. */
  lemma CheckedIterateValid(w: World, c: seq<Offset>, s: SearchState, seed: AStarNode, k: Made)
    requires ValidState(s, seed) && s.queue != [] && Fits(w, c, s, k)
    ensures ValidState(CheckedIterate(w, c, s, k), seed)
  {
    var h := s.queue[0];
    var g0 := s.fields[h].g;
    ExpandValid(s, seed);
    var e := Expand(s);
    LadderValid(w, e, seed, h, g0, k.up, k.down);
    CheckedPassesValid(w, Ladder(w, e, h, g0, k.up, k.down), seed, h, g0, c, k.cands);
  }

  /** `s'` follows `s` by one corrected iteration creating the nodes `k`. */
  predicate CheckedAdvances(w: World, c: seq<Offset>, s: SearchState, s': SearchState, k: Made)
  {
    s.queue != [] && s.queue[0] in s.fields && Fits(w, c, s, k) && s' == CheckedIterate(w, c, s, k)
  }

  /** `trace` is a run of the corrected search. */
  predicate IsCheckedRun(w: World, c: seq<Offset>, trace: seq<SearchState>, steps: seq<Made>)
  {
    |trace| == |steps| + 1 &&
    forall i :: 0 <= i < |steps| ==> CheckedAdvances(w, c, trace[i], trace[i + 1], steps[i])
  }

  /** A corrected run without its last iteration is a corrected run. */
  lemma CheckedRunPrefix(w: World, c: seq<Offset>, trace: seq<SearchState>, steps: seq<Made>)
    requires IsCheckedRun(w, c, trace, steps) && steps != []
    ensures IsCheckedRun(w, c, trace[..|steps|], steps[..|steps| - 1])
  {
    var n := |steps| - 1;
    forall i | 0 <= i < n
      ensures CheckedAdvances(w, c, trace[..n + 1][i], trace[..n + 1][i + 1], steps[..n][i])
    {
      assert CheckedAdvances(w, c, trace[i], trace[i + 1], steps[i]);
    }
  }

  /** Every state of a corrected run from the start without a parent, over
      a move table without the empty move, keeps the invariant of a search
      and has costs falling along parent links. */
  lemma {:induction false} CheckedRunDescends(w: World, c: seq<Offset>, trace: seq<SearchState>, steps: seq<Made>, seed: AStarNode, g: int)
    requires IsCheckedRun(w, c, trace, steps) && trace[0] == Initial(seed, NodeState(g, null))
    requires forall i :: 0 <= i < |c| ==> c[i] != Offset(0, 0, 0)
    ensures ValidState(trace[|trace| - 1], seed) && Descending(trace[|trace| - 1])
    decreases |steps|
  {
    if steps == [] {
      InitialDescending(seed, g);
    } else {
      var n := |steps| - 1;
      CheckedRunPrefix(w, c, trace, steps);
      CheckedRunDescends(w, c, trace[..n + 1], steps[..n], seed, g);
      assert CheckedAdvances(w, c, trace[n], trace[n + 1], steps[n]);
      CheckedIterateValid(w, c, trace[n], seed, steps[n]);
      CheckedIterateDescends(w, c, trace[n], seed, steps[n]);
    }
  }

  /** `wk` follows parent links from its first node, passing the start only
      at its end. */
  ghost predicate ParentChain(s: SearchState, seed: AStarNode, wk: seq<AStarNode>)
  {
    |wk| >= 1 && wk[0] in s.fields &&
    forall i :: 0 <= i < |wk| - 1 ==> wk[i] != seed && wk[i] in s.fields && s.fields[wk[i]].parent == wk[i + 1]
  }

  /** A chain in a valid, descending state extends until it reaches the
      start, within one more node than the closed list holds. */
  lemma {:induction false} ChainReachesStart(s: SearchState, seed: AStarNode, wk: seq<AStarNode>)
    requires ValidState(s, seed) && Descending(s) && ParentChain(s, seed, wk)
    ensures exists r :: ParentChain(s, seed, r) && r[0] == wk[0] && r[|r| - 1] == seed && |r| <= |s.closed| + 1
    decreases |s.closed| + 1 - |wk|
  {
    DescendingWalkShort(s, wk);
    var last := wk[|wk| - 1];
    if last == seed {
      assert ParentChain(s, seed, wk);
    } else {
      assert last in s.fields by {
        if |wk| > 1 {
          assert s.fields[wk[|wk| - 2]].parent == last;
        }
      }
      var p := s.fields[last].parent;
      var wk' := wk + [p];
      assert ParentChain(s, seed, wk') by {
        forall i | 0 <= i < |wk'| - 1
          ensures wk'[i] != seed && wk'[i] in s.fields && s.fields[wk'[i]].parent == wk'[i + 1]
        {
          if i < |wk| - 1 {
            assert wk'[i] == wk[i] && wk'[i + 1] == wk[i + 1];
          }
        }
      }
      DescendingWalkShort(s, wk');
      ChainReachesStart(s, seed, wk');
    }
  }

  /** With the corrected relaxation, from a start without a parent and over
      a move table without the empty move, once a run has reached any state, the
      walk of lines 105-108 from the head of the open set (the node found
      at the target) reaches the start, and takes at most one more node
      than the closed list holds. */
  lemma CheckedRunWalkEnds(w: World, c: seq<Offset>, trace: seq<SearchState>, steps: seq<Made>, seed: AStarNode, g: int)
    requires IsCheckedRun(w, c, trace, steps) && trace[0] == Initial(seed, NodeState(g, null))
    requires forall i :: 0 <= i < |c| ==> c[i] != Offset(0, 0, 0)
    requires trace[|trace| - 1].queue != []
    ensures var s := trace[|trace| - 1];
      exists r :: ParentChain(s, seed, r) && r[0] == s.queue[0] && r[|r| - 1] == seed && |r| <= |s.closed| + 1
  {
    var s := trace[|trace| - 1];
    CheckedRunDescends(w, c, trace, steps, seed, g);
    ChainReachesStart(s, seed, [s.queue[0]]);
  }
}
