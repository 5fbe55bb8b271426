/** The search state as a value: the open set, the closed list and the cost
    and parent of every node either holds, and the steps of the search as
    functions from one such state to the next. The worker's methods are
    proved to move their state exactly as these functions say; what the
    search guarantees is proved here, about the functions. */
module Search {
  import opened Grid
  import opened Nodes

  /** The terrain oracle. `isLadder` says whether a cell holds a climbable
      block; `isViable` whether a candidate cell may be entered by a move
      whose vertical component is the given number of blocks. */
  datatype World = World(isLadder: Coord -> bool, isViable: (Coord, int) -> bool)

  /** The mutable part of a node: its cost and its parent. */
  datatype NodeState = NodeState(g: int, parent: AStarNode?)

  /** queue: the open set, head first; closed: the closed list in expansion
      order; fields: cost and parent of each node the two hold. */
  datatype SearchState = SearchState(queue: seq<AStarNode>, closed: seq<AStarNode>, fields: map<AStarNode, NodeState>)

  /** The nodes created by one expansion: the two ladder candidates (used
      only when the expanded cell is a ladder) and one candidate per entry
      of the move table. */
  datatype Made = Made(up: AStarNode, down: AStarNode, cands: seq<AStarNode>)

  /** Outcome of getPath. `Found` carries the path, target first; `NoPath`
      stands for the null result; `Diverges` carries a prefix of the parent
      walk of lines 105-108 that repeats a node without having met the
      start, after which the walk goes round for ever. */
  datatype PathResult = Found(path: seq<AStarNode>) | NoPath | Diverges(walk: seq<AStarNode>)

  /** The state right after line 84 on an empty worker: only `start`,
      with cost and parent `v`, is queued. */
  function Initial(start: AStarNode, v: NodeState): (r: SearchState)
    ensures ValidState(r, start)
  {
    SearchState([start], [], map[start := v])
  }

  /** What every state of one search keeps, `seed` being its start node:
      the open set holds each cell once, no node is both open and closed,
      `fields` describes exactly the open and closed nodes, and every node
      but the start has a parent, and that parent is closed. */
  predicate ValidState(s: SearchState, seed: AStarNode)
  {
    DistinctPos(s.queue) &&
    (forall n :: n in s.queue ==> n !in s.closed && n in s.fields) &&
    (forall n :: n in s.closed ==> n in s.fields) &&
    (forall n :: n in s.fields ==> n in s.queue || n in s.closed) &&
    (forall n :: n in s.fields && n != seed ==>
      s.fields[n].parent != null && s.fields[n].parent in s.closed)
  }

  /** Line 90: the head of the open set moves to the end of the closed
      list. */
  function Expand(s: SearchState): (r: SearchState)
    requires s.queue != []
    ensures r.fields == s.fields
  {
    SearchState(s.queue[1..], s.closed + [s.queue[0]], s.fields)
  }

  /** Node `t` takes cost and parent `v` (setG). */
  function Relax(s: SearchState, t: AStarNode, v: NodeState): (r: SearchState)
    ensures r.queue == s.queue && r.closed == s.closed
    ensures t in r.fields && r.fields[t] == v
    ensures forall n :: n in s.fields && n != t ==> n in r.fields && r.fields[n] == s.fields[n]
  {
    s.(fields := s.fields[t := v])
  }

  /** Node `m`, with cost and parent `v`, joins the back of the open set
      (addToBinaryHeap). */
  function Offer(s: SearchState, m: AStarNode, v: NodeState): (r: SearchState)
    ensures r.closed == s.closed && |r.queue| == |s.queue| + 1
    ensures r.queue[..|s.queue|] == s.queue && r.queue[|s.queue|] == m
    ensures m in r.fields && r.fields[m] == v
  {
    s.(queue := s.queue + [m], fields := s.fields[m := v])
  }

  /** The node a candidate for cell `p` relaxes: the first closed node at
      `p` if there is one, otherwise the first queued node at `p`; none
      when neither list holds `p`. */
  function RelaxTarget(closed: seq<AStarNode>, open: seq<AStarNode>, p: Coord): (t: AStarNode?)
    ensures t == null <==> !HasPos(closed, p) && !HasPos(open, p)
    ensures t != null && HasPos(closed, p) ==> IsFirstMatch(t, closed, p)
    ensures t != null && !HasPos(closed, p) ==> IsFirstMatch(t, open, p)
  {
    if HasPos(closed, p) then closed[IndexOfPos(closed, p)]
    else if HasPos(open, p) then open[IndexOfPos(open, p)]
    else null
  }

  /** One pass of the loop of getNextCandidates for move `off` out of
      `parent`, whose cost is `g0`; `m` is the candidate node the pass
      creates, costing `g0` plus the move. */
  function Pass(w: World, s: SearchState, parent: AStarNode, g0: int, off: Offset, m: AStarNode): (r: SearchState)
    ensures r.closed == s.closed
    ensures r.queue == s.queue || r.queue == s.queue + [m]
  {
    var p := Shift(parent.Pos(), off);
    var t := RelaxTarget(s.closed, s.queue, p);
    if t != null then Relax(s, t, NodeState(g0 + Length(off), parent))
    else if w.isViable(p, off.dy) then Offer(s, m, NodeState(g0 + Length(off), parent))
    else s
  }

  /** The passes of getNextCandidates for the moves `c` in order, the pass
      for `c[k]` creating node `ms[k]`. */
  function Passes(w: World, s: SearchState, parent: AStarNode, g0: int, c: seq<Offset>, ms: seq<AStarNode>): (r: SearchState)
    requires |ms| == |c|
    ensures r.closed == s.closed
    decreases |c|
  {
    if c == [] then s
    else Pass(w, Passes(w, s, parent, g0, c[..|c| - 1], ms[..|ms| - 1]), parent, g0, c[|c| - 1], ms[|ms| - 1])
  }

  /** One block of checkPossibleLadder: the candidate `m` for the cell `dy`
      blocks above `node` relaxes the first queued node at that cell or is
      queued. The closed list is not consulted and the terrain is not
      asked. */
  function LadderStep(s: SearchState, node: AStarNode, g0: int, dy: int, m: AStarNode): (r: SearchState)
    ensures r.closed == s.closed
    ensures r.queue == s.queue || r.queue == s.queue + [m]
  {
    var p := Shift(node.Pos(), Offset(0, dy, 0));
    var v := NodeState(g0 + 1, node);
    if HasPos(s.queue, p) then Relax(s, s.queue[IndexOfPos(s.queue, p)], v)
    else Offer(s, m, v)
  }

  /** checkPossibleLadder as written: on a ladder cell both the cell above
      and the cell below are processed, whatever they hold, because each
      guarding `if` ends in an empty statement. */
  function Ladder(w: World, s: SearchState, node: AStarNode, g0: int, up: AStarNode, down: AStarNode): (r: SearchState)
    ensures r.closed == s.closed
  {
    if !w.isLadder(node.Pos()) then s
    else LadderStep(LadderStep(s, node, g0, 1, up), node, g0, -1, down)
  }

  /** One block of checkPossibleLadder as its guard evidently intends: the
      cell `dy` blocks above `node` is processed only when it holds a
      ladder. */
  function GuardedStep(w: World, s: SearchState, node: AStarNode, g0: int, dy: int, m: AStarNode): (r: SearchState)
    ensures r.closed == s.closed
    ensures r.queue == s.queue || r.queue == s.queue + [m]
  {
    if w.isLadder(Shift(node.Pos(), Offset(0, dy, 0))) then LadderStep(s, node, g0, dy, m) else s
  }

  /** checkPossibleLadder as its guards evidently intend: the cell above
      (below) is processed only when it holds a ladder too. */
  function GuardedLadder(w: World, s: SearchState, node: AStarNode, g0: int, up: AStarNode, down: AStarNode): (r: SearchState)
    ensures r.closed == s.closed
  {
    if !w.isLadder(node.Pos()) then s
    else GuardedStep(w, GuardedStep(w, s, node, g0, 1, up), node, g0, -1, down)
  }

  /** One iteration of the loop of getPath (lines 90-93): expand the head
      of the open set, then run the ladder step and the passes of the move
      table `c` out of it, at the cost the head has when expanded. */
  function Iterate(w: World, c: seq<Offset>, s: SearchState, k: Made): (r: SearchState)
    requires s.queue != [] && s.queue[0] in s.fields && |k.cands| == |c|
    ensures r.closed == s.closed + [s.queue[0]]
  {
    var h := s.queue[0];
    var g0 := s.fields[h].g;
    Passes(w, Ladder(w, Expand(s), h, g0, k.up, k.down), h, g0, c, k.cands)
  }

  /** The nodes `k` fit an iteration from `s` over the move table `c`: one
      candidate per move, at its move from the head; on a ladder cell the
      two ladder candidates sit above and below the head and are new to
      the search. */
  predicate Fits(w: World, c: seq<Offset>, s: SearchState, k: Made)
    requires s.queue != []
  {
    var h := s.queue[0];
    |k.cands| == |c| &&
    (forall i :: 0 <= i < |c| ==> k.cands[i].Pos() == Shift(h.Pos(), c[i])) &&
    (w.isLadder(h.Pos()) ==>
      k.up !in s.fields && k.down !in s.fields &&
      k.up.Pos() == Shift(h.Pos(), Offset(0, 1, 0)) &&
      k.down.Pos() == Shift(h.Pos(), Offset(0, -1, 0)))
  }

  /** `s'` follows `s` by one iteration creating the nodes `k`. */
  predicate Advances(w: World, c: seq<Offset>, s: SearchState, s': SearchState, k: Made)
  {
    s.queue != [] && s.queue[0] in s.fields && Fits(w, c, s, k) && s' == Iterate(w, c, s, k)
  }

  /** `trace` is a run of the search: each state follows the one before it
      by an iteration creating the nodes recorded in `steps`. */
  predicate IsRun(w: World, c: seq<Offset>, trace: seq<SearchState>, steps: seq<Made>)
  {
    |trace| == |steps| + 1 &&
    forall i :: 0 <= i < |steps| ==> Advances(w, c, trace[i], trace[i + 1], steps[i])
  }

  /** Every state of `trace` but the last is one the loop at lines 89-101
      goes on from: its open set is not empty, its head is not at the target
      `e`, and no more than `budget` nodes have been expanded. */
  predicate GoesOn(trace: seq<SearchState>, e: Coord, budget: int)
  {
    forall i :: 0 <= i < |trace| - 1 ==>
      trace[i].queue != [] && trace[i].queue[0].Pos() != e && |trace[i].closed| <= budget
  }

  /** A run extended by one more iteration is a run. */
  lemma RunExtend(w: World, c: seq<Offset>, trace: seq<SearchState>, steps: seq<Made>, s: SearchState, k: Made)
    requires IsRun(w, c, trace, steps) && Advances(w, c, trace[|trace| - 1], s, k)
    ensures IsRun(w, c, trace + [s], steps + [k])
  {
  }

  // ---------------------------------------------------------------------
  // The invariant of a search

  lemma RelaxValid(s: SearchState, seed: AStarNode, t: AStarNode, v: NodeState)
    requires ValidState(s, seed) && t in s.fields
    requires v.parent != null && v.parent in s.closed
    ensures ValidState(Relax(s, t, v), seed)
  {
  }

  lemma OfferValid(s: SearchState, seed: AStarNode, m: AStarNode, v: NodeState)
    requires ValidState(s, seed) && m !in s.fields && !HasPos(s.queue, m.Pos())
    requires v.parent != null && v.parent in s.closed
    ensures ValidState(Offer(s, m, v), seed)
  {
    var q := s.queue + [m];
    forall i, j | 0 <= i < j < |q|
      ensures q[i].Pos() != q[j].Pos()
    {
      if j == |q| - 1 {
        assert q[i] in s.queue;
      }
    }
  }

  /** Moving the head to the closed list keeps the invariant. */
  lemma ExpandValid(s: SearchState, seed: AStarNode)
    requires ValidState(s, seed) && s.queue != []
    ensures ValidState(Expand(s), seed)
    ensures s.queue[0] in Expand(s).closed && s.queue[0] !in Expand(s).queue
  {
    var r := Expand(s);
    forall n | n in r.queue
      ensures n != s.queue[0]
    {
      var i :| 0 <= i < |r.queue| && r.queue[i] == n;
      assert s.queue[i + 1] == n;
    }
  }

  lemma LadderStepValid(s: SearchState, seed: AStarNode, node: AStarNode, g0: int, dy: int, m: AStarNode)
    requires ValidState(s, seed) && node in s.closed && m !in s.fields
    requires m.Pos() == Shift(node.Pos(), Offset(0, dy, 0))
    ensures ValidState(LadderStep(s, node, g0, dy, m), seed)
    ensures LadderStep(s, node, g0, dy, m).closed == s.closed
  {
    var p := Shift(node.Pos(), Offset(0, dy, 0));
    if HasPos(s.queue, p) {
      RelaxValid(s, seed, s.queue[IndexOfPos(s.queue, p)], NodeState(g0 + 1, node));
    } else {
      OfferValid(s, seed, m, NodeState(g0 + 1, node));
    }
  }

  /** The ladder step keeps the invariant, given two nodes the search has
      not seen. */
  lemma LadderValid(w: World, s: SearchState, seed: AStarNode, node: AStarNode, g0: int, up: AStarNode, down: AStarNode)
    requires ValidState(s, seed) && node in s.closed
    requires w.isLadder(node.Pos()) ==>
      up !in s.fields && down !in s.fields &&
      up.Pos() == Shift(node.Pos(), Offset(0, 1, 0)) &&
      down.Pos() == Shift(node.Pos(), Offset(0, -1, 0))
    ensures ValidState(Ladder(w, s, node, g0, up, down), seed)
  {
    if w.isLadder(node.Pos()) {
      LadderStepValid(s, seed, node, g0, 1, up);
      var s1 := LadderStep(s, node, g0, 1, up);
      assert down != up by { assert down.Pos() != up.Pos(); }
      LadderStepValid(s1, seed, node, g0, -1, down);
    }
  }

  /** A pass keeps the invariant whatever node it creates, since it queues
      that node only for a cell neither list holds. */
  lemma PassValid(w: World, s: SearchState, seed: AStarNode, parent: AStarNode, g0: int, off: Offset, m: AStarNode)
    requires ValidState(s, seed) && parent in s.closed
    requires m.Pos() == Shift(parent.Pos(), off)
    ensures ValidState(Pass(w, s, parent, g0, off, m), seed)
  {
    var p := Shift(parent.Pos(), off);
    var t := RelaxTarget(s.closed, s.queue, p);
    var v := NodeState(g0 + Length(off), parent);
    if t != null {
      RelaxValid(s, seed, t, v);
    } else if w.isViable(p, off.dy) {
      OfferValid(s, seed, m, v);
    }
  }

  lemma {:induction false} PassesValid(w: World, s: SearchState, seed: AStarNode, parent: AStarNode, g0: int, c: seq<Offset>, ms: seq<AStarNode>)
    requires ValidState(s, seed) && parent in s.closed && |ms| == |c|
    requires forall k :: 0 <= k < |c| ==> ms[k].Pos() == Shift(parent.Pos(), c[k])
    ensures ValidState(Passes(w, s, parent, g0, c, ms), seed)
    ensures Passes(w, s, parent, g0, c, ms).closed == s.closed
    decreases |c|
  {
    if c != [] {
      var n := |c| - 1;
      PassesValid(w, s, seed, parent, g0, c[..n], ms[..n]);
      PassValid(w, Passes(w, s, parent, g0, c[..n], ms[..n]), seed, parent, g0, c[n], ms[n]);
    }
  }

  /** Each iteration of getPath keeps the invariant, given that the nodes
      it creates are new to the search. */
  lemma IterateValid(w: World, c: seq<Offset>, s: SearchState, seed: AStarNode, k: Made)
    requires ValidState(s, seed) && s.queue != [] && Fits(w, c, s, k)
    ensures ValidState(Iterate(w, c, s, k), seed)
  {
    var h := s.queue[0];
    var g0 := s.fields[h].g;
    ExpandValid(s, seed);
    var e := Expand(s);
    LadderValid(w, e, seed, h, g0, k.up, k.down);
    PassesValid(w, Ladder(w, e, h, g0, k.up, k.down), seed, h, g0, c, k.cands);
  }

  /** Every state of a run from a seeded open set keeps the invariant. */
  lemma {:induction false} RunValid(w: World, c: seq<Offset>, trace: seq<SearchState>, steps: seq<Made>, seed: AStarNode, v: NodeState)
    requires IsRun(w, c, trace, steps) && trace[0] == Initial(seed, v)
    ensures ValidState(trace[|trace| - 1], seed)
    decreases |steps|
  {
    if steps == [] {
    } else {
      var n := |steps| - 1;
      assert IsRun(w, c, trace[..n + 1], steps[..n]) by {
        forall i | 0 <= i < n
          ensures Advances(w, c, trace[..n + 1][i], trace[..n + 1][i + 1], steps[..n][i])
        {
          assert Advances(w, c, trace[i], trace[i + 1], steps[i]);
        }
      }
      RunValid(w, c, trace[..n + 1], steps[..n], seed, v);
      assert Advances(w, c, trace[n], trace[n + 1], steps[n]);
      IterateValid(w, c, trace[n], seed, steps[n]);
    }
  }

  /** An iteration adds to the open set only nodes it created: the ladder
      candidates when the expanded cell is a ladder, and move candidates. */
  lemma IterateQueueFrom(w: World, c: seq<Offset>, s: SearchState, k: Made)
    requires s.queue != [] && s.queue[0] in s.fields && Fits(w, c, s, k)
    ensures var r := Iterate(w, c, s, k);
      forall j :: 0 <= j < |r.queue| ==>
        r.queue[j] in s.queue || r.queue[j] in k.cands ||
        (w.isLadder(s.queue[0].Pos()) && (r.queue[j] == k.up || r.queue[j] == k.down))
  {
    var h := s.queue[0];
    var g0 := s.fields[h].g;
    var e := Expand(s);
    var l := Ladder(w, e, h, g0, k.up, k.down);
    var r := Passes(w, l, h, g0, c, k.cands);
    if w.isLadder(h.Pos()) {
      LadderQueues(w, e, h, g0, k.up, k.down);
    }
    PassesQueueGrows(w, l, h, g0, c, k.cands);
    PassesQueueGained(w, l, h, g0, c, k.cands);
    forall j | 0 <= j < |r.queue|
      ensures r.queue[j] in s.queue || r.queue[j] in k.cands ||
        (w.isLadder(h.Pos()) && (r.queue[j] == k.up || r.queue[j] == k.down))
    {
      if j < |l.queue| {
        assert r.queue[j] == l.queue[j];
        if j < |e.queue| {
          assert l.queue[j] == e.queue[j] == s.queue[j + 1];
        }
      } else {
        var i :| 0 <= i < |c| && r.queue[j] == k.cands[i] && w.isViable(Shift(h.Pos(), c[i]), c[i].dy);
      }
    }
  }

  // ---------------------------------------------------------------------
  // getNextCandidates

  /** One pass queues its candidate exactly when the cell is neither closed
      nor queued and the terrain admits the move; otherwise the open set
      stays as it is. */
  lemma PassQueue(w: World, s: SearchState, parent: AStarNode, g0: int, off: Offset, m: AStarNode)
    ensures var p := Shift(parent.Pos(), off);
      var r := Pass(w, s, parent, g0, off, m);
      r.closed == s.closed &&
      (r.queue == s.queue + [m] <==> !HasPos(s.closed, p) && !HasPos(s.queue, p) && w.isViable(p, off.dy)) &&
      (r.queue == s.queue || r.queue == s.queue + [m])
  {
    var r := Pass(w, s, parent, g0, off, m);
    assert r.queue == s.queue ==> r.queue != s.queue + [m] by {
      assert |s.queue + [m]| == |s.queue| + 1;
    }
  }

  /** A candidate for a closed cell changes only the first closed node at
      that cell: its parent becomes `parent` and its cost becomes the
      candidate's cost, `g0` plus the length of the move. */
  lemma PassRelaxesClosed(w: World, s: SearchState, parent: AStarNode, g0: int, off: Offset, m: AStarNode)
    requires HasPos(s.closed, Shift(parent.Pos(), off))
    ensures var p := Shift(parent.Pos(), off);
      var t := s.closed[IndexOfPos(s.closed, p)];
      var r := Pass(w, s, parent, g0, off, m);
      r.queue == s.queue && r.closed == s.closed &&
      r.fields == s.fields[t := NodeState(g0 + Manhattan(parent.Pos(), p), parent)]
  {
    ManhattanOfShift(parent.Pos(), off);
  }

  /** The open set only grows at its back during getNextCandidates, by at
      most one node per move. */
  lemma {:induction false} PassesQueueGrows(w: World, s: SearchState, parent: AStarNode, g0: int, c: seq<Offset>, ms: seq<AStarNode>)
    requires |ms| == |c|
    ensures var r := Passes(w, s, parent, g0, c, ms);
      |s.queue| <= |r.queue| <= |s.queue| + |c| && r.queue[..|s.queue|] == s.queue
    decreases |c|
  {
    if c != [] {
      var n := |c| - 1;
      var s1 := Passes(w, s, parent, g0, c[..n], ms[..n]);
      PassesQueueGrows(w, s, parent, g0, c[..n], ms[..n]);
      PassQueue(w, s1, parent, g0, c[n], ms[n]);
      var r := Pass(w, s1, parent, g0, c[n], ms[n]);
      assert r.queue[..|s1.queue|] == s1.queue;
      assert r.queue[..|s.queue|] == s1.queue[..|s.queue|];
    }
  }

  /** Each node the open set gains during getNextCandidates is the
      candidate of a move the terrain admits. */
  lemma {:induction false} PassesQueueGained(w: World, s: SearchState, parent: AStarNode, g0: int, c: seq<Offset>, ms: seq<AStarNode>)
    requires |ms| == |c|
    ensures forall j :: |s.queue| <= j < |Passes(w, s, parent, g0, c, ms).queue| ==>
      exists k :: 0 <= k < |c| && Passes(w, s, parent, g0, c, ms).queue[j] == ms[k] &&
        w.isViable(Shift(parent.Pos(), c[k]), c[k].dy)
    decreases |c|
  {
    if c != [] {
      var n := |c| - 1;
      var s1 := Passes(w, s, parent, g0, c[..n], ms[..n]);
      PassesQueueGained(w, s, parent, g0, c[..n], ms[..n]);
      PassQueue(w, s1, parent, g0, c[n], ms[n]);
      var r := Pass(w, s1, parent, g0, c[n], ms[n]);
      forall j | |s.queue| <= j < |r.queue|
        ensures exists k :: 0 <= k < |c| && r.queue[j] == ms[k] && w.isViable(Shift(parent.Pos(), c[k]), c[k].dy)
      {
        if j < |s1.queue| {
          assert r.queue[j] == s1.queue[j];
          var k :| 0 <= k < n && s1.queue[j] == ms[..n][k] && w.isViable(Shift(parent.Pos(), c[..n][k]), c[..n][k].dy);
          assert ms[..n][k] == ms[k] && c[..n][k] == c[k];
        } else {
          assert r.queue[j] == ms[n];
        }
      }
    } else {
      assert Passes(w, s, parent, g0, c, ms) == s;
    }
  }

  /** Going from `s` to `r`, every node keeps its cost and parent or is
      re-parented to `parent` at the cost of `parent` plus the distance
      between the two cells, and every node gained is of the second kind. */
  ghost predicate Reparented(s: SearchState, r: SearchState, parent: AStarNode, g0: int)
  {
    (forall n :: n in s.fields ==>
      (n in r.fields &&
       (r.fields[n] == s.fields[n] ||
        r.fields[n] == NodeState(g0 + Manhattan(parent.Pos(), n.Pos()), parent)))) &&
    (forall n :: n in r.fields && n !in s.fields ==>
      r.fields[n] == NodeState(g0 + Manhattan(parent.Pos(), n.Pos()), parent))
  }

  lemma ReparentedTrans(s: SearchState, s1: SearchState, r: SearchState, parent: AStarNode, g0: int)
    requires Reparented(s, s1, parent, g0) && Reparented(s1, r, parent, g0)
    ensures Reparented(s, r, parent, g0)
  {
  }

  /** One pass of getNextCandidates re-parents at most the node it relaxes
      or queues. */
  lemma PassFields(w: World, s: SearchState, parent: AStarNode, g0: int, off: Offset, m: AStarNode)
    requires m.Pos() == Shift(parent.Pos(), off)
    ensures Reparented(s, Pass(w, s, parent, g0, off, m), parent, g0)
    ensures var r := Pass(w, s, parent, g0, off, m);
      r.fields == s.fields || exists t :: t in r.fields && r.fields == s.fields[t := NodeState(g0 + Length(off), parent)]
  {
    var p := Shift(parent.Pos(), off);
    var t := RelaxTarget(s.closed, s.queue, p);
    ManhattanOfShift(parent.Pos(), off);
    if t != null {
      assert t.Pos() == p;
    }
  }

  /** After getNextCandidates every node the search holds either keeps its
      cost and parent or has been re-parented to `parent` at the cost of
      `parent` plus the distance between the two cells; the nodes it gains
      are all of the second kind. */
  lemma {:induction false} PassesFields(w: World, s: SearchState, parent: AStarNode, g0: int, c: seq<Offset>, ms: seq<AStarNode>)
    requires |ms| == |c|
    requires forall k :: 0 <= k < |c| ==> ms[k].Pos() == Shift(parent.Pos(), c[k])
    ensures Reparented(s, Passes(w, s, parent, g0, c, ms), parent, g0)
    decreases |c|
  {
    if c != [] {
      var n := |c| - 1;
      PassesFields(w, s, parent, g0, c[..n], ms[..n]);
      var s1 := Passes(w, s, parent, g0, c[..n], ms[..n]);
      PassFields(w, s1, parent, g0, c[n], ms[n]);
      ReparentedTrans(s, s1, Passes(w, s, parent, g0, c, ms), parent, g0);
    }
  }

  // ---------------------------------------------------------------------
  // checkPossibleLadder

  /** One block of the ladder step leaves the closed list alone and
      leaves its cell queued, by adding `m` at the back if the cell was not
      queued already. */
  lemma LadderStepQueue(s: SearchState, node: AStarNode, g0: int, dy: int, m: AStarNode)
    requires m.Pos() == Shift(node.Pos(), Offset(0, dy, 0))
    ensures var r := LadderStep(s, node, g0, dy, m);
      r.closed == s.closed && HasPos(r.queue, m.Pos()) &&
      r.queue == (if HasPos(s.queue, m.Pos()) then s.queue else s.queue + [m])
  {
    var r := LadderStep(s, node, g0, dy, m);
    if !HasPos(s.queue, m.Pos()) {
      assert r.queue[|s.queue|] == m;
    }
  }

  /** On a cell that is not a ladder nothing changes. On a ladder cell the
      cells above and below both end up queued, whatever the terrain says
      of them and even when they are closed, and the closed list stays as
      it is. */
  lemma LadderQueues(w: World, s: SearchState, node: AStarNode, g0: int, up: AStarNode, down: AStarNode)
    requires up.Pos() == Shift(node.Pos(), Offset(0, 1, 0))
    requires down.Pos() == Shift(node.Pos(), Offset(0, -1, 0))
    ensures var r := Ladder(w, s, node, g0, up, down);
      r.closed == s.closed && (!w.isLadder(node.Pos()) ==> r == s)
    ensures var r := Ladder(w, s, node, g0, up, down);
      w.isLadder(node.Pos()) ==>
        HasPos(r.queue, up.Pos()) && HasPos(r.queue, down.Pos()) &&
        |s.queue| <= |r.queue| <= |s.queue| + 2 && r.queue[..|s.queue|] == s.queue &&
        forall j :: |s.queue| <= j < |r.queue| ==> r.queue[j] == up || r.queue[j] == down
  {
    if w.isLadder(node.Pos()) {
      var s1 := LadderStep(s, node, g0, 1, up);
      var r := LadderStep(s1, node, g0, -1, down);
      assert Ladder(w, s, node, g0, up, down) == r;
      LadderStepQueue(s, node, g0, 1, up);
      LadderStepQueue(s1, node, g0, -1, down);
      HasPosPrefix(s1.queue, r.queue, up.Pos());
      TwoAppends(s.queue, s1.queue, r.queue, up, down);
    }
  }

  /** A sequence that gains at most `up` and then at most `down` at its
      back keeps its front and grows by at most those two. */
  lemma TwoAppends(q0: seq<AStarNode>, q1: seq<AStarNode>, q2: seq<AStarNode>, up: AStarNode, down: AStarNode)
    requires q1 == q0 || q1 == q0 + [up]
    requires q2 == q1 || q2 == q1 + [down]
    ensures |q0| <= |q2| <= |q0| + 2 && q2[..|q0|] == q0
    ensures forall j :: |q0| <= j < |q2| ==> q2[j] == up || q2[j] == down
  {
    assert q1[..|q0|] == q0 && q2[..|q1|] == q1;
  }

  /** Every cell the ladder step queues gets cost `g0 + 1` and the ladder
      node as parent, the cost of a one-block climb. */
  lemma LadderStepCost(s: SearchState, node: AStarNode, g0: int, dy: int, m: AStarNode)
    requires dy == 1 || dy == -1
    requires m.Pos() == Shift(node.Pos(), Offset(0, dy, 0))
    ensures var r := LadderStep(s, node, g0, dy, m);
      var p := Shift(node.Pos(), Offset(0, dy, 0));
      exists t :: t in r.queue && t.Pos() == p &&
        t in r.fields && r.fields[t] == NodeState(g0 + Manhattan(node.Pos(), p), node)
  {
    var p := Shift(node.Pos(), Offset(0, dy, 0));
    ManhattanUnitStep(node.Pos(), Offset(0, dy, 0));
    var r := LadderStep(s, node, g0, dy, m);
    if HasPos(s.queue, p) {
      var t := s.queue[IndexOfPos(s.queue, p)];
      assert t in r.queue;
    } else {
      assert r.queue[|s.queue|] == m;
    }
  }

  /** As written, the ladder step can queue a cell that holds no ladder: a
      ladder cell whose upper neighbour is not a ladder and is not queued
      gets that neighbour queued. */
  lemma LadderQueuesNonLadder(w: World, s: SearchState, node: AStarNode, g0: int, up: AStarNode, down: AStarNode)
    requires up.Pos() == Shift(node.Pos(), Offset(0, 1, 0))
    requires w.isLadder(node.Pos()) && !w.isLadder(up.Pos()) && !HasPos(s.queue, up.Pos())
    ensures var r := Ladder(w, s, node, g0, up, down);
      exists j :: |s.queue| <= j < |r.queue| && !w.isLadder(r.queue[j].Pos())
  {
    var s1 := LadderStep(s, node, g0, 1, up);
    var r := LadderStep(s1, node, g0, -1, down);
    LadderStepQueue(s, node, g0, 1, up);
    if HasPos(s1.queue, Shift(node.Pos(), Offset(0, -1, 0))) {
      assert r.queue == s1.queue;
    } else {
      assert r.queue == s1.queue + [down];
    }
    assert Ladder(w, s, node, g0, up, down) == r;
    assert r.queue[|s.queue|] == up && !w.isLadder(up.Pos());
  }

  /** Where both neighbours hold ladders, the guards make no difference. */
  lemma GuardedLadderAgrees(w: World, s: SearchState, node: AStarNode, g0: int, up: AStarNode, down: AStarNode)
    requires w.isLadder(Shift(node.Pos(), Offset(0, 1, 0))) && w.isLadder(Shift(node.Pos(), Offset(0, -1, 0)))
    ensures GuardedLadder(w, s, node, g0, up, down) == Ladder(w, s, node, g0, up, down)
  {
  }

  /** A guarded block leaves the closed list alone and queues its
      candidate only on a ladder cell. */
  lemma GuardedStepQueue(w: World, s: SearchState, node: AStarNode, g0: int, dy: int, m: AStarNode)
    requires m.Pos() == Shift(node.Pos(), Offset(0, dy, 0))
    ensures var r := GuardedStep(w, s, node, g0, dy, m);
      r.closed == s.closed &&
      (r.queue == s.queue || (r.queue == s.queue + [m] && w.isLadder(m.Pos())))
  {
    if w.isLadder(m.Pos()) {
      LadderStepQueue(s, node, g0, dy, m);
    }
  }

  /** With its guards in force, the ladder step queues only ladder cells. */
  lemma GuardedLadderOnlyLadders(w: World, s: SearchState, node: AStarNode, g0: int, up: AStarNode, down: AStarNode)
    requires up.Pos() == Shift(node.Pos(), Offset(0, 1, 0))
    requires down.Pos() == Shift(node.Pos(), Offset(0, -1, 0))
    ensures var r := GuardedLadder(w, s, node, g0, up, down);
      r.closed == s.closed && |s.queue| <= |r.queue| && r.queue[..|s.queue|] == s.queue &&
      forall j :: |s.queue| <= j < |r.queue| ==> w.isLadder(r.queue[j].Pos())
  {
    if w.isLadder(node.Pos()) {
      var s1 := GuardedStep(w, s, node, g0, 1, up);
      var r := GuardedStep(w, s1, node, g0, -1, down);
      GuardedStepQueue(w, s, node, g0, 1, up);
      GuardedStepQueue(w, s1, node, g0, -1, down);
      forall j | |s.queue| <= j < |r.queue|
        ensures w.isLadder(r.queue[j].Pos())
      {
        if j < |s1.queue| {
          assert r.queue[j] == s1.queue[j] == up;
        } else {
          assert r.queue[j] == down;
        }
      }
      assert r.queue[..|s1.queue|] == s1.queue;
      assert s1.queue[..|s.queue|] == s.queue;
    }
  }

  // ---------------------------------------------------------------------
  // Parent links span one move

  /** Cell `q` is one move from cell `p`: by an entry of the move table
      `c`, or one block up or down from a ladder cell. */
  predicate OneMove(w: World, c: seq<Offset>, p: Coord, q: Coord)
  {
    (exists o :: o in c && q == Shift(p, o)) ||
    (w.isLadder(p) && (q == Shift(p, Offset(0, 1, 0)) || q == Shift(p, Offset(0, -1, 0))))
  }

  /** Every parent link the search has set spans one move: the child
      stands one move from its parent. The start is exempt only while it
      keeps the cost and parent `init` it was given; once the search
      re-parents it, its link spans one move too. */
  predicate Linked(w: World, c: seq<Offset>, s: SearchState, seed: AStarNode, init: NodeState)
  {
    forall n :: n in s.fields && s.fields[n].parent != null && (n != seed || s.fields[n] != init) ==>
      OneMove(w, c, s.fields[n].parent.Pos(), n.Pos())
  }

  /** Giving `t` a parent one move away keeps every link one move long. */
  lemma AttachLinked(w: World, c: seq<Offset>, s: SearchState, seed: AStarNode, init: NodeState, t: AStarNode, v: NodeState, q: seq<AStarNode>)
    requires Linked(w, c, s, seed, init)
    requires v.parent != null && OneMove(w, c, v.parent.Pos(), t.Pos())
    ensures Linked(w, c, SearchState(q, s.closed, s.fields[t := v]), seed, init)
  {
  }

  /** A pass for a move of the table links the node it relaxes or queues
      to the expanded node, one move away. */
  lemma PassLinked(w: World, c: seq<Offset>, s: SearchState, seed: AStarNode, init: NodeState, parent: AStarNode, g0: int, off: Offset, m: AStarNode)
    requires Linked(w, c, s, seed, init) && off in c
    requires m.Pos() == Shift(parent.Pos(), off)
    ensures Linked(w, c, Pass(w, s, parent, g0, off, m), seed, init)
  {
    var p := Shift(parent.Pos(), off);
    var t := RelaxTarget(s.closed, s.queue, p);
    var v := NodeState(g0 + Length(off), parent);
    assert OneMove(w, c, parent.Pos(), p);
    if t != null {
      assert t.Pos() == p;
      AttachLinked(w, c, s, seed, init, t, v, s.queue);
    } else if w.isViable(p, off.dy) {
      AttachLinked(w, c, s, seed, init, m, v, s.queue + [m]);
    }
  }

  lemma {:induction false} PassesLinked(w: World, table: seq<Offset>, s: SearchState, seed: AStarNode, init: NodeState, parent: AStarNode, g0: int, c: seq<Offset>, ms: seq<AStarNode>)
    requires Linked(w, table, s, seed, init) && |ms| == |c|
    requires forall k :: 0 <= k < |c| ==> c[k] in table && ms[k].Pos() == Shift(parent.Pos(), c[k])
    ensures Linked(w, table, Passes(w, s, parent, g0, c, ms), seed, init)
    decreases |c|
  {
    if c != [] {
      var n := |c| - 1;
      PassesLinked(w, table, s, seed, init, parent, g0, c[..n], ms[..n]);
      PassLinked(w, table, Passes(w, s, parent, g0, c[..n], ms[..n]), seed, init, parent, g0, c[n], ms[n]);
    }
  }

  /** A ladder block out of a ladder cell links its node one block up or
      down. */
  lemma LadderStepLinked(w: World, c: seq<Offset>, s: SearchState, seed: AStarNode, init: NodeState, node: AStarNode, g0: int, dy: int, m: AStarNode)
    requires Linked(w, c, s, seed, init) && w.isLadder(node.Pos()) && (dy == 1 || dy == -1)
    requires m.Pos() == Shift(node.Pos(), Offset(0, dy, 0))
    ensures Linked(w, c, LadderStep(s, node, g0, dy, m), seed, init)
  {
    var p := Shift(node.Pos(), Offset(0, dy, 0));
    var v := NodeState(g0 + 1, node);
    if HasPos(s.queue, p) {
      AttachLinked(w, c, s, seed, init, s.queue[IndexOfPos(s.queue, p)], v, s.queue);
    } else {
      AttachLinked(w, c, s, seed, init, m, v, s.queue + [m]);
    }
  }

  /** One iteration of getPath keeps every parent link one move long. */
  lemma IterateLinked(w: World, c: seq<Offset>, s: SearchState, seed: AStarNode, init: NodeState, k: Made)
    requires Linked(w, c, s, seed, init) && s.queue != [] && s.queue[0] in s.fields && Fits(w, c, s, k)
    ensures Linked(w, c, Iterate(w, c, s, k), seed, init)
  {
    var h := s.queue[0];
    var g0 := s.fields[h].g;
    var e := Expand(s);
    if w.isLadder(h.Pos()) {
      LadderStepLinked(w, c, e, seed, init, h, g0, 1, k.up);
      LadderStepLinked(w, c, LadderStep(e, h, g0, 1, k.up), seed, init, h, g0, -1, k.down);
    }
    PassesLinked(w, c, Ladder(w, e, h, g0, k.up, k.down), seed, init, h, g0, c, k.cands);
  }

  /** In every state of a run, every parent link spans one move, except
      the start's while it keeps the cost and parent it was seeded with. */
  lemma {:induction false} RunLinked(w: World, c: seq<Offset>, trace: seq<SearchState>, steps: seq<Made>, seed: AStarNode, v: NodeState)
    requires IsRun(w, c, trace, steps) && trace[0] == Initial(seed, v)
    ensures Linked(w, c, trace[|trace| - 1], seed, v)
    decreases |steps|
  {
    if steps != [] {
      var n := |steps| - 1;
      assert IsRun(w, c, trace[..n + 1], steps[..n]) by {
        forall i | 0 <= i < n
          ensures Advances(w, c, trace[..n + 1][i], trace[..n + 1][i + 1], steps[..n][i])
        {
          assert Advances(w, c, trace[i], trace[i + 1], steps[i]);
        }
      }
      RunLinked(w, c, trace[..n + 1], steps[..n], seed, v);
      assert Advances(w, c, trace[n], trace[n + 1], steps[n]);
      IterateLinked(w, c, trace[n], seed, v, steps[n]);
    }
  }
}
