module Worker {
  import opened Grid
  import opened Nodes
  import opened Search
  import opened Counting

  /** The search worker. The open set is a sequence whose head is what both
      peek and poll return; the closed list is in expansion order. `st` is
      the state of the search as a value, kept in step with the nodes. */
  class AStarWorker {
    var closedNodes: seq<AStarNode>
    var queue: seq<AStarNode>
    ghost var st: SearchState
    const worldObj: World
    /** The move tables, without and with long drops. */
    const candidates: seq<Offset>
    const candidatesAllowDrops: seq<Offset>
    /** The search budget, in expansions. */
    const timeLimit: nat

    constructor (world: World, candidates: seq<Offset>, candidatesAllowDrops: seq<Offset>, timeLimit: nat)
      ensures closedNodes == [] && queue == [] && Abstracts()
      ensures worldObj == world && this.timeLimit == timeLimit
      ensures this.candidates == candidates && this.candidatesAllowDrops == candidatesAllowDrops
    {
      closedNodes, queue := [], [];
      st := SearchState([], [], map[]);
      worldObj := world;
      this.candidates, this.candidatesAllowDrops := candidates, candidatesAllowDrops;
      this.timeLimit := timeLimit;
    }

    /** `st` is the state of the search as a value. */
    ghost predicate Abstracts()
      reads this, queue, closedNodes
    {
      st.queue == queue && st.closed == closedNodes &&
      (forall n :: n in st.fields ==> n in queue || n in closedNodes) &&
      (forall n :: n in queue ==> n in st.fields && st.fields[n] == NodeState(n.g, n.parent)) &&
      (forall n :: n in closedNodes ==> n in st.fields && st.fields[n] == NodeState(n.g, n.parent))
    }

    /** addToBinaryHeap: `input` joins the open set. */
    method AddToBinaryHeap(input: AStarNode)
      requires Abstracts()
      modifies this`queue, this`st
      ensures Abstracts()
      ensures st == Offer(old(st), input, NodeState(input.g, input.parent))
    {
      queue := queue + [input];
      st := Offer(st, input, NodeState(input.g, input.parent));
    }

    /** tryToUpdateExistingHeapNode: finds a queued node at the cell of
        `checkedOne` exactly when there is one; then the first such node,
        and no other, takes the cost of `checkedOne` and `parent` as its
        parent, whatever its cost was. The open set keeps its members. */
    method TryToUpdateExistingHeapNode(parent: AStarNode, checkedOne: AStarNode) returns (found: bool)
      requires Abstracts()
      modifies queue, this`st
      ensures Abstracts() && queue == old(queue)
      ensures found <==> HasPos(queue, checkedOne.Pos())
      ensures st == if found
        then Relax(old(st), queue[IndexOfPos(queue, checkedOne.Pos())], NodeState(old(checkedOne.g), parent))
        else old(st)
      ensures found ==>
        var t := queue[IndexOfPos(queue, checkedOne.Pos())];
        t.g == old(checkedOne.g) && t.parent == parent
    {
      var i := 0;
      while i < |queue|
        invariant 0 <= i <= |queue|
        invariant forall j :: 0 <= j < i ==> queue[j].Pos() != checkedOne.Pos()
        invariant unchanged(queue)
      {
        if queue[i].Equals(checkedOne) {
          IndexOfPosAt(queue, checkedOne.Pos(), i);
          var g := checkedOne.g;
          queue[i].SetG(g, parent);
          st := Relax(st, queue[i], NodeState(g, parent));
          return true;
        }
        i := i + 1;
      }
      return false;
    }

    /** Lines 164-173 of getNextCandidates: the first closed node at the
        cell of `check`, if any, takes `parent` as its parent and the cost
        of `check` plus the distance between the two equal cells. */
    method RelaxClosedNode(parent: AStarNode, check: AStarNode) returns (found: bool)
      requires Abstracts()
      modifies closedNodes, this`st
      ensures Abstracts() && closedNodes == old(closedNodes)
      ensures found <==> HasPos(closedNodes, check.Pos())
      ensures st == if found
        then Relax(old(st), closedNodes[IndexOfPos(closedNodes, check.Pos())], NodeState(old(check.g), parent))
        else old(st)
      ensures found ==>
        var t := closedNodes[IndexOfPos(closedNodes, check.Pos())];
        t.g == old(check.g) && t.parent == parent
    {
      var i := 0;
      while i < |closedNodes|
        invariant 0 <= i <= |closedNodes|
        invariant forall j :: 0 <= j < i ==> closedNodes[j].Pos() != check.Pos()
        invariant unchanged(closedNodes)
      {
        var toUpdate := closedNodes[i];
        if check.Equals(toUpdate) {
          IndexOfPosAt(closedNodes, check.Pos(), i);
          var g := check.g + Manhattan(toUpdate.Pos(), check.Pos());
          assert g == check.g;
          toUpdate.SetG(g, parent);
          st := Relax(st, toUpdate, NodeState(g, parent));
          return true;
        }
        i := i + 1;
      }
      return false;
    }

    /** One pass of the loop of getNextCandidates (lines 162-179): the
        candidate for move `off` out of `parent` relaxes a closed node,
        else relaxes a queued node, else is queued if the terrain admits
        the move. */
    method ProcessCandidate(parent: AStarNode, off: Offset) returns (ghost check: AStarNode)
      requires Abstracts()
      modifies this`queue, queue, closedNodes, this`st
      ensures Abstracts()
      ensures fresh(check) && check.Pos() == Shift(parent.Pos(), off)
      ensures parent.g == old(parent.g)
      ensures closedNodes == old(closedNodes)
      ensures queue == old(queue) || queue == old(queue) + [check]
      ensures st == Pass(worldObj, old(st), parent, old(parent.g), off, check)
    {
      var candidate := new AStarNode(parent.x + off.dx, parent.y + off.dy, parent.z + off.dz, parent);
      check := candidate;
      ManhattanOfShift(parent.Pos(), off);
      var found := RelaxClosedNode(parent, candidate);
      if !found {
        found := TryToUpdateExistingHeapNode(parent, candidate);
        if !found && worldObj.isViable(candidate.Pos(), off.dy) {
          AddToBinaryHeap(candidate);
        }
      }
    }

    /** The move table getNextCandidates uses. */
    function Table(droppingAllowed: bool): (r: seq<Offset>)
      ensures r == candidates || r == candidatesAllowDrops
    {
      if droppingAllowed then candidatesAllowDrops else candidates
    }

    /** getNextCandidates: one pass per entry of the move table, in
        order; `made` lists the candidate node each pass creates. */
    method GetNextCandidates(parent: AStarNode, droppingAllowed: bool) returns (ghost made: seq<AStarNode>)
      requires Abstracts()
      modifies this`queue, queue, closedNodes, this`st
      ensures Abstracts()
      ensures parent.g == old(parent.g)
      ensures |made| == |Table(droppingAllowed)|
      ensures forall k :: 0 <= k < |made| ==>
        fresh(made[k]) && made[k].Pos() == Shift(parent.Pos(), Table(droppingAllowed)[k])
      ensures st == Passes(worldObj, old(st), parent, old(parent.g), Table(droppingAllowed), made)
      ensures closedNodes == old(closedNodes)
      ensures forall j :: 0 <= j < |queue| ==> queue[j] in old(queue) || fresh(queue[j])
    {
      var c := Table(droppingAllowed);
      ghost var s0, g0 := st, parent.g;
      made := [];
      for i := 0 to |c|
        invariant Abstracts() && parent.g == g0
        invariant |made| == i
        invariant forall k :: 0 <= k < i ==> made[k].Pos() == Shift(parent.Pos(), c[k])
        invariant forall k :: 0 <= k < i ==> fresh(made[k])
        invariant st == Passes(worldObj, s0, parent, g0, c[..i], made)
        invariant forall j :: 0 <= j < |queue| ==> queue[j] in old(queue) || fresh(queue[j])
        invariant closedNodes == old(closedNodes)
      {
        var m := ProcessCandidate(parent, c[i]);
        assert c[..i + 1][..i] == c[..i] && (made + [m])[..i] == made;
        made := made + [m];
      }
      assert c[..|c|] == c;
    }

    /** shouldInterrupt: the budget is spent once more nodes have been
        expanded than it allows. */
    predicate ShouldInterrupt()
      reads this
      ensures ShouldInterrupt() ==> closedNodes != []
    {
      |closedNodes| > timeLimit
    }

    /** One guarded block of checkPossibleLadder (lines 132-137, 139-144):
        a candidate for the cell `dy` blocks above `node` relaxes the first
        queued node at that cell or is queued; the closed list is not
        searched and the terrain is not asked. */
    method LadderCandidate(node: AStarNode, dy: int) returns (ghost m: AStarNode)
      requires Abstracts() && node !in queue && (dy == 1 || dy == -1)
      modifies this`queue, queue, this`st
      ensures Abstracts() && node !in queue
      ensures node.g == old(node.g)
      ensures fresh(m) && m.Pos() == Shift(node.Pos(), Offset(0, dy, 0))
      ensures st == LadderStep(old(st), node, old(node.g), dy, m)
      ensures forall j :: 0 <= j < |queue| ==> queue[j] in old(queue) || fresh(queue[j])
    {
      var ladder := new AStarNode(node.x, node.y + dy, node.z, node);
      m := ladder;
      ManhattanUnitStep(node.Pos(), Offset(0, dy, 0));
      assert ladder.g == node.g + 1;
      var found := TryToUpdateExistingHeapNode(node, ladder);
      if !found {
        AddToBinaryHeap(ladder);
      }
    }

    /** checkPossibleLadder: on a ladder cell, the cell above and the cell
        below are both processed. Each inner `if` of the source guards an
        empty statement, so neither neighbour is asked whether it is a
        ladder. */
    method CheckPossibleLadder(node: AStarNode) returns (ghost up: AStarNode, ghost down: AStarNode)
      requires Abstracts() && node !in queue
      modifies this`queue, queue, this`st
      ensures Abstracts()
      ensures node.g == old(node.g)
      ensures worldObj.isLadder(node.Pos()) ==>
        fresh(up) && fresh(down) &&
        up.Pos() == Shift(node.Pos(), Offset(0, 1, 0)) &&
        down.Pos() == Shift(node.Pos(), Offset(0, -1, 0))
      ensures st == Ladder(worldObj, old(st), node, old(node.g), up, down)
      ensures forall j :: 0 <= j < |queue| ==> queue[j] in old(queue) || fresh(queue[j])
    {
      up, down := node, node;
      if worldObj.isLadder(node.Pos()) {
        up := LadderCandidate(node, 1);
        down := LadderCandidate(node, -1);
      }
    }

    /** Line 90: the head of the open set moves to the closed list. */
    method PollToClosed() returns (current: AStarNode)
      requires Abstracts() && queue != [] && DistinctPos(queue)
      modifies this`queue, this`closedNodes, this`st
      ensures Abstracts()
      ensures current == old(queue[0]) && current !in queue
      ensures queue == old(queue[1..]) && closedNodes == old(closedNodes) + [current]
      ensures st == Expand(old(st))
    {
      current := queue[0];
      assert forall i :: 1 <= i < |queue| ==> queue[i].Pos() != current.Pos();
      closedNodes := closedNodes + [current];
      queue := queue[1..];
      st := Expand(st);
    }

    /** Lines 92-93: the ladder step and the move table out of the node
        just closed. */
    method ExpandFrom(current: AStarNode, searchMode: bool) returns (ghost k: Made)
      requires Abstracts() && current !in queue
      modifies this`queue, queue, closedNodes, this`st
      ensures Abstracts() && closedNodes == old(closedNodes)
      ensures |k.cands| == |Table(searchMode)|
      ensures forall i :: 0 <= i < |k.cands| ==>
        fresh(k.cands[i]) && k.cands[i].Pos() == Shift(current.Pos(), Table(searchMode)[i])
      ensures worldObj.isLadder(current.Pos()) ==>
        fresh(k.up) && fresh(k.down) &&
        k.up.Pos() == Shift(current.Pos(), Offset(0, 1, 0)) &&
        k.down.Pos() == Shift(current.Pos(), Offset(0, -1, 0))
      ensures st == Passes(worldObj, Ladder(worldObj, old(st), current, old(current.g), k.up, k.down),
                           current, old(current.g), Table(searchMode), k.cands)
      ensures forall j :: 0 <= j < |queue| ==> queue[j] in old(queue) || fresh(queue[j])
    {
      ghost var up, down := CheckPossibleLadder(current);
      ghost var made := GetNextCandidates(current, searchMode);
      k := Made(up, down, made);
    }

    /** Lines 90-93: poll the head of the open set onto the closed list,
        then run the ladder step and the move table out of it. */
    method ExpandCurrent(searchMode: bool) returns (ghost k: Made)
      requires Abstracts() && queue != [] && DistinctPos(queue)
      modifies this`queue, this`closedNodes, queue, closedNodes, this`st
      ensures Abstracts()
      ensures Advances(worldObj, Table(searchMode), old(st), st, k)
      ensures Fits(worldObj, Table(searchMode), old(st), k)
      ensures closedNodes == old(closedNodes) + [old(queue[0])]
      ensures forall j :: 0 <= j < |queue| ==> queue[j] in old(queue) || fresh(queue[j])
    {
      ghost var s0 := st;
      var current := PollToClosed();
      assert forall j :: 0 <= j < |queue| ==> queue[j] == old(queue)[j + 1];
      k := ExpandFrom(current, searchMode);
      IterateQueueFrom(worldObj, Table(searchMode), s0, k);
    }

    /** Every queued or closed node other than `start` has a parent, and
        that parent is closed. */
    ghost predicate ParentsClosed(start: AStarNode)
      reads this, queue, closedNodes
    {
      (forall n :: n in queue && n != start ==> n.parent != null && n.parent in closedNodes) &&
      (forall n :: n in closedNodes && n != start ==> n.parent != null && n.parent in closedNodes)
    }

    lemma ValidParentsClosed(start: AStarNode)
      requires Abstracts() && ValidState(st, start)
      ensures ParentsClosed(start)
    {
    }

    /** Lines 103-108: the walk from `current` along parent links to
        `start`. It either reaches `start`, giving the path target first,
        or, once it has taken more steps than there are closed nodes,
        has provably entered a cycle that misses `start` and never ends. */
    method ReconstructPath(start: AStarNode, current: AStarNode) returns (r: PathResult)
      requires ParentsClosed(start) && current in queue
      ensures r.Found? || r.Diverges?
      ensures current == start ==> r == Found([start])
      ensures r.Found? ==>
        |r.path| >= 1 && r.path[0] == current && r.path[|r.path| - 1] == start &&
        ParentWalk(r.path, start) && forall i :: 1 <= i < |r.path| ==> r.path[i] in closedNodes
      ensures r.Diverges? ==>
        |r.walk| >= 1 && r.walk[0] == current && ParentWalk(r.walk, start) &&
        (forall i :: 1 <= i < |r.walk| ==> r.walk[i] in closedNodes) &&
        (forall k :: 0 <= k < |r.walk| ==> r.walk[k] != start) &&
        exists i, j :: 0 <= i < j < |r.walk| && r.walk[i] == r.walk[j]
    {
      var path := [current];
      var node := current;
      while node != start
        invariant |path| >= 1 && path[0] == current && path[|path| - 1] == node
        invariant node == current || node in closedNodes
        invariant forall i :: 1 <= i < |path| ==> path[i] in closedNodes
        invariant ParentWalk(path, start)
        invariant |path| <= |closedNodes| + 1 || node == start
        decreases |closedNodes| + 2 - |path|
      {
        var next := node.parent;
        path := path + [next];
        if next != start && |path| > |closedNodes| + 1 {
          LongWalkRepeats(path, closedNodes);
          return Diverges(path);
        }
        node := next;
      }
      return Found(path);
    }

    /** In a state whose parent links span one move each, so do the links
        of a parent walk from the head of the open set. */
    lemma WalkLinked(start: AStarNode, init: NodeState, c: seq<Offset>, w: seq<AStarNode>)
      requires Abstracts() && Linked(worldObj, c, st, start, init)
      requires |w| >= 1 && w[0] in queue && ParentWalk(w, start)
      requires forall i :: 1 <= i < |w| ==> w[i] in closedNodes
      ensures forall i :: 0 <= i < |w| - 1 ==> OneMove(worldObj, c, w[i + 1].Pos(), w[i].Pos())
    {
      forall i | 0 <= i < |w| - 1
        ensures OneMove(worldObj, c, w[i + 1].Pos(), w[i].Pos())
      {
        assert w[i] in queue || w[i] in closedNodes;
        assert st.fields[w[i]].parent == w[i + 1];
      }
    }

    /** One iteration of the loop at lines 89-98, recorded in the run, from
        a head that is not at `e` with the budget not yet spent. */
    method Step(searchMode: bool, ghost start: AStarNode, ghost v: NodeState, ghost e: Coord,
                ghost trace: seq<SearchState>, ghost steps: seq<Made>)
      returns (ghost trace': seq<SearchState>, ghost steps': seq<Made>)
      requires Abstracts() && queue != [] && DistinctPos(queue)
      requires queue[0].Pos() != e && |closedNodes| <= timeLimit
      requires IsRun(worldObj, Table(searchMode), trace, steps) && trace[|trace| - 1] == st
      requires trace[0] == Initial(start, v) && GoesOn(trace, e, timeLimit)
      modifies this`queue, this`closedNodes, queue, closedNodes, this`st
      ensures Abstracts() && (queue != [] ==> DistinctPos(queue))
      ensures IsRun(worldObj, Table(searchMode), trace', steps') && trace' == trace + [st] && |steps'| == |steps| + 1
      ensures GoesOn(trace', e, timeLimit)
      ensures closedNodes == old(closedNodes) + [old(queue[0])]
      ensures forall j :: 0 <= j < |queue| ==> queue[j] in old(queue) || fresh(queue[j])
    {
      ghost var k := ExpandCurrent(searchMode);
      RunExtend(worldObj, Table(searchMode), trace, steps, st, k);
      trace', steps' := trace + [st], steps + [k];
      RunValid(worldObj, Table(searchMode), trace', steps', start, v);
    }

    /** Lines 84-101 of getPath, on a worker that has not searched before
        (run() starts each worker once): seed the open set with `start`,
        then expand until the head of the open set is at `end` (`reached`),
        or an expansion leaves the open set empty or spends the budget.
        `trace` lists the states after line 84 and after each iteration,
        `steps` the nodes each iteration created. */
    method RunSearch(start: AStarNode, end: AStarNode, searchMode: bool)
      returns (reached: bool, ghost trace: seq<SearchState>, ghost steps: seq<Made>)
      requires Abstracts() && queue == [] && closedNodes == []
      modifies this, start
      ensures Abstracts()
      ensures IsRun(worldObj, Table(searchMode), trace, steps) && |trace| == |closedNodes| + 1
      ensures trace[0] == Initial(start, NodeState(old(start.g), old(start.parent)))
      ensures trace[|trace| - 1] == st && GoesOn(trace, end.Pos(), timeLimit)
      ensures !reached <==> queue == [] || ShouldInterrupt()
      ensures !reached ==> steps != []
      ensures reached ==> queue != [] && queue[0].Pos() == end.Pos()
      ensures start.Pos() == end.Pos() ==> reached && steps == [] && queue == [start]
    {
      ghost var init := Initial(start, NodeState(start.g, start.parent));
      queue := queue + [start];
      st := init;
      trace, steps := [st], [];
      var current := start;
      var stopped := false;
      while !stopped && !current.Equals(end)
        invariant Abstracts() && |closedNodes| <= timeLimit + 1
        invariant !stopped ==> queue != [] && current == queue[0] && DistinctPos(queue) && |closedNodes| <= timeLimit
        invariant stopped ==> (queue == [] || ShouldInterrupt()) && steps != []
        invariant IsRun(worldObj, Table(searchMode), trace, steps) && |trace| == |closedNodes| + 1
        invariant trace[0] == init
        invariant trace[|trace| - 1] == st && GoesOn(trace, end.Pos(), timeLimit)
        invariant start.Pos() == end.Pos() ==> steps == [] && queue == [start]
        invariant forall j :: 0 <= j < |queue| ==> queue[j] == start || fresh(queue[j])
        invariant forall j :: 0 <= j < |closedNodes| ==> closedNodes[j] == start || fresh(closedNodes[j])
        decreases timeLimit + 1 - |closedNodes|
      {
        trace, steps := Step(searchMode, start, NodeState(old(start.g), old(start.parent)), end.Pos(), trace, steps);
        if queue == [] || ShouldInterrupt() {
          stopped := true;
        } else {
          current := queue[0];
        }
      }
      reached := !stopped;
    }

    /** getPath: null (`NoPath`) exactly when the search stops on an empty
        open set or a spent budget; otherwise the parent walk from the node
        reached at `end`, which is `[start]` when `start` is already at
        `end`. */
    method GetPath(start: AStarNode, end: AStarNode, searchMode: bool)
      returns (r: PathResult, ghost trace: seq<SearchState>, ghost steps: seq<Made>)
      requires Abstracts() && queue == [] && closedNodes == []
      modifies this, start
      ensures Abstracts() && ValidState(st, start)
      ensures IsRun(worldObj, Table(searchMode), trace, steps) && |trace| == |closedNodes| + 1
      ensures trace[0] == Initial(start, NodeState(old(start.g), old(start.parent)))
      ensures trace[|trace| - 1] == st && GoesOn(trace, end.Pos(), timeLimit)
      ensures r.NoPath? <==> queue == [] || ShouldInterrupt()
      ensures r.NoPath? ==> steps != []
      ensures start.Pos() == end.Pos() ==> r == Found([start]) && steps == []
      ensures !r.NoPath? ==> queue != [] && queue[0].Pos() == end.Pos()
      ensures r.Found? ==>
        |r.path| >= 1 && r.path[0] == queue[0] && r.path[|r.path| - 1] == start && ParentWalk(r.path, start)
      ensures r.Found? ==>
        forall i :: 0 <= i < |r.path| - 1 ==> OneMove(worldObj, Table(searchMode), r.path[i + 1].Pos(), r.path[i].Pos())
      ensures r.Diverges? ==>
        |r.walk| >= 1 && r.walk[0] == queue[0] && ParentWalk(r.walk, start) &&
        (forall k :: 0 <= k < |r.walk| ==> r.walk[k] != start) &&
        exists i, j :: 0 <= i < j < |r.walk| && r.walk[i] == r.walk[j]
      ensures r.Diverges? ==>
        forall i :: 0 <= i < |r.walk| - 1 ==> OneMove(worldObj, Table(searchMode), r.walk[i + 1].Pos(), r.walk[i].Pos())
    {
      var reached;
      reached, trace, steps := RunSearch(start, end, searchMode);
      RunValid(worldObj, Table(searchMode), trace, steps, start, NodeState(old(start.g), old(start.parent)));
      if !reached {
        return NoPath, trace, steps;
      }
      RunLinked(worldObj, Table(searchMode), trace, steps, start, NodeState(old(start.g), old(start.parent)));
      ValidParentsClosed(start);
      r := ReconstructPath(start, queue[0]);
      if r.Found? {
        WalkLinked(start, NodeState(old(start.g), old(start.parent)), Table(searchMode), r.path);
      } else {
        WalkLinked(start, NodeState(old(start.g), old(start.parent)), Table(searchMode), r.walk);
      }
    }
  }
}
