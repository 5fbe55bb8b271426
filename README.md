# AStarWorker search engine, modelled in Dafny

A model of the search engine of the `AStarWorker` path finder
(`minecraft/mods/ifw/pathfinding/AStarWorker.java`). The engine searches for a
route between two cells of a 3D block world. It keeps an open set (`queue`)
and a closed list (`closedNodes`). Each iteration of `getPath` does three
things:

- it moves the head of the open set onto the closed list;
- it runs the ladder step (`checkPossibleLadder`);
- it runs one pass per entry of a move table (`getNextCandidates`).

In a pass, the candidate node for a move does one of three things:

- it re-parents the first closed node at its cell;
- otherwise, it re-parents the first queued node at its cell (`tryToUpdateExistingHeapNode`);
- otherwise, it joins the open set if the terrain admits the move (`addToBinaryHeap`).

Re-parenting happens unconditionally, whatever the costs. When the head of
the open set stands at the target cell, the path is rebuilt by following
`parent` links back to the start. When the open set runs dry or the budget
is spent, the result is null.

The project has six modules:

- `Grid` (`grid.dfy`): cells, moves and the movement cost `getCostNodeToNode`.
- `Nodes` (`nodes.dfy`): the node class `AStarNode`. It has a fixed cell, a
  mutable cost `g` and a mutable `parent`, and equality is by cell. The
  module also searches a sequence of nodes for the first one at a cell, as
  the iterator loops of the source do.
- `Search` (`search.dfy`): the state of a search as a value, and each step of
  the engine as a function on it. This module holds the properties of the
  search, proved as lemmas:
  - the invariant every state keeps;
  - what one iteration does to the closed list and to the open set;
  - how a pass re-parents nodes;
  - what the ladder step queues.
- `Worker` (`worker.dfy`): the class `AStarWorker`. Its fields are `queue`
  and `closedNodes`, and its methods are the source's methods with their
  loops. Every method is proved to move the ghost value `st` exactly as the
  matching `Search` function says. `Abstracts()` ties `st` to the objects: it
  states that `st` holds the same sequences as the fields, and the cost and
  parent of every node they hold.
- `Counting` (`counting.dfy`): a pigeonhole argument. It shows that a parent
  walk that takes more steps than the closed list has nodes has revisited a
  node.
- `Cycles` (`cycles.dfy`): parent cycles. As written, the closed relaxation
  can make two nodes each other's parent. This module proves that on a
  concrete run. It also proves the corrected search, which re-parents a
  closed node only on a strictly cheaper route, keeps the search invariant
  and falling costs along parent links on every run from a start without
  a parent, over a move table without the empty move `(0, 0, 0)`. On such
  runs the walk from the head of the open set always reaches the start
  (see "Findings").

The open set is a sequence. `offer` appends, and `peek`/`poll` take the head
(see "Left out").

## Model

| member | source | states |
|---|---|---|
| Grid.Manhattan | minecraft/mods/ifw/pathfinding/AStarWorker.java:190-192 | the cost is a natural number, and it is 0 exactly when the two cells coincide |
| Grid.ManhattanSymmetric | minecraft/mods/ifw/pathfinding/AStarWorker.java:190-192 | the cost from a to b equals the cost from b to a |
| Grid.ManhattanOfShift | minecraft/mods/ifw/pathfinding/AStarWorker.java:190-192 | the cost of a move is \|dx\|+\|dy\|+\|dz\| in either direction, wherever it starts |
| Grid.ManhattanUnitStep | minecraft/mods/ifw/pathfinding/AStarWorker.java:190-192 | a move of one block along one axis costs exactly 1 |
| Nodes.AStarNode.constructor | minecraft/mods/ifw/pathfinding/AStarWorker.java:162 | a new node stands at the given cell with the given parent; it costs 0 without a parent, otherwise the parent's cost plus the move |
| Nodes.AStarNode.SetG | minecraft/mods/ifw/pathfinding/AStarWorker.java:208 | setG overwrites both the cost and the parent, whatever they were |
| Nodes.AStarNode.Equals | minecraft/mods/ifw/pathfinding/AStarWorker.java:207 | two nodes are equal exactly when they stand at the same cell, whatever their costs and parents |
| Nodes.IndexOfPos | minecraft/mods/ifw/pathfinding/AStarWorker.java:205-212 | the position an iteration that stops at the first equal node reaches: below the length iff some node is at the cell, that node is at the cell, and no earlier one is |
| Nodes.FirstMatchUnique | minecraft/mods/ifw/pathfinding/AStarWorker.java:205-212 | in a sequence without repeated cells, any node of it is the first match for its own cell |
| Search.RelaxTarget | minecraft/mods/ifw/pathfinding/AStarWorker.java:164-175 | the node a candidate re-parents is null iff neither list holds its cell; otherwise it is the first closed match if there is one, else the first queued match |
| Search.Expand | minecraft/mods/ifw/pathfinding/AStarWorker.java:90 | polling moves the head of the open set to the back of the closed list and changes no cost or parent |
| Search.Relax | minecraft/mods/ifw/pathfinding/AStarWorker.java:169 | setG gives the target node the new cost and parent; every other node and both lists stay as they were |
| Search.Offer | minecraft/mods/ifw/pathfinding/AStarWorker.java:114-116 | offer puts the node at the back of the open set with the given cost and parent; the front of the open set and the closed list stay as they were |
| Search.Pass | minecraft/mods/ifw/pathfinding/AStarWorker.java:162-179 | one pass of getNextCandidates leaves the closed list alone and either leaves the open set alone or appends exactly its candidate |
| Search.Passes | minecraft/mods/ifw/pathfinding/AStarWorker.java:161-180 | the passes of getNextCandidates, in table order, never change the closed list |
| Search.LadderStep | minecraft/mods/ifw/pathfinding/AStarWorker.java:132-137 | one ladder block leaves the closed list alone and either leaves the open set alone or appends exactly its candidate |
| Search.Ladder | minecraft/mods/ifw/pathfinding/AStarWorker.java:124-146 | the ladder step never changes the closed list |
| Search.GuardedStep | minecraft/mods/ifw/pathfinding/AStarWorker.java:131-137 | the guarded ladder block leaves the closed list alone and either leaves the open set alone or appends exactly its candidate |
| Search.GuardedLadder | minecraft/mods/ifw/pathfinding/AStarWorker.java:129-145 | the guarded ladder step never changes the closed list |
| Search.Initial | minecraft/mods/ifw/pathfinding/AStarWorker.java:84 | the state after line 84 on a fresh worker, with only `start` queued and nothing closed, satisfies the search invariant |
| Search.ExpandValid | minecraft/mods/ifw/pathfinding/AStarWorker.java:90 | polling the head onto the closed list keeps the invariant; the head is then closed and no longer queued |
| Search.LadderStepValid | minecraft/mods/ifw/pathfinding/AStarWorker.java:132-137 | one ladder block keeps the invariant and the closed list, given a node new to the search at the target cell |
| Search.LadderValid | minecraft/mods/ifw/pathfinding/AStarWorker.java:124-146 | the ladder step keeps the invariant, given two new nodes above and below |
| Search.PassValid | minecraft/mods/ifw/pathfinding/AStarWorker.java:162-179 | one pass of getNextCandidates keeps the invariant: a node is queued only for a cell that neither list holds, and every new parent is closed |
| Search.PassesValid | minecraft/mods/ifw/pathfinding/AStarWorker.java:161-180 | all passes of getNextCandidates keep the invariant and leave the closed list as it was |
| Search.IterateValid | minecraft/mods/ifw/pathfinding/AStarWorker.java:89-93 | one iteration of getPath keeps the invariant: the open set holds each cell once; no node is both open and closed; every node but `start` has a closed parent |
| Search.IsRun | minecraft/mods/ifw/pathfinding/AStarWorker.java:89-101 | the loop of getPath as a sequence of states: each state is one iteration from the head of the one before, through nodes created for the chosen move table |
| Search.RunValid | minecraft/mods/ifw/pathfinding/AStarWorker.java:84-101 | every state of a run from the seeded open set satisfies the invariant (induction over the run) |
| Search.Iterate | minecraft/mods/ifw/pathfinding/AStarWorker.java:89-99 | each iteration appends exactly one node to the closed list: the head of the open set, the node being expanded |
| Search.IterateQueueFrom | minecraft/mods/ifw/pathfinding/AStarWorker.java:89-93 | after an iteration, every queued node was queued before, or is a move candidate of this iteration, or (on a ladder cell only) one of its two ladder candidates |
| Search.PassQueue | minecraft/mods/ifw/pathfinding/AStarWorker.java:175-179 | a pass appends its candidate iff the cell is in neither list and the terrain admits the move; otherwise the open set is unchanged; the closed list never changes |
| Search.PassRelaxesClosed | minecraft/mods/ifw/pathfinding/AStarWorker.java:164-173 | a candidate for a closed cell changes only the first closed node there: its parent becomes the expanded node and its cost becomes exactly the candidate's (the extra cost term is 0); both lists are unchanged |
| Search.PassesQueueGrows | minecraft/mods/ifw/pathfinding/AStarWorker.java:161-180 | during getNextCandidates the open set only grows at its back, by at most one node per move table entry |
| Search.PassesQueueGained | minecraft/mods/ifw/pathfinding/AStarWorker.java:161-180 | every node the open set gains in getNextCandidates is the candidate of a move the terrain admits |
| Search.PassFields | minecraft/mods/ifw/pathfinding/AStarWorker.java:162-179 | a pass either leaves every cost and parent as it was or changes those of exactly one node, which it re-parents to the expanded node at the expanded node's cost plus the length of the move; every re-parented or gained node has that parent and cost |
| Search.PassesFields | minecraft/mods/ifw/pathfinding/AStarWorker.java:161-180 | after getNextCandidates every node keeps its cost and parent or was re-parented to the expanded node; every node gained was too |
| Search.LadderStepQueue | minecraft/mods/ifw/pathfinding/AStarWorker.java:132-137 | one ladder block leaves the closed list alone and leaves its cell queued; it appends the new node iff the cell was not queued |
| Search.LadderQueues | minecraft/mods/ifw/pathfinding/AStarWorker.java:124-146 | nothing changes on a non-ladder cell; on a ladder cell the cells above and below both end up queued, with no closed-list check and no viability check, by at most two appended nodes |
| Search.LadderStepCost | minecraft/mods/ifw/pathfinding/AStarWorker.java:133-136 | the queued node at the ladder block's cell has the expanded node as parent and its cost plus 1 |
| Search.LadderQueuesNonLadder | minecraft/mods/ifw/pathfinding/AStarWorker.java:131-137 | as written, a ladder cell whose upper neighbour holds no ladder and is not queued gets that neighbour queued |
| Search.GuardedStepQueue | minecraft/mods/ifw/pathfinding/AStarWorker.java:131-137 | with its guard in force, a ladder block queues its candidate only on a ladder cell |
| Search.GuardedLadderOnlyLadders | minecraft/mods/ifw/pathfinding/AStarWorker.java:129-145 | with its guards in force, the ladder step queues only ladder cells, at the back of the open set, and leaves the closed list alone |
| Search.GuardedLadderAgrees | minecraft/mods/ifw/pathfinding/AStarWorker.java:129-145 | where both neighbours hold ladders, the guarded and the as-written ladder steps agree |
| Search.AttachLinked | minecraft/mods/ifw/pathfinding/AStarWorker.java:169 | giving a node a parent one move away keeps every parent link one move long, the start exempt only while it keeps its seeded cost and parent |
| Search.PassLinked | minecraft/mods/ifw/pathfinding/AStarWorker.java:162-179 | a pass for an entry of the move table links the node it re-parents or queues to the expanded node, one move away |
| Search.PassesLinked | minecraft/mods/ifw/pathfinding/AStarWorker.java:161-180 | all passes of getNextCandidates keep every parent link one move long, the start's included once it has been re-parented |
| Search.LadderStepLinked | minecraft/mods/ifw/pathfinding/AStarWorker.java:132-137 | out of a ladder cell, a ladder block links its node one block up or down |
| Search.IterateLinked | minecraft/mods/ifw/pathfinding/AStarWorker.java:89-93 | one iteration of getPath keeps every parent link one move of the table long, or one block up or down out of a ladder cell; the start is exempt only while it keeps its seeded cost and parent |
| Search.RunLinked | minecraft/mods/ifw/pathfinding/AStarWorker.java:84-101 | in every state of a run, every parent link spans one move of the table, or one block up or down out of a ladder cell; the only exception is the start's link while the start still has the cost and parent it was seeded with (a re-parented start is not exempt) |
| Counting.LongWalkRepeats | minecraft/mods/ifw/pathfinding/AStarWorker.java:105-108 | a walk whose every step after the first is a closed node, and that is longer than the closed list plus one, repeats a node |
| Cycles.PassReversesParent | minecraft/mods/ifw/pathfinding/AStarWorker.java:164-173 | as written, a pass whose move leads from the expanded node back onto its own parent (the first closed node there) makes that parent its child: the two become each other's parent |
| Cycles.CorridorCycle | minecraft/mods/ifw/pathfinding/AStarWorker.java:84-108 | as written, on a corridor of four cells with east and west moves, three iterations form a run that brings the target node to the head of the open set while two nodes on its parent walk are each other's parent and the start is neither; the walk never reaches the start |
| Cycles.InitialDescending | minecraft/mods/ifw/pathfinding/AStarWorker.java:84 | the seeded state, start without a parent, has costs strictly falling along parent links |
| Cycles.CheckedPass | minecraft/mods/ifw/pathfinding/AStarWorker.java:162-179 | the corrected pass does exactly what the pass as written does, or nothing (a closed node on a route that is not cheaper) |
| Cycles.AttachDescends | minecraft/mods/ifw/pathfinding/AStarWorker.java:169 | giving a node a closed, strictly cheaper parent at another cell keeps costs falling along parent links, provided that a closed node does not get dearer |
| Cycles.CheckedPassDescends | minecraft/mods/ifw/pathfinding/AStarWorker.java:162-179 | with closed nodes re-parented only on a strictly cheaper route, a pass keeps costs falling along parent links, leaves the closed list and the expanded node's cost alone, and keeps the open set apart from the closed list |
| Cycles.CheckedPasses | minecraft/mods/ifw/pathfinding/AStarWorker.java:161-180 | the corrected passes never change the closed list |
| Cycles.CheckedPassValid | minecraft/mods/ifw/pathfinding/AStarWorker.java:162-179 | the corrected pass keeps the search invariant |
| Cycles.CheckedPassesDescend | minecraft/mods/ifw/pathfinding/AStarWorker.java:161-180 | the same for all passes of getNextCandidates over a table without the empty move |
| Cycles.CheckedPassesValid | minecraft/mods/ifw/pathfinding/AStarWorker.java:161-180 | the corrected passes keep the search invariant |
| Cycles.LadderStepDescends | minecraft/mods/ifw/pathfinding/AStarWorker.java:132-137 | a ladder block as written keeps costs falling along parent links: it re-parents only queued nodes, which are nobody's parent |
| Cycles.CheckedIterateDescends | minecraft/mods/ifw/pathfinding/AStarWorker.java:89-93 | an iteration with the corrected passes keeps costs falling along parent links |
| Cycles.CheckedIterate | minecraft/mods/ifw/pathfinding/AStarWorker.java:89-99 | an iteration with the corrected passes appends exactly the expanded head to the closed list |
| Cycles.CheckedIterateValid | minecraft/mods/ifw/pathfinding/AStarWorker.java:89-93 | an iteration with the corrected passes keeps the search invariant |
| Cycles.CheckedRunDescends | minecraft/mods/ifw/pathfinding/AStarWorker.java:84-101 | every state of a run of the corrected search from the start without a parent, over a move table without the empty move, keeps the search invariant and has costs falling along parent links (induction over the run) |
| Cycles.WalkCostFalls | minecraft/mods/ifw/pathfinding/AStarWorker.java:105-108 | when costs fall along parent links, a later node of a parent walk is strictly cheaper than an earlier one |
| Cycles.DescendingWalkShort | minecraft/mods/ifw/pathfinding/AStarWorker.java:105-108 | when costs fall along parent links, a parent walk repeats no node and is at most one longer than the closed list, so the walk of getPath ends |
| Cycles.ChainReachesStart | minecraft/mods/ifw/pathfinding/AStarWorker.java:105-108 | in a valid state with costs falling along parent links, following parent links from any held node reaches the start, within one more node than the closed list holds |
| Cycles.CheckedRunWalkEnds | minecraft/mods/ifw/pathfinding/AStarWorker.java:84-108 | with the corrected relaxation, in any state a run from the start without a parent over a move table without the empty move reaches, the walk of getPath from the head of the open set reaches the start within one more node than the closed list holds, so the walk always ends |
| Worker.AStarWorker.constructor | minecraft/mods/ifw/pathfinding/AStarWorker.java:37-41 | a new worker has an empty open set and an empty closed list |
| Worker.AStarWorker.AddToBinaryHeap | minecraft/mods/ifw/pathfinding/AStarWorker.java:114-116 | the node joins the open set with its own cost and parent |
| Worker.AStarWorker.TryToUpdateExistingHeapNode | minecraft/mods/ifw/pathfinding/AStarWorker.java:202-213 | true iff some queued node is at the candidate's cell; then exactly the first such node takes the candidate's cost and the given parent; the open set keeps its members; on false the state is unchanged |
| Worker.AStarWorker.RelaxClosedNode | minecraft/mods/ifw/pathfinding/AStarWorker.java:164-173 | finds a closed node iff one is at the candidate's cell; then exactly the first one takes the given parent and the candidate's own cost; the closed list keeps its members |
| Worker.AStarWorker.ProcessCandidate | minecraft/mods/ifw/pathfinding/AStarWorker.java:162-179 | one pass: the state moves as the pass function says; the closed list is unchanged; the open set is unchanged or gains exactly the fresh candidate |
| Worker.AStarWorker.GetNextCandidates | minecraft/mods/ifw/pathfinding/AStarWorker.java:154-181 | the state moves as the passes over the chosen table say, one fresh candidate per entry at its move from the expanded node; the closed list is unchanged |
| Worker.AStarWorker.LadderCandidate | minecraft/mods/ifw/pathfinding/AStarWorker.java:132-137 | one ladder block: a fresh node one block above or below re-parents the first queued match or is queued, as the ladder-block function says |
| Worker.AStarWorker.CheckPossibleLadder | minecraft/mods/ifw/pathfinding/AStarWorker.java:124-146 | the state moves as the as-written ladder function says: unchanged off a ladder; on a ladder both neighbours are processed, through fresh nodes above and below |
| Worker.AStarWorker.PollToClosed | minecraft/mods/ifw/pathfinding/AStarWorker.java:90 | the head of the open set leaves it and is appended to the closed list |
| Worker.AStarWorker.ShouldInterrupt | minecraft/mods/ifw/pathfinding/AStarWorker.java:62-64 | the budget can be spent only once some node has been expanded |
| Worker.AStarWorker.Table | minecraft/mods/ifw/pathfinding/AStarWorker.java:158 | the table getNextCandidates uses is one of the two move tables |
| Worker.AStarWorker.ExpandFrom | minecraft/mods/ifw/pathfinding/AStarWorker.java:92-93 | the ladder step then the passes out of the node just closed: the state moves as the ladder and passes functions say, through fresh candidates at their moves; the closed list is unchanged |
| Worker.AStarWorker.ExpandCurrent | minecraft/mods/ifw/pathfinding/AStarWorker.java:90-93 | one iteration body: the state advances by one iteration from the old head, and the closed list gains exactly that head |
| Worker.AStarWorker.ValidParentsClosed | minecraft/mods/ifw/pathfinding/AStarWorker.java:89-101 | in a valid state every queued or closed node other than `start` has a parent, and that parent is closed |
| Worker.AStarWorker.WalkLinked | minecraft/mods/ifw/pathfinding/AStarWorker.java:105-108 | when every parent link spans one move, so does every step of a parent walk from the head of the open set |
| Worker.AStarWorker.ReconstructPath | minecraft/mods/ifw/pathfinding/AStarWorker.java:103-111 | the parent walk from the reached node either ends at `start`, giving a path that begins at the reached node, ends at `start` and follows parent links, or is cut off once it provably repeats a node; such a walk never meets `start`, and every node on it after the first is closed |
| Worker.AStarWorker.Step | minecraft/mods/ifw/pathfinding/AStarWorker.java:89-99 | one loop iteration, recorded as the next state of the run; the closed list gains exactly the old head |
| Worker.AStarWorker.RunSearch | minecraft/mods/ifw/pathfinding/AStarWorker.java:84-101 | the loop of getPath: the states form a run from the seeded open set, one iteration per closed node; every state before the last had a non-empty open set whose head was not at `end` and an unspent budget, so the loop stops at the first head at `end`; it stops unreached iff the open set is empty or the budget is spent, and only after an expansion; when reached, the head is at `end`; when `start` is at `end`, nothing is expanded |
| Worker.AStarWorker.GetPath | minecraft/mods/ifw/pathfinding/AStarWorker.java:83-112 | null iff, after at least one expansion, the open set is empty or the budget is spent; `[start]` when `start` is at `end`; the run behind the result went on from no state whose head was at `end` or whose budget was spent, so the result comes from the first head at `end`; otherwise the path begins with the head (at `end`), ends with `start` and follows parent links, each step one move of the chosen table or one block up or down out of a ladder cell; a walk caught in a parent cycle is reported as such, never meets `start` and has the same one-move steps |

## Left out

- `run()`, `setup()`, the thread, the timing and printing, and the planner callbacks (lines 43-60, 74-81) are not modelled. `targetNode` is used only for the heuristic, which is also left out.
- The wall clock in `shouldInterrupt` (lines 62-64) is replaced by an expansion budget. The deadline formula of line 45 and `SEARCH_TIME_LIMIT` are replaced as well. `ShouldInterrupt` holds once more nodes have been closed than `timeLimit` allows. A clock only moves forward, so a threshold on elapsed work is its closest stand-in.
- The terrain queries `AStarStatic.isLadder`, `isViable` and `getBlockId` are given as the oracle `World`. `isViable` sees the candidate's cell and the move's vertical component, not the node object.
- The move tables `AStarStatic.candidates` and `candidates_allowdrops` are given to the constructor as sequences of offsets.
- `java.util.PriorityQueue` ordering is not modelled. The open set is a sequence: `offer` appends, and `peek` and `poll` both take the head. No claim is made about which node is expanded next, so no claim of minimal cost is made either. The iteration order of the open set inside `tryToUpdateExistingHeapNode` (lines 203-211) does not matter either: the open set holds each cell once (`Search.ValidState`), so by `Nodes.FirstMatchUnique` the first node at a cell is the only one.
- `AStarNode.java` is not part of this model. The node keeps only `x`, `y`, `z`, `g` and `parent`. Its cost on construction is the parent's cost plus the Manhattan length of the move. `h`, `f` and the target are left out. `setG(g, parent)` is assumed to overwrite both the cost and the parent without comparing costs (`Nodes.AStarNode.SetG`); the parent-cycle finding rests on this assumption.
- Cycles.CheckedRunDescends and Cycles.CheckedRunWalkEnds: proved only for a start seeded without a parent and a move table without the empty move `(0, 0, 0)`. The empty move can give a second closed node at the expanded node's own cell (the ladder step can close a cell twice) the expanded node as parent at the same cost, so costs would no longer fall strictly along parent links.
- Worker.AStarWorker.GetPath: where the source's parent walk at lines 105-108 would go round a cycle for ever, the model stops as soon as the walk is longer than the closed list plus one. It returns `Diverges` with a proof that the walk has repeated a node.
- Worker.AStarWorker.GetPath: requires a worker that has not searched before (empty open set and closed list). `run()` calls `getPath` once per worker.
- Worker.AStarWorker.RunSearch: the same requirement as GetPath.
- Java's 32-bit `int` overflow in coordinates and costs is not modelled: integers are unbounded.

## Findings

The `Worker` module follows the code as written. The corrected
definitions sit beside it in `Search` and `Cycles`, with the intended
properties proved about them.

| source | as written | input that shows it | evidently intended | confidence | as-written member | corrected member |
|---|---|---|---|---|---|---|
| minecraft/mods/ifw/pathfinding/AStarWorker.java:131-144 | each `if (isLadder(...)) ;` ends at its semicolon, so the block after it always runs | a ladder cell whose upper neighbour holds no ladder and is not queued: that neighbour is queued as a ladder step, with no viability check | process the cell above (below) only when it holds a ladder too | high; not executed | Search.LadderQueuesNonLadder | Search.GuardedLadderOnlyLadders |
| minecraft/mods/ifw/pathfinding/AStarWorker.java:164-173 | a closed node at a candidate's cell is re-parented to the expanded node whatever its cost (line 169), so the expanded node's own parent becomes its child; this assumes that `AStarNode.setG(g, parent)`, whose source is not among the modelled files, overwrites cost and parent without comparing costs, as `Nodes.AStarNode.SetG` does | a corridor of cells x = 0..3 with only the moves east and west, start at 0, end at 3: expanding x = 2 makes the nodes at x = 1 and x = 2 each other's parent, and the walk at lines 105-108 from x = 3 never meets the start | re-parent a closed node only on a strictly cheaper route, so costs fall along parent links and, from a start without a parent over a move table without the empty move, the walk always ends | medium (rests on the `setG` assumption); not executed | Cycles.CorridorCycle | Cycles.CheckedRunWalkEnds |
