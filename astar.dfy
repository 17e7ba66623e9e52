/**
 * A* search over the maze, guided by a heuristic `h(cell, goal)`. The open
 * set is a heap of `(f, tie, cell)` entries; an entry whose cell is already
 * closed is skipped when popped (lazy deletion). Every move costs 1.
 */
module AStar {
  import opened Grid
  import opened Mazes
  import opened SearchPaths
  import opened Heuristics
  import opened AStarState
  import opened AStarFrontier

  /**
   * Relaxes the open edges `current -> nbr` for the neighbours `nbrs` of the
   * just-closed `current`: a neighbour gets cost `g[current] + 1`, parent
   * `current` and a freshly stamped heap entry whenever it is new or that
   * cost is strictly better.
   */
  method RelaxNeighbors(ghost L: Layout, h: (Cell, Cell) -> int, ghost start: Cell, goal: Cell, current: Cell, nbrs: seq<Cell>,
                        heap: seq<Entry>, g: map<Cell, int>, parent: map<Cell, Cell>, tie: nat,
                        ghost closed: set<Cell>, ghost live: map<Cell, nat>)
    returns (heap': seq<Entry>, g': map<Cell, int>, parent': map<Cell, Cell>, tie': nat, ghost live': map<Cell, nat>)
    requires current in closed && forall y :: y in nbrs <==> Edge(L, current, y)
    requires Track(L, h, start, goal, heap, g, parent, closed, live, tie)
    ensures Track(L, h, start, goal, heap', g', parent', closed, live', tie')
    ensures RelaxedFrom(L, current, g, parent, g', parent')
    ensures forall y :: Edge(L, current, y) ==> y in g' && g'[y] <= g[current] + 1
    ensures forall v :: v in parent && v in g && g'[v] == g[v] ==> v in parent' && parent'[v] == parent[v]
    ensures tie <= tie' && |heap| <= |heap'| <= |heap| + |nbrs| && heap'[..|heap|] == heap
  {
    heap', g', parent', tie', live' := heap, g, parent, tie, live;
    RelaxStart(L, h, start, goal, current, nbrs, heap, g, parent, tie, closed, live);
    for i := 0 to |nbrs|
      invariant Relaxing(L, h, start, goal, current, nbrs, i, heap, g, parent, tie, closed, heap', g', parent', tie', live')
    {
      var nbr := nbrs[i];
      var tentative := g'[current] + 1;
      if nbr !in g' || tentative < g'[nbr] {
        var stamp := tie' + 1;
        var f := tentative + h(nbr, goal);
        RelaxImprove(L, h, start, goal, current, nbrs, i, heap, g, parent, tie, closed, heap', g', parent', tie', live',
                     tentative, f, stamp);
        g', parent' := g'[nbr := tentative], parent'[nbr := current];
        tie' := stamp;
        heap', live' := heap' + [Entry(f, tie', nbr)], live'[nbr := tie'];
      } else {
        RelaxSkip(L, h, start, goal, current, nbrs, i, heap, g, parent, tie, closed, heap', g', parent', tie', live');
      }
    }
    RelaxDone(L, h, start, goal, current, nbrs, heap, g, parent, tie, closed, heap', g', parent', tie', live');
  }

  /**
   * Expands the just-closed `current`: relaxes the edges to the neighbours
   * the maze lists, then raises the peak heap size to the new heap length.
   */
  method ExpandAStar(m: Maze, h: (Cell, Cell) -> int, current: Cell, heap: seq<Entry>, g: map<Cell, int>,
                     parent: map<Cell, Cell>, tie: nat, memory: nat, ghost closed: set<Cell>, ghost live: map<Cell, nat>,
                     ghost nodesExpanded: nat)
    returns (heap': seq<Entry>, g': map<Cell, int>, parent': map<Cell, Cell>, tie': nat, memory': nat,
             ghost live': map<Cell, nat>)
    requires m.Valid()
    requires Popped(m.View(), h, m.start, m.goal, heap, g, parent, closed, live, tie, current, nodesExpanded, memory)
    ensures Exploring(m.View(), h, m.start, m.goal, heap', g', parent', closed + {current}, live', tie', nodesExpanded, memory')
    ensures memory' == if memory >= |heap'| then memory else |heap'|
  {
    ghost var L := m.View();
    var nbrs := m.Neighbors(current);
    heap', g', parent', tie', live' := RelaxNeighbors(L, h, m.start, m.goal, current, nbrs, heap, g, parent, tie, closed + {current}, live);
    CloseCell(L, closed, g.Keys, g'.Keys, current);
    if Consistent(L, h, m.goal) {
      ExpandKeepsSettled(L, m.start, g, parent, g', closed, current);
    }
    memory' := if memory >= |heap'| then memory else |heap'|;
  }

  /**
   * The search loop: pops the least entry, skips it if its cell is already
   * closed, otherwise closes the cell, stops if it is the goal, and relaxes
   * its open edges. Returns the closed cells, the parent pointers, the costs
   * and the counters.
   */
  method AStarSearch(m: Maze, h: (Cell, Cell) -> int)
    returns (closed: set<Cell>, parent: map<Cell, Cell>, g: map<Cell, int>, nodesExpanded: nat, memory: nat)
    requires m.Valid()
    ensures ParentChain(m.View(), parent, g, m.start, g.Keys) && g[m.start] == 0 && closed <= g.Keys
    ensures m.goal !in closed ==> !Reachable(m.View(), m.start, m.goal)
    ensures Consistent(m.View(), h, m.goal) && m.goal in closed ==> NoShorter(m.View(), m.start, g, m.goal)
    ensures nodesExpanded == |closed| <= m.height * m.width
    ensures 1 <= memory <= 1 + 4 * nodesExpanded
  {
    ghost var L := m.View();
    var start, goal := m.start, m.goal;
    var heap := [Entry(h(start, goal), 0, start)];
    var tie := 0;
    g := map[start := 0];
    parent := map[];
    closed := {};
    nodesExpanded := 0;
    memory := 1;
    ghost var live: map<Cell, nat> := map[start := 0];
    ExploringStart(L, h, start, goal);
    while heap != []
      invariant Exploring(L, h, start, goal, heap, g, parent, closed, live, tie, nodesExpanded, memory)
      invariant goal !in closed
      decreases |CellSet(m.height, m.width) - closed|, |heap|
    {
      var i := MinIndex(heap);
      var current := heap[i].cell;
      PopKeepsExploring(L, h, start, goal, heap, g, parent, closed, live, tie, nodesExpanded, memory);
      heap := Without(heap, i);
      if current in closed {
        continue;
      }
      CellSetShrinks(m.height, m.width, closed, current);
      ghost var before := closed;
      closed := closed + {current};
      nodesExpanded := nodesExpanded + 1;
      if current == goal {
        PoppedFacts(L, h, start, goal, heap, g, parent, before, live, tie, current, nodesExpanded, memory);
        break;
      }
      heap, g, parent, tie, memory, live := ExpandAStar(m, h, current, heap, g, parent, tie, memory, before, live, nodesExpanded);
    }
    if goal !in closed {
      ExploringFacts(L, h, start, goal, heap, g, parent, closed, live, tie, nodesExpanded, memory);
      assert forall y :: y in g ==> y in closed;
      Unreachable(L, closed, start, goal);
    }
    assert closed <= CellSet(m.height, m.width);
    SubsetCard(closed, CellSet(m.height, m.width));
    CellCount(m.height, m.width);
  }

  /**
   * A* search from the maze's start to its goal. The path is empty exactly
   * when the goal cannot be reached; with a consistent heuristic no path
   * from start to goal is shorter.
   */
  method AStarSolve(m: Maze, h: (Cell, Cell) -> int) returns (res: SearchResult)
    requires m.Valid()
    ensures res.path != [] <==> Reachable(m.View(), m.start, m.goal)
    ensures res.path != [] ==> IsPathFromTo(m.View(), res.path, m.start, m.goal)
    ensures Consistent(m.View(), h, m.goal) ==>
              forall p :: IsPathFromTo(m.View(), p, m.start, m.goal) ==> |res.path| <= |p|
    ensures Consistent(m.View(), h, m.goal) && res.path != [] ==>
              forall p :: IsPathFromTo(m.View(), p, m.start, m.goal) ==> res.moves <= Moves(p)
    ensures res.moves == Moves(res.path)
    ensures res.nodesExpanded <= m.height * m.width
    ensures 1 <= res.memory <= 1 + 4 * res.nodesExpanded
  {
    var closed, parent, g, nodesExpanded, memory := AStarSearch(m, h);
    var path := [];
    if m.goal in closed {
      path := ReconstructPath(m.View(), parent, m.start, m.goal, g, g.Keys);
    }
    res := SearchResult(path, Moves(path), nodesExpanded, memory);
  }
}
