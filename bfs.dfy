/**
 * Breadth-first search with a FIFO queue. A cell is marked visited when it
 * is enqueued, so it is enqueued at most once; the search stops as soon as
 * the goal is dequeued. Because cells leave the queue in order of their
 * distance from the start, the path rebuilt from parent pointers is a
 * shortest one.
 */
module Bfs {
  import opened Grid
  import opened Mazes
  import opened SearchPaths
  import opened BfsLevels

  /**
   * The search loop: dequeues the oldest cell, stops if it is the goal, and
   * otherwise enqueues its unvisited open neighbours. Returns the visited
   * cells with parent pointers and the counters; `depth` is each visited
   * cell's level, exact for the goal when it is reached.
   */
  method BfsSearch(m: Maze) returns (visited: set<Cell>, parent: map<Cell, Cell>, nodesExpanded: nat, memory: nat,
                                     ghost depth: map<Cell, int>)
    requires m.Valid()
    ensures ParentChain(m.View(), parent, depth, m.start, visited) && depth[m.start] == 0
    ensures m.goal !in visited ==> !Reachable(m.View(), m.start, m.goal)
    ensures m.goal in visited ==> NoShorter(m.View(), m.start, depth, m.goal)
    ensures 1 <= nodesExpanded <= m.height * m.width
    ensures 1 <= memory <= m.height * m.width
  {
    ghost var L := m.View();
    var queue := [m.start];
    visited := {m.start};
    parent := map[];
    nodesExpanded := 0;
    memory := 1;
    ghost var expanded: set<Cell> := {};
    ghost var order: seq<Cell> := [];
    depth := map[m.start := 0];
    SearchStart(L, m.start);
    while queue != []
      invariant Searching(L, m.start, queue, visited, expanded, parent, depth, order, nodesExpanded, memory)
      invariant Closed(L, expanded, visited) && Leveled(L, m.start, queue, expanded, depth)
      invariant m.goal !in expanded
      decreases |CellSet(m.height, m.width) - expanded|
    {
      var current := queue[0];
      PopFirstKeeps(L, m.start, queue, visited, expanded, parent, depth, order, nodesExpanded, memory);
      HeadIsNearest(L, m.start, queue, visited, expanded, parent, depth, order, nodesExpanded, memory);
      ghost var q, before, closed, levels, links := queue, visited, expanded, depth, parent;
      queue := queue[1..];
      nodesExpanded := nodesExpanded + 1;
      order := order + [current];
      expanded := expanded + {current};
      if current == m.goal {
        break;
      }
      queue, visited, parent, memory, depth := ExpandCell(m, current, queue, visited, parent, memory, closed, depth, order, nodesExpanded);
      ExpandKeepsLevels(L, m.start, current, q, before, closed, links, levels, queue, visited, parent, depth);
    }
    DistinctCellsBound(L, order);
    if m.goal !in visited {
      ExhaustedUnreachable(L, m.start, m.goal, visited, expanded, parent, depth);
    }
  }

  /**
   * Breadth-first search from the maze's start to its goal. The path is
   * empty exactly when the goal cannot be reached, and otherwise no path
   * from start to goal is shorter.
   */
  method BfsSolve(m: Maze) returns (res: SearchResult)
    requires m.Valid()
    ensures res.path != [] <==> Reachable(m.View(), m.start, m.goal)
    ensures res.path != [] ==> IsPathFromTo(m.View(), res.path, m.start, m.goal)
    ensures forall p :: IsPathFromTo(m.View(), p, m.start, m.goal) ==> |res.path| <= |p|
    ensures res.path != [] ==> forall p :: IsPathFromTo(m.View(), p, m.start, m.goal) ==> res.moves <= Moves(p)
    ensures res.moves == Moves(res.path)
    ensures 1 <= res.nodesExpanded <= m.height * m.width
    ensures 1 <= res.memory <= m.height * m.width
  {
    var visited, parent, nodesExpanded, memory, depth := BfsSearch(m);
    var path := [];
    if m.goal in visited {
      path := ReconstructPath(m.View(), parent, m.start, m.goal, depth, visited);
    }
    res := SearchResult(path, Moves(path), nodesExpanded, memory);
  }
}
