/**
 * Depth-first search with an explicit stack. A cell is marked visited when
 * it is pushed, so it is pushed at most once; the search stops as soon as
 * the goal is popped, and the path is rebuilt from parent pointers.
 */
module Dfs {
  import opened Grid
  import opened Mazes
  import opened SearchPaths

  /**
   * The search loop: pops the most recently pushed cell, stops if it is the
   * goal, and otherwise pushes its unvisited open neighbours. Returns the
   * visited cells with their parent pointers, the counters and the cells in
   * the order they were expanded.
   */
  method DfsSearch(m: Maze) returns (visited: set<Cell>, parent: map<Cell, Cell>, nodesExpanded: nat, memory: nat,
                                     exploredOrder: seq<Cell>, ghost depth: map<Cell, int>)
    requires m.Valid()
    ensures ParentChain(m.View(), parent, depth, m.start, visited)
    ensures forall v :: v in visited ==> Within(m.height, m.width, v)
    ensures m.goal !in visited ==> !Reachable(m.View(), m.start, m.goal)
    ensures m.goal in visited <==> m.goal in exploredOrder
    ensures m.goal in exploredOrder ==> exploredOrder[|exploredOrder| - 1] == m.goal
    ensures exploredOrder != [] && exploredOrder[0] == m.start && Distinct(exploredOrder)
    ensures forall x :: x in exploredOrder ==> x in visited
    ensures nodesExpanded == |exploredOrder| <= m.height * m.width
    ensures 1 <= memory <= m.height * m.width
  {
    ghost var L := m.View();
    var stack := [m.start];
    visited := {m.start};
    parent := map[];
    nodesExpanded := 0;
    memory := 1;
    exploredOrder := [];
    ghost var expanded: set<Cell> := {};
    depth := map[m.start := 0];
    SearchStart(L, m.start);
    while stack != []
      invariant Searching(L, m.start, stack, visited, expanded, parent, depth, exploredOrder, nodesExpanded, memory)
      invariant Closed(L, expanded, visited) && m.goal !in expanded
      decreases |CellSet(m.height, m.width) - expanded|
    {
      var current := stack[|stack| - 1];
      PopLastKeeps(L, m.start, stack, visited, expanded, parent, depth, exploredOrder, nodesExpanded, memory);
      stack := stack[..|stack| - 1];
      nodesExpanded := nodesExpanded + 1;
      exploredOrder := exploredOrder + [current];
      ghost var closed := expanded;
      expanded := expanded + {current};
      if current == m.goal {
        break;
      }
      stack, visited, parent, memory, depth := ExpandCell(m, current, stack, visited, parent, memory, closed, depth, exploredOrder, nodesExpanded);
    }
    DistinctCellsBound(L, exploredOrder);
    if m.goal !in visited {
      ExhaustedUnreachable(L, m.start, m.goal, visited, expanded, parent, depth);
    }
  }

  /**
   * Depth-first search from the maze's start to its goal. Returns the result
   * record, the visited cells and the cells in the order they were expanded.
   */
  method DfsSolve(m: Maze) returns (res: SearchResult, explored: set<Cell>, exploredOrder: seq<Cell>)
    requires m.Valid()
    ensures res.path != [] <==> Reachable(m.View(), m.start, m.goal)
    ensures res.path != [] ==> IsPathFromTo(m.View(), res.path, m.start, m.goal)
    ensures res.moves == Moves(res.path)
    ensures res.nodesExpanded == |exploredOrder| <= m.height * m.width
    ensures 1 <= res.memory <= m.height * m.width
    ensures exploredOrder != [] && exploredOrder[0] == m.start && Distinct(exploredOrder)
    ensures forall x :: x in exploredOrder ==> x in explored
    ensures m.goal in exploredOrder <==> res.path != []
    ensures m.goal in exploredOrder ==> exploredOrder[|exploredOrder| - 1] == m.goal
    ensures m.start in explored && (m.goal in explored <==> res.path != [])
    ensures forall x :: x in explored ==> Reachable(m.View(), m.start, x)
  {
    var visited, parent, nodesExpanded, memory, order, depth := DfsSearch(m);
    var path := [];
    if m.goal in visited {
      path := ReconstructPath(m.View(), parent, m.start, m.goal, depth, visited);
    }
    forall x | x in visited ensures Reachable(m.View(), m.start, x) {
      var p := ChainPath(m.View(), parent, depth, m.start, visited, x);
    }
    explored, exploredOrder := visited, order;
    res := SearchResult(path, Moves(path), nodesExpanded, memory);
  }
}
