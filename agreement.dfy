/**
 * How the three solvers' answers relate on one maze: all of them find a
 * path exactly when the goal is reachable; breadth-first search and A* with
 * the Manhattan heuristic find paths of the same, shortest, length; the
 * path depth-first search finds is never shorter.
 */
module Agreement {
  import opened Grid
  import opened Mazes
  import opened SearchPaths
  import opened Heuristics
  import Dfs
  import Bfs
  import AStar

  /** Runs depth-first search, breadth-first search and A* (Manhattan) on the same maze. */
  method SolveAll(m: Maze) returns (dfs: SearchResult, bfs: SearchResult, astar: SearchResult)
    requires m.Valid()
    ensures dfs.path == [] <==> bfs.path == []
    ensures astar.path == [] <==> bfs.path == []
    ensures bfs.path == [] <==> !Reachable(m.View(), m.start, m.goal)
    ensures |astar.path| == |bfs.path| && astar.moves == bfs.moves
    ensures bfs.moves <= dfs.moves
    ensures astar.path != [] ==> IsPathFromTo(m.View(), astar.path, m.start, m.goal)
  {
    var explored, order;
    dfs, explored, order := Dfs.DfsSolve(m);
    bfs := Bfs.BfsSolve(m);
    astar := AStar.AStarSolve(m, Manhattan);
    ManhattanConsistent(m.View(), m.goal);
  }
}
