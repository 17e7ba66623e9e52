/**
 * The A* heuristic: the Manhattan distance between two cells, and what makes
 * a heuristic safe to guide A* on a maze (consistency, hence admissibility).
 */
module Heuristics {
  import opened Grid

  function Abs(x: int): (r: int)
    ensures r >= 0 && (r == x || r == -x)
  {
    if x < 0 then -x else x
  }

  /** The number of rows plus the number of columns separating `a` and `b`. */
  function Manhattan(a: Cell, b: Cell): (d: int)
    ensures d >= 0
    ensures d == 0 <==> a == b
  {
    Abs(a.r - b.r) + Abs(a.c - b.c)
  }

  lemma ManhattanSymmetric(a: Cell, b: Cell)
    ensures Manhattan(a, b) == Manhattan(b, a)
  {
  }

  lemma ManhattanTriangle(a: Cell, b: Cell, c: Cell)
    ensures Manhattan(a, c) <= Manhattan(a, b) + Manhattan(b, c)
  {
  }

  /** One step changes the distance to any target by exactly one. */
  lemma ManhattanStep(a: Cell, d: Dir, target: Cell)
    ensures var m, n := Manhattan(a, target), Manhattan(Step(a, d), target);
            n == m + 1 || n + 1 == m
  {
  }

  /**
   * A heuristic is consistent towards `goal` on a layout when crossing one
   * open edge lowers it by at most one, the cost of a move.
   */
  ghost predicate Consistent(L: Layout, h: (Cell, Cell) -> int, goal: Cell) {
    forall a, b :: Edge(L, a, b) ==> h(a, goal) <= h(b, goal) + 1
  }

  /** The Manhattan distance is consistent on every maze. */
  lemma ManhattanConsistent(L: Layout, goal: Cell)
    ensures Consistent(L, Manhattan, goal)
  {
    forall a, b | Edge(L, a, b) ensures Manhattan(a, goal) <= Manhattan(b, goal) + 1 {
      ManhattanStep(a, Toward(a, b).value, goal);
    }
  }

  /** Along a path, a consistent heuristic drops by at most the number of moves. */
  lemma {:induction false} ConsistentAlongPath(L: Layout, h: (Cell, Cell) -> int, goal: Cell, p: seq<Cell>)
    requires Consistent(L, h, goal) && IsPath(L, p)
    ensures h(p[0], goal) <= |p| - 1 + h(p[|p| - 1], goal)
    decreases |p|
  {
    if |p| > 1 {
      var q := p[1..];
      assert Edge(L, p[0], p[1]);
      forall i | 0 <= i < |q| - 1 ensures Edge(L, q[i], q[i + 1]) {
        assert Edge(L, p[i + 1], p[i + 2]);
      }
      ConsistentAlongPath(L, h, goal, q);
    }
  }

  /** The Manhattan distance to the goal never exceeds the moves of a path to it. */
  lemma ManhattanAdmissible(L: Layout, p: seq<Cell>, a: Cell, goal: Cell)
    requires IsPathFromTo(L, p, a, goal)
    ensures Manhattan(a, goal) <= |p| - 1
  {
    ManhattanConsistent(L, goal);
    ConsistentAlongPath(L, Manhattan, goal, p);
  }
}
