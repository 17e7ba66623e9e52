/**
 * The maze grid: a `height` x `width` grid of cells, each with four walls.
 * Removing a wall opens it on both sides of the shared edge. The wall array
 * is the concrete state; the ghost set `Open` of removed half-walls is its
 * abstraction and `View()` the value-level `Layout` every other module reasons
 * about.
 */
module Mazes {
  import opened Wrappers
  import opened Grid

  /** The errors maze construction and wall removal raise as `ValueError`. */
  datatype MazeError =
    | InvalidSize
    | StartOutOfBounds
    | GoalOutOfBounds
    | InvalidDirection
    | NeighborOutOfBounds

  /**
   * Validation done when a maze is created: the size is checked first, then
   * the start, then the goal, which defaults to the bottom-right corner.
   * On success the resolved goal is returned.
   */
  function CheckConfig(height: int, width: int, start: Cell, goal: Option<Cell>): (r: Result<Cell, MazeError>)
    ensures r.Success? ==> height > 0 && width > 0
    ensures r.Success? ==> Within(height, width, start) && Within(height, width, r.value)
    ensures r.Success? ==> r.value == goal.GetOr(Cell(height - 1, width - 1))
    ensures r == Failure(InvalidSize) <==> height <= 0 || width <= 0
    ensures r == Failure(StartOutOfBounds) <==> height > 0 && width > 0 && !Within(height, width, start)
    ensures r == Failure(GoalOutOfBounds) <==>
              height > 0 && width > 0 && Within(height, width, start)
              && !Within(height, width, goal.GetOr(Cell(height - 1, width - 1)))
  {
    if height <= 0 || width <= 0 then Failure(InvalidSize)
    else
      var g := goal.GetOr(Cell(height - 1, width - 1));
      if !Within(height, width, start) then Failure(StartOutOfBounds)
      else if !Within(height, width, g) then Failure(GoalOutOfBounds)
      else Success(g)
  }

  /** With the default start and goal every positive size is accepted. */
  lemma DefaultConfigAccepted(height: int, width: int)
    requires height > 0 && width > 0
    ensures CheckConfig(height, width, Cell(0, 0), None) == Success(Cell(height - 1, width - 1))
  {
  }

  class Maze {
    const height: int
    const width: int
    const start: Cell
    const goal: Cell
    /** `walls[r, c, k]` holds when cell (r, c) still has its wall on side `Dirs[k]`. */
    const walls: array3<bool>

    /** The removed half-walls: `(cell, d)` when `cell` has no wall on side `d`. */
    ghost var Open: set<(Cell, Dir)>

    ghost function View(): Layout
      reads this
    {
      Layout(height, width, Open)
    }

    ghost predicate Valid()
      reads this, walls
    {
      && height > 0 && width > 0
      && walls.Length0 == height && walls.Length1 == width && walls.Length2 == 4
      && Within(height, width, start) && Within(height, width, goal)
      && WellFormed(View())
      && Mirrors()
    }

    /** The wall array and `Open` describe the same walls. */
    ghost predicate Mirrors()
      reads this, walls
      requires walls.Length0 == height && walls.Length1 == width && walls.Length2 == 4
    {
      forall r, c, k :: 0 <= r < height && 0 <= c < width && 0 <= k < 4 ==>
        (walls[r, c, k] <==> (Cell(r, c), Dirs[k]) !in Open)
    }

    /** A grid with every wall present. */
    constructor Init(height: int, width: int, start: Cell, goal: Cell)
      requires height > 0 && width > 0
      requires Within(height, width, start) && Within(height, width, goal)
      ensures Valid() && fresh(walls)
      ensures Open == {}
      ensures this.height == height && this.width == width
      ensures this.start == start && this.goal == goal
    {
      this.height := height;
      this.width := width;
      this.start := start;
      this.goal := goal;
      walls := new bool[height, width, 4]((r, c, k) => true);
      Open := {};
    }

    /**
     * Creates a maze, or reports the first of: a non-positive size, a start
     * outside the grid, a goal outside the grid. A missing goal means the
     * bottom-right corner.
     */
    static method New(height: int, width: int, start: Cell, goal: Option<Cell>) returns (res: Result<Maze, MazeError>)
      ensures res.Failure? ==> CheckConfig(height, width, start, goal) == Failure(res.error)
      ensures res.Success? ==> CheckConfig(height, width, start, goal) == Success(res.value.goal)
      ensures res.Success? ==> fresh(res.value) && fresh(res.value.walls) && res.value.Valid()
      ensures res.Success? ==> res.value.Open == {}
      ensures res.Success? ==> res.value.height == height && res.value.width == width && res.value.start == start
    {
      var cfg := CheckConfig(height, width, start, goal);
      if cfg.Failure? {
        return Failure(cfg.error);
      }
      var m := new Maze.Init(height, width, start, cfg.value);
      return Success(m);
    }

    /** Whether `cell` lies inside the grid: exactly when the row-major enumeration of all cells lists it. */
    function InBounds(cell: Cell): (b: bool)
      ensures b <==> 0 <= cell.r < height && 0 <= cell.c < width
      ensures height >= 0 && width >= 0 ==> (b <==> cell in RowMajor(height, width))
    {
      Within(height, width, cell)
    }

    /** Whether the wall of `cell` on side `d` is still present. */
    function HasWall(cell: Cell, d: Dir): (b: bool)
      reads this, walls
      requires Valid() && Within(height, width, cell)
      ensures b <==> (cell, d) !in Open
      ensures !b ==> Edge(View(), cell, Step(cell, d))
    {
      TowardStep(cell, d);
      walls[cell.r, cell.c, DirIndex(d)]
    }

    /**
     * Removes the wall of `cell` on the side named by `tag` together with the
     * matching wall of the neighbour. Fails, changing nothing, when the tag
     * is not a direction or the neighbour is outside the grid.
     */
    method RemoveWall(cell: Cell, tag: string) returns (outcome: Outcome<MazeError>)
      requires Valid() && Within(height, width, cell)
      modifies this, walls
      ensures Valid()
      ensures ParseDir(tag).None? ==> outcome == Fail(InvalidDirection)
      ensures ParseDir(tag).Some? && !Within(height, width, Step(cell, ParseDir(tag).value)) ==>
                outcome == Fail(NeighborOutOfBounds)
      ensures ParseDir(tag).Some? && Within(height, width, Step(cell, ParseDir(tag).value)) ==>
                outcome == Pass
      ensures outcome.Pass? ==>
                var d := ParseDir(tag).value;
                Open == old(Open) + {(cell, d), (Step(cell, d), Opposite(d))}
      ensures outcome.Fail? ==> Open == old(Open) && unchanged(walls)
    {
      var parsed := ParseDir(tag);
      if parsed.None? {
        return Fail(InvalidDirection);
      }
      var d := parsed.value;
      var nb := Step(cell, d);
      if !Within(height, width, nb) {
        return Fail(NeighborOutOfBounds);
      }
      OpenEdgeWellFormed(View(), cell, d);
      ClearHalfWall(cell, d);
      ClearHalfWall(nb, Opposite(d));
      return Pass;
    }

    /** Clears one entry of the wall array and records the half-wall as open. */
    method ClearHalfWall(cell: Cell, d: Dir)
      requires walls.Length0 == height && walls.Length1 == width && walls.Length2 == 4
      requires Within(height, width, cell) && Mirrors()
      modifies this, walls
      ensures Mirrors() && Open == old(Open) + {(cell, d)}
    {
      var k1 := DirIndex(d);
      walls[cell.r, cell.c, k1] := false;
      Open := Open + {(cell, d)};
      forall r, c, k | 0 <= r < height && 0 <= c < width && 0 <= k < 4
        ensures walls[r, c, k] <==> (Cell(r, c), Dirs[k]) !in Open
      {
        if (r, c, k) != (cell.r, cell.c, k1) {
          assert walls[r, c, k] == old(walls[r, c, k]);
        }
      }
    }

    /** The cells reachable from `cell` in one step, in N, E, S, W order. */
    method Neighbors(cell: Cell) returns (result: seq<Cell>)
      requires Valid() && Within(height, width, cell)
      ensures result == NeighborsOf(View(), cell)
      ensures forall b :: b in result <==> Edge(View(), cell, b)
    {
      result := [];
      for k := 0 to 4
        invariant result == OpenSteps(View(), cell, k)
      {
        if !walls[cell.r, cell.c, k] {
          var next := Step(cell, Dirs[k]);
          if InBounds(next) {
            result := result + [next];
          }
        }
      }
    }

    /** Every cell of the grid, row by row. */
    method AllCells() returns (cells: seq<Cell>)
      requires Valid()
      ensures cells == RowMajor(height, width)
      ensures |cells| == height * width
      ensures forall x :: x in cells <==> InBounds(x)
      ensures forall i, j :: 0 <= i < j < |cells| ==> Before(cells[i], cells[j])
    {
      cells := [];
      for r := 0 to height
        invariant cells == RowMajor(r, width)
      {
        for c := 0 to width
          invariant cells == RowMajor(r, width) + Row(r, c)
        {
          cells := cells + [Cell(r, c)];
        }
      }
    }
  }
}
