/**
 * Maze generation by recursive backtracking from the top-left cell, followed
 * by a number of random attempts to open extra walls (which add loops).
 *
 * Randomness is an oracle `draw: nat -> nat`, the stream of numbers the
 * random source hands out: a random choice among `n` options made as the
 * `k`-th draw picks option `draw(k) % n`. The functions `Carve` and `Inject`
 * state what the generator computes for a given stream; `GenerateMaze` is
 * proved to produce exactly that layout, so the maze is a function of the
 * stream, and the lemmas below prove what the layout looks like.
 */
module Generator {
  import opened Wrappers
  import opened Grid
  import opened Mazes

  /** The cell the backtracker starts from. */
  const Origin: Cell := Cell(0, 0)

  /**
   * The in-bounds, not yet visited neighbours of `top` among the first `n`
   * directions, each with the direction leading to it.
   */
  function Options(height: nat, width: nat, top: Cell, visited: set<Cell>, n: nat): (r: seq<(Dir, Cell)>)
    requires n <= 4
    ensures forall o :: o in r ==> o.1 == Step(top, o.0) && Within(height, width, o.1) && o.1 !in visited
    ensures forall d :: DirIndex(d) < n && Within(height, width, Step(top, d)) && Step(top, d) !in visited ==>
              (d, Step(top, d)) in r
  {
    if n == 0 then []
    else
      var d := Dirs[n - 1];
      var nb := Step(top, d);
      Options(height, width, top, visited, n - 1)
        + (if Within(height, width, nb) && nb !in visited then [(d, nb)] else [])
  }

  /** The state of the backtracker: its stack, the visited cells, the open walls and the next draw. */
  datatype Carving = Carving(stack: seq<Cell>, visited: set<Cell>, open: set<(Cell, Dir)>, next: nat)

  /** The initial state: the origin on the stack and visited, every wall present. */
  function Initial(): Carving {
    Carving([Origin], {Origin}, {}, 0)
  }

  /** Backtracking: the top of the stack is dropped. */
  function Pop(s: Carving): Carving
    requires s.stack != []
  {
    s.(stack := s.stack[..|s.stack| - 1])
  }

  /** Carving from `top` towards `d`: the wall is removed, the neighbour visited and pushed, one draw used. */
  function Push(s: Carving, top: Cell, d: Dir): Carving {
    var nb := Step(top, d);
    Carving(s.stack + [nb], s.visited + {nb}, s.open + {(top, d), Mate((top, d))}, s.next + 1)
  }

  /**
   * One iteration of the backtracking loop. When the top of the stack has an
   * unvisited in-bounds neighbour, one of them is chosen by the next draw,
   * the wall between them is removed and the neighbour is visited and
   * pushed; otherwise the top is popped.
   */
  function CarveStep(height: nat, width: nat, draw: nat -> nat, s: Carving): (r: Carving)
    requires s.stack != []
    ensures || |CellSet(height, width) - r.visited| < |CellSet(height, width) - s.visited|
            || (r.visited == s.visited && |r.stack| < |s.stack|)
  {
    var top := s.stack[|s.stack| - 1];
    var options := Options(height, width, top, s.visited, 4);
    if options == [] then
      Pop(s)
    else
      var choice := options[draw(s.next) % |options|];
      assert choice in options;
      CellSetShrinks(height, width, s.visited, choice.1);
      Push(s, top, choice.0)
  }

  /**
   * A step either pops a top whose in-bounds neighbours are all visited, or
   * removes the wall to an unvisited in-bounds neighbour of the top, visits
   * it, pushes it and uses one draw.
   */
  lemma CarveStepCases(height: nat, width: nat, draw: nat -> nat, s: Carving)
    requires s.stack != []
    ensures var top := s.stack[|s.stack| - 1];
            var r := CarveStep(height, width, draw, s);
            || ((forall d :: Within(height, width, Step(top, d)) ==> Step(top, d) in s.visited) && r == Pop(s))
            || (exists d :: Within(height, width, Step(top, d)) && Step(top, d) !in s.visited && r == Push(s, top, d))
  {
    var top := s.stack[|s.stack| - 1];
    var options := Options(height, width, top, s.visited, 4);
    if options == [] {
      forall d | Within(height, width, Step(top, d)) ensures Step(top, d) in s.visited {
        assert (d, Step(top, d)) !in options;
      }
    } else {
      var choice := options[draw(s.next) % |options|];
      assert choice in options;
    }
  }

  /** When the top has options, the step takes the drawn one: an in-bounds neighbour, pushed. */
  lemma CarveChoice(height: nat, width: nat, draw: nat -> nat, s: Carving, options: seq<(Dir, Cell)>)
    requires s.stack != [] && options == Options(height, width, s.stack[|s.stack| - 1], s.visited, 4) && options != []
    ensures var choice := options[draw(s.next) % |options|];
            var top := s.stack[|s.stack| - 1];
            && choice.1 == Step(top, choice.0) && Within(height, width, choice.1)
            && CarveStep(height, width, draw, s) == Push(s, top, choice.0)
  {
    var choice := options[draw(s.next) % |options|];
    assert choice in options;
  }

  /** The backtracking loop run until the stack is empty. */
  function Carve(height: nat, width: nat, draw: nat -> nat, s: Carving): (r: Carving)
    ensures r.stack == []
    decreases |CellSet(height, width) - s.visited|, |s.stack|
  {
    if s.stack == [] then s else Carve(height, width, draw, CarveStep(height, width, draw, s))
  }

  lemma CarveUnfold(height: nat, width: nat, draw: nat -> nat, s: Carving)
    requires s.stack != []
    ensures Carve(height, width, draw, s) == Carve(height, width, draw, CarveStep(height, width, draw, s))
  {
  }

  /** The cell and side the extra-wall attempt drawing from position `k` picks. */
  function Attempt(height: nat, width: nat, draw: nat -> nat, k: nat): (a: (Cell, Dir))
    requires height > 0 && width > 0
    ensures Within(height, width, a.0)
  {
    (Cell(draw(k) % height, draw(k + 1) % width), Dirs[draw(k + 2) % 4])
  }

  /**
   * One extra-wall attempt: the chosen wall is removed only when the
   * neighbour behind it is in bounds and the wall is still present.
   */
  function InjectStep(height: nat, width: nat, draw: nat -> nat, open: set<(Cell, Dir)>, k: nat): (r: set<(Cell, Dir)>)
    requires height > 0 && width > 0
    ensures open <= r
    ensures r != open ==>
              var a := Attempt(height, width, draw, k);
              && Within(height, width, Step(a.0, a.1)) && a !in open
              && r == open + {a, Mate(a)}
  {
    var a := Attempt(height, width, draw, k);
    if Within(height, width, Step(a.0, a.1)) && a !in open then open + {a, Mate(a)} else open
  }

  /** `n` extra-wall attempts, the first drawing from position `k`; each attempt uses three draws. */
  function Inject(height: nat, width: nat, draw: nat -> nat, open: set<(Cell, Dir)>, k: nat, n: int): (r: set<(Cell, Dir)>)
    requires height > 0 && width > 0
    decreases n
  {
    if n <= 0 then open
    else Inject(height, width, draw, InjectStep(height, width, draw, open, k), k + 3, n - 1)
  }

  lemma InjectUnfold(height: nat, width: nat, draw: nat -> nat, open: set<(Cell, Dir)>, k: nat, n: int)
    requires height > 0 && width > 0 && n > 0
    ensures Inject(height, width, draw, open, k, n)
              == Inject(height, width, draw, InjectStep(height, width, draw, open, k), k + 3, n - 1)
  {
  }

  /** The layout the generator produces for a size, a draw stream and a number of extra attempts. */
  function Generated(height: int, width: int, draw: nat -> nat, extraWalls: int): (r: Result<Layout, MazeError>)
    ensures r.Failure? <==> height <= 0 || width <= 0
    ensures r.Failure? ==> r.error == InvalidSize
    ensures r.Success? ==> r.value.height == height && r.value.width == width
  {
    if height <= 0 || width <= 0 then Failure(InvalidSize)
    else
      var carved := Carve(height, width, draw, Initial());
      Success(Layout(height, width, Inject(height, width, draw, carved.open, carved.next, extraWalls)))
  }

  // ---------------------------------------------------------------------------
  // What the backtracker keeps true

  /**
   * The stack holds visited cells; visited cells are in bounds; every open
   * half-wall joins two visited cells and is matched on the other side; each
   * carve opened two half-walls and used one draw; a visited cell that has
   * left the stack has no unvisited in-bounds neighbour; and every visited
   * cell is connected to the origin through open walls.
   */
  ghost predicate CarveInv(height: nat, width: nat, s: Carving) {
    && Origin in s.visited
    && (forall x :: x in s.visited ==> Within(height, width, x))
    && (forall i :: 0 <= i < |s.stack| ==> s.stack[i] in s.visited)
    && (forall hw :: hw in s.open ==> hw.0 in s.visited && Step(hw.0, hw.1) in s.visited)
    && (forall hw {:trigger Mate(hw)} :: hw in s.open ==> Mate(hw) in s.open)
    && |s.open| == 2 * (|s.visited| - 1)
    && s.next == |s.visited| - 1
    && (forall x, d :: x in s.visited && x !in s.stack && Within(height, width, Step(x, d)) ==>
          Step(x, d) in s.visited)
    && (forall x :: x in s.visited ==> Reachable(Layout(height, width, s.open), Origin, x))
  }

  lemma InitialInv(height: nat, width: nat)
    requires height > 0 && width > 0
    ensures CarveInv(height, width, Initial())
  {
    var L := Layout(height, width, {});
    assert IsPathFromTo(L, [Origin], Origin, Origin);
  }

  lemma AddTwo<T>(S: set<T>, a: T, b: T)
    requires a !in S && b !in S && a != b
    ensures |S + {a, b}| == |S| + 2
  {
    assert S + {a, b} == (S + {a}) + {b};
  }

  lemma CarveStepInv(height: nat, width: nat, draw: nat -> nat, s: Carving)
    requires CarveInv(height, width, s) && s.stack != []
    ensures CarveInv(height, width, CarveStep(height, width, draw, s))
  {
    var r := CarveStep(height, width, draw, s);
    var top := s.stack[|s.stack| - 1];
    var options := Options(height, width, top, s.visited, 4);
    if options == [] {
      forall d | Within(height, width, Step(top, d)) ensures Step(top, d) in s.visited {
        assert (d, Step(top, d)) !in options;
      }
      CarvePopInv(height, width, s);
    } else {
      var choice := options[draw(s.next) % |options|];
      assert choice in options;
      CarvePushInv(height, width, s, top, choice.0);
    }
  }

  lemma CarvePopInv(height: nat, width: nat, s: Carving)
    requires CarveInv(height, width, s) && s.stack != []
    requires var top := s.stack[|s.stack| - 1];
             forall d :: Within(height, width, Step(top, d)) ==> Step(top, d) in s.visited
    ensures CarveInv(height, width, Pop(s))
  {
    var r := s.(stack := s.stack[..|s.stack| - 1]);
    var top := s.stack[|s.stack| - 1];
    assert s.stack == r.stack + [top];
    forall x, d | x in r.visited && x !in r.stack && Within(height, width, Step(x, d))
      ensures Step(x, d) in r.visited
    {
      if x != top {
        assert x !in s.stack;
      }
    }
  }

  lemma CarvePushInv(height: nat, width: nat, s: Carving, top: Cell, d: Dir)
    requires CarveInv(height, width, s) && s.stack != [] && top == s.stack[|s.stack| - 1]
    requires Within(height, width, Step(top, d)) && Step(top, d) !in s.visited
    ensures CarveInv(height, width, Push(s, top, d))
  {
    var nb := Step(top, d);
    var r := Carving(s.stack + [nb], s.visited + {nb}, s.open + {(top, d), Mate((top, d))}, s.next + 1);
    assert top in s.visited;
    StepBack(top, d);
    MateIsInvolution((top, d));
    // the two new half-walls are new: `nb` was not visited, so nothing open touches it
    assert (top, d) !in s.open;
    assert Mate((top, d)) !in s.open;
    AddTwo(s.open, (top, d), Mate((top, d)));
    assert |r.visited| == |s.visited| + 1;
    forall hw | hw in r.open ensures Mate(hw) in r.open {
      if hw in s.open {
        assert Mate(hw) in s.open;
      }
    }
    forall i | 0 <= i < |r.stack| ensures r.stack[i] in r.visited {
      if i < |s.stack| {
        assert r.stack[i] == s.stack[i];
      }
    }
    forall x, e | x in r.visited && x !in r.stack && Within(height, width, Step(x, e))
      ensures Step(x, e) in r.visited
    {
      assert nb in r.stack;
      forall i | 0 <= i < |s.stack| ensures s.stack[i] != x {
        assert r.stack[i] == s.stack[i];
      }
    }
    var L, L' := Layout(height, width, s.open), Layout(height, width, r.open);
    forall x | x in r.visited ensures Reachable(L', Origin, x) {
      if x in s.visited {
        ReachableMono(L, L', Origin, x);
      } else {
        ReachableMono(L, L', Origin, top);
        TowardStep(top, d);
        assert Edge(L', top, nb);
        ReachableStep(L', Origin, top, nb);
      }
    }
  }

  lemma {:induction false} CarveKeeps(height: nat, width: nat, draw: nat -> nat, s: Carving)
    requires CarveInv(height, width, s)
    ensures CarveInv(height, width, Carve(height, width, draw, s))
    decreases |CellSet(height, width) - s.visited|, |s.stack|
  {
    if s.stack != [] {
      CarveStepInv(height, width, draw, s);
      CarveKeeps(height, width, draw, CarveStep(height, width, draw, s));
    }
  }

  /** Once the stack is empty, every cell reached by stepping from the origin is visited. */
  lemma {:induction false} AllVisited(height: nat, width: nat, s: Carving, x: Cell)
    requires CarveInv(height, width, s) && s.stack == [] && Within(height, width, x)
    ensures x in s.visited
    decreases x.r + x.c
  {
    if x != Origin {
      var y := if x.r > 0 then Cell(x.r - 1, x.c) else Cell(x.r, x.c - 1);
      var d := if x.r > 0 then S else E;
      AllVisited(height, width, s, y);
      assert Step(y, d) == x;
    }
  }

  /**
   * The backtracker builds a spanning tree: it visits every cell, carves
   * exactly `height * width - 1` passages (two half-walls each, one draw
   * each), leaves the walls symmetric and connects every cell to the origin.
   */
  lemma CarveSpanningTree(height: nat, width: nat, draw: nat -> nat)
    requires height > 0 && width > 0
    ensures var r := Carve(height, width, draw, Initial());
            && r.visited == CellSet(height, width)
            && r.next == height * width - 1
            && |r.open| == 2 * (height * width - 1)
            && WellFormed(Layout(height, width, r.open))
            && forall x :: Within(height, width, x) ==> Reachable(Layout(height, width, r.open), Origin, x)
  {
    var r := Carve(height, width, draw, Initial());
    InitialInv(height, width);
    CarveKeeps(height, width, draw, Initial());
    forall x | Within(height, width, x) ensures x in r.visited {
      AllVisited(height, width, r, x);
    }
    assert r.visited == CellSet(height, width);
    CellCount(height, width);
  }

  /** Extra attempts only open walls, never close one, and keep the walls symmetric. */
  lemma {:induction false} InjectKeeps(height: nat, width: nat, draw: nat -> nat, open: set<(Cell, Dir)>, k: nat, n: int)
    requires height > 0 && width > 0 && WellFormed(Layout(height, width, open))
    ensures var r := Inject(height, width, draw, open, k, n);
            && open <= r
            && WellFormed(Layout(height, width, r))
            && |r| <= |open| + 2 * (if n > 0 then n else 0)
    decreases n
  {
    if n > 0 {
      var step := InjectStep(height, width, draw, open, k);
      var a := Attempt(height, width, draw, k);
      if step != open {
        OpenEdgeWellFormed(Layout(height, width, open), a.0, a.1);
        assert |step| <= |open| + 2 by {
          assert step == (open + {a}) + {Mate(a)};
        }
      }
      InjectKeeps(height, width, draw, step, k + 3, n - 1);
    }
  }

  /**
   * What a generated maze looks like: symmetric walls; every cell, the
   * default goal included, connected to the origin; the backtracker's
   * passages still open; and exactly `height * width - 1` passages when no
   * extra attempt is made (a perfect maze), at most `extraWalls` more
   * otherwise.
   */
  lemma GeneratedProperties(height: int, width: int, draw: nat -> nat, extraWalls: int)
    requires height > 0 && width > 0
    ensures var L := Generated(height, width, draw, extraWalls).value;
            && WellFormed(L)
            && (forall x :: Within(height, width, x) ==> Reachable(L, Origin, x))
            && Reachable(L, Origin, Cell(height - 1, width - 1))
            && Carve(height, width, draw, Initial()).open <= L.open
            && (extraWalls <= 0 ==> |L.open| == 2 * (height * width - 1))
            && |L.open| <= 2 * (height * width - 1) + 2 * (if extraWalls > 0 then extraWalls else 0)
  {
    var carved := Carve(height, width, draw, Initial());
    var L := Generated(height, width, draw, extraWalls).value;
    assert L.open == Inject(height, width, draw, carved.open, carved.next, extraWalls);
    CarveSpanningTree(height, width, draw);
    InjectKeeps(height, width, draw, carved.open, carved.next, extraWalls);
    forall x | Within(height, width, x) ensures Reachable(L, Origin, x) {
      ReachableMono(Layout(height, width, carved.open), L, Origin, x);
    }
    assert Within(height, width, Cell(height - 1, width - 1));
  }

  /** The unvisited in-bounds neighbours of `top`, each with its direction, in N, E, S, W order. */
  method CollectOptions(height: nat, width: nat, top: Cell, visited: set<Cell>) returns (options: seq<(Dir, Cell)>)
    ensures options == Options(height, width, top, visited, 4)
  {
    options := [];
    for k := 0 to 4
      invariant options == Options(height, width, top, visited, k)
    {
      var nb := Step(top, Dirs[k]);
      if 0 <= nb.r < height && 0 <= nb.c < width && nb !in visited {
        options := options + [(Dirs[k], nb)];
      }
    }
  }

  /**
   * The backtracking loop on a maze with every wall present: afterwards the
   * maze's open walls are those `Carve` describes, and `next` is the number
   * of draws used.
   */
  method CarvePassages(maze: Maze, draw: nat -> nat) returns (next: nat)
    requires maze.Valid() && maze.Open == {}
    modifies maze, maze.walls
    ensures maze.Valid()
    ensures var carved := Carve(maze.height, maze.width, draw, Initial());
            maze.Open == carved.open && next == carved.next
  {
    var height, width := maze.height, maze.width;
    ghost var carved := Carve(height, width, draw, Initial());
    var stack := [Origin];
    var visited := {Origin};
    next := 0;
    while stack != []
      invariant maze.Valid()
      invariant forall i :: 0 <= i < |stack| ==> Within(height, width, stack[i])
      invariant Carve(height, width, draw, Carving(stack, visited, maze.Open, next)) == carved
      decreases |CellSet(height, width) - visited|, |stack|
    {
      ghost var before := Carving(stack, visited, maze.Open, next);
      stack, visited, next := CarveOnce(maze, draw, stack, visited, next);
      CarveUnfold(height, width, draw, before);
    }
  }

  /** One iteration of the backtracking loop on the maze. */
  method CarveOnce(maze: Maze, draw: nat -> nat, stack: seq<Cell>, visited: set<Cell>, next: nat)
    returns (stack': seq<Cell>, visited': set<Cell>, next': nat)
    requires maze.Valid() && stack != []
    requires forall i :: 0 <= i < |stack| ==> Within(maze.height, maze.width, stack[i])
    modifies maze, maze.walls
    ensures maze.Valid()
    ensures forall i :: 0 <= i < |stack'| ==> Within(maze.height, maze.width, stack'[i])
    ensures Carving(stack', visited', maze.Open, next')
              == CarveStep(maze.height, maze.width, draw, Carving(stack, visited, old(maze.Open), next))
    ensures || |CellSet(maze.height, maze.width) - visited'| < |CellSet(maze.height, maze.width) - visited|
            || (visited' == visited && |stack'| < |stack|)
  {
    var height, width := maze.height, maze.width;
    var top := stack[|stack| - 1];
    ghost var s := Carving(stack, visited, maze.Open, next);
    ghost var r := CarveStep(height, width, draw, s);
    var options := CollectOptions(height, width, top, visited);
    if options != [] {
      var choice := options[draw(next) % |options|];
      CarveChoice(height, width, draw, s, options);
      OpenWall(maze, top, choice.0);
      stack', visited', next' := stack + [choice.1], visited + {choice.1}, next + 1;
    } else {
      stack', visited', next' := stack[..|stack| - 1], visited, next;
      assert r == Pop(s);
    }
    assert Carving(stack', visited', maze.Open, next') == r;
  }

  /**
   * `extraWalls` attempts to open a random wall, drawing from position
   * `next` on: afterwards the maze's open walls are those `Inject` describes.
   */
  method AddLoops(maze: Maze, draw: nat -> nat, next: nat, extraWalls: int)
    requires maze.Valid()
    modifies maze, maze.walls
    ensures maze.Valid()
    ensures maze.Open == Inject(maze.height, maze.width, draw, old(maze.Open), next, extraWalls)
  {
    var height, width := maze.height, maze.width;
    ghost var injected := Inject(height, width, draw, maze.Open, next, extraWalls);
    var k := next;
    var i := 0;
    while i < extraWalls
      invariant maze.Valid()
      invariant Inject(height, width, draw, maze.Open, k, extraWalls - i) == injected
      decreases extraWalls - i
    {
      ghost var before := maze.Open;
      TryOpen(maze, draw, k);
      InjectUnfold(height, width, draw, before, k, extraWalls - i);
      k := k + 3;
      i := i + 1;
    }
  }

  /** One extra-wall attempt on the maze, drawing from position `k`. */
  method TryOpen(maze: Maze, draw: nat -> nat, k: nat)
    requires maze.Valid()
    modifies maze, maze.walls
    ensures maze.Valid()
    ensures maze.Open == InjectStep(maze.height, maze.width, draw, old(maze.Open), k)
  {
    var height, width := maze.height, maze.width;
    var cell := Cell(draw(k) % height, draw(k + 1) % width);
    var d := Dirs[draw(k + 2) % 4];
    var nb := Step(cell, d);
    if 0 <= nb.r < height && 0 <= nb.c < width && maze.HasWall(cell, d) {
      OpenWall(maze, cell, d);
    }
  }

  /**
   * `remove_wall` as generation calls it: both cells are in bounds and the
   * tag is a direction's, so the call never fails and opens the wall on
   * both sides.
   */
  method OpenWall(maze: Maze, cell: Cell, d: Dir)
    requires maze.Valid() && Within(maze.height, maze.width, cell) && Within(maze.height, maze.width, Step(cell, d))
    modifies maze, maze.walls
    ensures maze.Valid()
    ensures maze.Open == old(maze.Open) + {(cell, d), Mate((cell, d))}
  {
    ParseDirTag(d);
    var outcome := maze.RemoveWall(cell, DirTag(d));
    assert outcome.Pass?;
  }

  /**
   * Generates a maze of the given size from the draw stream, then makes
   * `extraWalls` attempts to open a random wall. The result is exactly the
   * layout `Generated` describes.
   */
  method GenerateMaze(height: int, width: int, draw: nat -> nat, extraWalls: int) returns (res: Result<Maze, MazeError>)
    ensures res.Failure? <==> height <= 0 || width <= 0
    ensures res.Failure? ==> res.error == InvalidSize
    ensures res.Success? ==> fresh(res.value) && fresh(res.value.walls) && res.value.Valid()
    ensures res.Success? ==> res.value.start == Origin && res.value.goal == Cell(height - 1, width - 1)
    ensures res.Success? ==> Generated(height, width, draw, extraWalls) == Success(res.value.View())
  {
    var made := Maze.New(height, width, Origin, None);
    if made.Failure? {
      return Failure(made.error);
    }
    var maze := made.value;
    var next := CarvePassages(maze, draw);
    AddLoops(maze, draw, next, extraWalls);
    return Success(maze);
  }
}
