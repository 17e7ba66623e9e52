# Maze search, modelled and verified in Dafny

This project models the core of a small maze laboratory:

- the rectangular grid of per-cell wall flags (`Maze`);
- the recursive-backtracking maze generator with extra-wall injection;
- three frontier searches over a maze: depth-first, breadth-first and A* with the Manhattan heuristic;
- the walk that reads a path off a policy table.

Properties proved about the model:

- The walls of a maze stay symmetric.
- The generator builds a spanning tree, and extra walls only open passages.
- Every solver returns a path from start to goal exactly when the goal is reachable.
- BFS and A* with a consistent heuristic return a shortest path, and A* with Manhattan agrees with BFS.
- The policy walk terminates on every policy and returns the unique walk its stopping rules define.

Modules, one per source concern:

- `Wrappers`: `Option`, `Result` and `Outcome`.
- `Grid`: cells, directions, layouts as sets of open half-walls, paths, reachability and row-major enumeration.
- `Mazes`: the `Maze` class, whose wall table is an `array3<bool>` mirrored by a ghost set of open half-walls.
- `Generator`: a functional specification of carving and injection, plus the imperative generator proved equal to it.
- `SearchPaths`: the result record, parent chains, path reconstruction and the frontier bookkeeping shared by DFS and BFS.
- `Dfs`, `BfsLevels` and `Bfs`: the two uninformed searches.
- `Heuristics`: Manhattan distance and consistency.
- `AStarState`, `AStarFrontier` and `AStar`: the A* search state, its invariant lemmas and the search itself.
- `PathExtract`: the policy walk.
- `Agreement`: the three solvers run on one maze.

Randomness is an oracle `draw: nat -> nat`:

- `random.choice(xs)` with the k-th draw is `xs[draw(k) % |xs|]`;
- `random.randrange(n)` is `draw(k) % n`;
- each call uses the next index.

A fixed oracle therefore determines the generated maze: `Generator.GenerateMaze` produces the layout that the function `Generator.Generated` computes from the oracle.

The heap of A* is a sequence of `(f, tie, cell)` entries:

- a push appends an entry;
- a pop removes the entry with the least `(f, tie)` key.

Tie stamps strictly increase, so keys are distinct and the popped entry is the one `heapq` would pop.

Where the documented design and the code differ, the model follows the code:

- Extra-wall injection takes an integer number of random attempts (`extra_walls`), each of which opens the chosen wall only if the neighbour exists and the wall is still present. It is not an "openness" fraction of a shuffled candidate list.
- Carving always starts from (0, 0).
- `extract_path` reads the policy with `get`, so a missing entry stops the walk like a `None` entry.
- The A* optimality promise is proved for consistent heuristics (Manhattan is one). The Euclidean heuristic is not modelled.

## Model

| member | source | states |
|---|---|---|
| Grid.DirIndex | src/maze/maze.py:10-11 | the directions are enumerated in the fixed order N, E, S, W |
| Grid.Opposite | src/maze/maze.py:14-21 | the opposite direction's offset (`Grid.Delta`, the `DELTAS` table) is the negation of the direction's offset |
| Grid.OppositeIsInvolution | src/maze/maze.py:21 | `OPPOSITE` is an involution without fixed points |
| Grid.StepBack | src/maze/maze.py:14-21 | stepping in `d` and then in `OPPOSITE[d]` returns to the cell; a step always moves |
| Grid.Toward | src/maze/maze.py:14-19 | the direction from a cell to an adjacent cell is the one whose offset leads there; none exists for non-adjacent cells |
| Grid.TowardStep | src/maze/maze.py:14-19 | the direction found between a cell and its step in `d` is `d` |
| Grid.ParseDir | src/maze/maze.py:63-64 | a direction tag is accepted only as one of N, E, S, W |
| Grid.ParseDirTag | src/maze/maze.py:10-11 | every one of the four tags is accepted as its own direction |
| Grid.MateIsInvolution | src/maze/maze.py:74-77 | the wall seen from the neighbour's side, seen from the other side again, is the original wall |
| Grid.EdgeSymmetric | src/maze/maze.py:74-77 | with symmetric walls an open passage can be crossed both ways, and both ends are in bounds |
| Grid.OpenEdgeWellFormed | src/maze/maze.py:74-77 | removing a wall on both sides keeps the walls symmetric |
| Grid.OpenSteps | src/maze/maze.py:85-90 | the open in-bounds neighbours among the first `n` directions, in direction order |
| Grid.NeighborsOf | src/maze/maze.py:79-91 | exactly the in-bounds cells behind an open wall, in N, E, S, W order, without duplicates, at most four |
| Grid.RowMajor | src/maze/maze.py:93-96 | `height*width` cells, exactly the in-bounds ones, strictly increasing in row-major order |
| Grid.CellSet | src/maze/maze.py:93-96 | the set of in-bounds cells |
| Grid.CellCount | src/maze/maze.py:93-96 | there are exactly `height*width` in-bounds cells |
| Grid.PathMono | src/maze/generator.py:53-55 | opening more walls keeps every path a path |
| Grid.ReachableMono | src/maze/generator.py:53-55 | opening more walls never disconnects two cells |
| Grid.Unreachable | src/solvers/bfs.py:23-36 | a set containing the start, closed under open passages and missing the goal, shows that the goal is unreachable |
| Mazes.CheckConfig | src/maze/maze.py:31-48 | fails with the size error iff a dimension is non-positive, otherwise with the start error iff the start is out of bounds, otherwise with the goal error iff the goal is out of bounds; on success the goal is the given one or `(height-1, width-1)` |
| Mazes.DefaultConfigAccepted | src/maze/maze.py:35-36 | with the default start and goal every positive size is accepted, and the goal is the far corner |
| Mazes.Maze.Init | src/maze/maze.py:38-42 | a fresh wall table with every wall present |
| Mazes.Maze.New | src/maze/maze.py:31-48 | construction fails exactly as the configuration check does; otherwise the maze is valid, has every wall present and keeps the given size and start |
| Mazes.Maze.InBounds | src/maze/maze.py:50-52 | a cell is in bounds exactly when the row-major enumeration of all cells (`all_cells`) lists it |
| Mazes.Maze.HasWall | src/maze/maze.py:54-56 | the wall flag is set iff that half-wall is not open; an absent wall is a passage to the neighbour |
| Mazes.Maze.RemoveWall | src/maze/maze.py:58-77 | an unknown tag or an out-of-bounds neighbour fails and changes nothing; otherwise exactly the wall and its mirror are removed and symmetry is kept |
| Mazes.Maze.ClearHalfWall | src/maze/maze.py:75 | one flag is cleared, and the ghost record of open half-walls grows by that half-wall |
| Mazes.Maze.Neighbors | src/maze/maze.py:79-91 | returns exactly the open in-bounds neighbours in N, E, S, W order |
| Mazes.Maze.AllCells | src/maze/maze.py:93-96 | returns `height*width` distinct cells, every in-bounds cell, in row-major order |
| Generator.Options | src/maze/generator.py:25-32 | the options are exactly the unvisited in-bounds neighbours of the top, each paired with its direction |
| Generator.CarveStep | src/maze/generator.py:22-42 | each iteration visits one new cell or pops the stack without visiting, so the loop terminates |
| Generator.CarveStepCases | src/maze/generator.py:33-42 | an iteration pops only a dead end, and otherwise carves to an unvisited in-bounds neighbour, so `remove_wall` never fails while carving |
| Generator.Carve | src/maze/generator.py:22-42 | the backtracking loop ends with an empty stack |
| Generator.CarveUnfold | src/maze/generator.py:22-42 | the loop runs one more iteration while the stack is non-empty |
| Generator.Attempt | src/maze/generator.py:45-48 | an extra-wall attempt picks an in-bounds cell and a direction |
| Generator.InjectStep | src/maze/generator.py:50-55 | an attempt only opens walls; it opens one (both sides) only when the neighbour is in bounds and the wall is still present |
| Generator.InjectUnfold | src/maze/generator.py:45-55 | `n` attempts are one attempt followed by `n-1` more, three draws apart |
| Generator.Generated | src/maze/generator.py:10-57 | generation fails with the size error iff a dimension is non-positive, and otherwise yields a layout of that size |
| Generator.InitialInv | src/maze/generator.py:15-19 | the initial state: the origin on the stack and visited, and every wall present |
| Generator.CarveStepInv | src/maze/generator.py:22-42 | each iteration keeps the carving invariant: stack cells are visited, open walls are symmetric and join visited cells, there are `2*(visited-1)` open half-walls (a tree), one draw per carve, and every visited cell is connected to (0, 0) |
| Generator.CarvePopInv | src/maze/generator.py:41-42 | popping a dead end keeps the invariant |
| Generator.CarvePushInv | src/maze/generator.py:33-40 | carving to an unvisited neighbour keeps the invariant and adds exactly one passage |
| Generator.CarveKeeps | src/maze/generator.py:22-42 | the whole loop keeps the invariant |
| Generator.AllVisited | src/maze/generator.py:22-42 | when the stack is empty, every in-bounds cell is visited |
| Generator.CarveSpanningTree | src/maze/generator.py:22-42 | carving visits every cell, removes exactly `h*w-1` walls (both sides each), keeps the walls symmetric and connects every cell to (0, 0) |
| Generator.InjectKeeps | src/maze/generator.py:45-55 | the extra attempts (`Generator.Inject`, three oracle draws per attempt) never close a wall, keep the walls symmetric and open at most one wall each |
| Generator.GeneratedProperties | src/maze/generator.py:10-57 | a generated maze has symmetric walls and connects every cell to the origin and the default goal; with no extra attempts it is a perfect maze with `h*w-1` passages |
| Generator.CollectOptions | src/maze/generator.py:26-32 | the loop collects exactly the options of the specification, in direction order |
| Generator.CarvePassages | src/maze/generator.py:17-42 | the imperative loop leaves exactly the walls the functional carving computes open, and returns the number of draws it used |
| Generator.CarveChoice | src/maze/generator.py:34-40 | when the top has options, the drawn option is an in-bounds neighbour in its direction, and the step carves towards it and pushes it |
| Generator.CarveOnce | src/maze/generator.py:23-42 | one iteration on the maze is the functional iteration and makes progress |
| Generator.AddLoops | src/maze/generator.py:45-55 | the imperative attempts leave exactly the walls the functional injection computes open |
| Generator.OpenWall | src/maze/generator.py:37 | `remove_wall` as carving (and likewise each extra-wall attempt) calls it, with both cells in bounds, never fails and opens exactly that wall on both sides |
| Generator.TryOpen | src/maze/generator.py:46-55 | one imperative attempt is the functional attempt |
| Generator.GenerateMaze | src/maze/generator.py:10-57 | fails iff a dimension is non-positive; otherwise the maze starts at (0, 0), has its goal at the far corner, and has the layout the oracle determines |
| SearchPaths.ChainPath | src/solvers/dfs.py:40-47 | following parent pointers from a visited cell yields a path from start to that cell, no longer than its depth |
| SearchPaths.ReconstructPath | src/solvers/dfs.py:40-47 | the rebuilt path runs from start to goal through open passages, and has at most depth-of-goal moves |
| SearchPaths.ExhaustedUnreachable | src/solvers/dfs.py:23-41 | when the frontier empties without visiting the goal, the goal is unreachable |
| SearchPaths.DistinctCellsBound | src/solvers/dfs.py:25-26 | distinct in-bounds cells number at most `h*w` |
| SearchPaths.PopLast | src/solvers/dfs.py:24 | popping the top of the stack keeps the frontier bookkeeping |
| SearchPaths.PopFirst | src/solvers/bfs.py:24 | popping the head of the queue keeps the frontier bookkeeping |
| SearchPaths.CloseCell | src/solvers/dfs.py:31-35 | once all open neighbours of a cell are visited, the cell is closed |
| SearchPaths.SearchStart | src/solvers/dfs.py:14-21 | the initial state: only the start, visited and waiting in the frontier |
| SearchPaths.PopLastKeeps | src/solvers/dfs.py:24-26 | popping and counting the expansion keeps the search invariant |
| SearchPaths.PopFirstKeeps | src/solvers/bfs.py:24-25 | popping and counting the expansion keeps the search invariant |
| SearchPaths.Unvisited | src/solvers/dfs.py:31-35 | the neighbours a push loop appends are exactly those listed and not yet visited, each once, in neighbour order |
| SearchPaths.FrontierAppend | src/solvers/dfs.py:32-35 | visiting an unvisited open neighbour one level below `current`, with parent `current`, keeps the frontier bookkeeping |
| SearchPaths.PushStart | src/solvers/dfs.py:31 | before the first neighbour nothing is pushed and the bookkeeping holds |
| SearchPaths.PushSkip | src/solvers/dfs.py:32-33 | a neighbour already visited is skipped: nothing is pushed and the loop bookkeeping holds one position further |
| SearchPaths.PushAppend | src/solvers/dfs.py:32-35 | pushing an unvisited neighbour extends the pushed block by exactly that neighbour and keeps the loop bookkeeping |
| SearchPaths.PushDone | src/solvers/dfs.py:31-35 | after the last neighbour the pushed block is exactly the unvisited neighbours, each visited with parent `current` |
| SearchPaths.PushUnvisited | src/solvers/dfs.py:31-35 | exactly the unvisited open neighbours are visited and appended in neighbour order, each with parent `current` and depth one more; cells visited before keep their parent; every open neighbour is visited afterwards |
| SearchPaths.ExpandCell | src/solvers/dfs.py:31-37 | an expansion appends exactly the unvisited open neighbours in neighbour order, each with parent `current`, leaves the parents of cells visited before unchanged, keeps the search invariant, closes the cell, and sets memory to the maximum of itself and the frontier size |
| Dfs.DfsSearch | src/solvers/dfs.py:14-37 | the visited cells form a parent chain from the start; the goal is visited only if it was expanded last, otherwise it is unreachable; expansion order starts at the start and has no repeats; counters are bounded by `h*w` |
| Dfs.DfsSolve | src/solvers/dfs.py:8-59 | the path is non-empty iff the goal is reachable, runs from start to goal, and `moves` is its move count; every explored cell is reachable |
| BfsLevels.HeadIsNearest | src/solvers/bfs.py:23-34 | the head of the queue is at its shortest distance from the start |
| BfsLevels.QueueLevels | src/solvers/bfs.py:24-34 | after an expansion the queue holds cells at the level of the expanded cell or one deeper |
| BfsLevels.QueueSorted | src/solvers/bfs.py:23-34 | queue depths never decrease and span at most two consecutive levels |
| BfsLevels.HeadStepLevel | src/solvers/bfs.py:30-34 | a neighbour of the expanded cell is at most one level deeper |
| BfsLevels.StepLevels | src/solvers/bfs.py:30-34 | a neighbour of any expanded cell is at most one level deeper |
| BfsLevels.ExpandKeepsLevels | src/solvers/bfs.py:23-34 | an expansion keeps the level structure of the queue |
| Bfs.BfsSearch | src/solvers/bfs.py:14-36 | the visited cells form a parent chain whose depths are shortest distances at the goal; an unvisited goal is unreachable; counters are bounded by `h*w` |
| Bfs.BfsSolve | src/solvers/bfs.py:10-56 | the path is non-empty iff the goal is reachable, runs from start to goal, and no path from start to goal is shorter; `moves` is the least number of moves of any path from start to goal |
| Heuristics.Abs | src/solvers/astar.py:12 | the absolute value is non-negative and is `x` or `-x` |
| Heuristics.Manhattan | src/solvers/astar.py:11-12 | non-negative, and zero iff the cells are equal |
| Heuristics.ManhattanSymmetric | src/solvers/astar.py:11-12 | symmetric |
| Heuristics.ManhattanTriangle | src/solvers/astar.py:11-12 | obeys the triangle inequality |
| Heuristics.ManhattanStep | src/solvers/astar.py:11-12 | one step changes the distance to any target by exactly one |
| Heuristics.ManhattanConsistent | src/solvers/astar.py:11-12 | Manhattan distance is consistent on every maze |
| Heuristics.ConsistentAlongPath | src/solvers/astar.py:57 | along a path a consistent heuristic drops by at most the number of moves |
| Heuristics.ManhattanAdmissible | src/solvers/astar.py:11-12 | Manhattan distance never overestimates the moves to the goal |
| AStarState.MinIndex | src/solvers/astar.py:40 | the popped entry has a key no other entry is below |
| AStarState.MinIsUnique | src/solvers/astar.py:25 | with strictly increasing stamps the minimum key is unique, so the pop is determined |
| AStarState.Without | src/solvers/astar.py:40 | popping removes exactly one occurrence of that entry and keeps the others in order |
| AStarFrontier.TrackStart | src/solvers/astar.py:24-37 | the initial heap, `g` and stamps satisfy the search invariant |
| AStarFrontier.WithoutKeepsEntries | src/solvers/astar.py:40 | removing an entry keeps every remaining entry sound |
| AStarFrontier.WithoutKeepsLive | src/solvers/astar.py:40-44 | after the popped cell is closed, every open discovered cell still has its live entry |
| AStarFrontier.PopKeepsTrack | src/solvers/astar.py:40-45 | popping the least entry keeps the search invariant, whether its cell is skipped or closed |
| AStarFrontier.ExitCost | src/solvers/astar.py:39-58 | a path from the start first leaving the closed cells reaches a discovered cell with `g` no more than its position |
| AStarFrontier.BestFirstBound | src/solvers/astar.py:39-58 | with a consistent heuristic, a least-`f` open cell has `g` no more than the moves of any path to it |
| AStarFrontier.PoppedIsSettled | src/solvers/astar.py:40-45 | with a consistent heuristic, the first pop of a cell happens at its shortest distance |
| AStarFrontier.SettledNotImproved | src/solvers/astar.py:52 | a cell at its shortest distance is never strictly improved through a neighbour |
| AStarFrontier.RelaxKeepsDiscovered | src/solvers/astar.py:49-54 | recording `g[nbr] = g[current] + 1` and `parent[nbr] = current` on a strict improvement keeps the parent chain |
| AStarFrontier.PushKeepsStamps | src/solvers/astar.py:56-58 | a push with a fresh larger stamp keeps the stamps strictly increasing |
| AStarFrontier.RelaxKeepsEntries | src/solvers/astar.py:52-58 | the pushed entry has priority `g + h` and the next stamp, and keeps every entry sound |
| AStarFrontier.RelaxKeepsLive | src/solvers/astar.py:52-58 | the pushed entry is the live entry of the improved cell |
| AStarFrontier.RelaxKeepsTrack | src/solvers/astar.py:48-58 | a relaxation keeps the whole search invariant |
| AStarFrontier.RelaxedFromStart | src/solvers/astar.py:48 | before any relaxation nothing has changed |
| AStarFrontier.RelaxedFromStep | src/solvers/astar.py:52-54 | each relaxation records an improvement through `current` only |
| AStarFrontier.ExpandKeepsSettled | src/solvers/astar.py:44-58 | with a consistent heuristic, closed cells keep their shortest distances after an expansion |
| AStarFrontier.ExploringStart | src/solvers/astar.py:24-37 | the loop invariant holds before the first iteration |
| AStarFrontier.PopKeepsExploring | src/solvers/astar.py:40-45 | a pop either skips a closed cell or yields a new cell to close, with the counters kept |
| AStarFrontier.ExploringFacts | src/solvers/astar.py:39-60 | the loop state gives the parent chain, closure under neighbours, `nodes_expanded == len(closed_set)` and the memory bound |
| AStarFrontier.PoppedFacts | src/solvers/astar.py:44-47 | at the goal pop the parent chain holds, and under consistency the goal's `g` is shortest |
| AStarFrontier.RelaxStart | src/solvers/astar.py:48 | before the first neighbour nothing is relaxed and the bookkeeping holds |
| AStarFrontier.RelaxImprove | src/solvers/astar.py:49-58 | a neighbour reached strictly more cheaply through `current` gets the new `g`, parent `current` and a freshly stamped heap entry, keeping the loop bookkeeping |
| AStarFrontier.RelaxSkip | src/solvers/astar.py:49-52 | a neighbour that is not strictly improved is left alone, with the bookkeeping kept |
| AStarFrontier.RelaxDone | src/solvers/astar.py:48-58 | after the last neighbour every open neighbour of `current` has `g` at most `g[current] + 1` |
| AStar.RelaxNeighbors | src/solvers/astar.py:48-58 | relaxing all neighbours keeps the invariant; afterwards every neighbour has `g` at most `g[current] + 1`; a cell whose `g` was not strictly improved keeps its parent; the heap keeps its old entries in order and gains at most one per neighbour |
| AStar.ExpandAStar | src/solvers/astar.py:48-60 | an expansion closes the cell, keeps the invariant, and sets memory to the maximum of itself and the heap size |
| AStar.AStarSearch | src/solvers/astar.py:19-60 | each cell is expanded at most once (`nodes_expanded == len(closed_set)`); a goal left open is unreachable; a closed goal has shortest `g` under consistency |
| AStar.AStarSolve | src/solvers/astar.py:19-80 | the path is non-empty iff the goal is reachable and runs from start to goal; with a consistent heuristic it is a shortest path and `moves` is the least number of moves of any path from start to goal |
| PathExtract.ExtractPath | src/solvers/utils.py:5-22 | the walk terminates on any policy and returns distinct cells from `start`; each step follows the policy; it stops at the goal, at a missing or `None` move, or before a repeat; a goal in the output is last |
| PathExtract.Extend | src/solvers/utils.py:11 | appending the next cell keeps the walk distinct and policy-following |
| PathExtract.WalksAgree | src/solvers/utils.py:10-20 | two walks for the same policy agree position by position |
| PathExtract.ShorterWalk | src/solvers/utils.py:13-20 | no walk stops where another goes on |
| PathExtract.GoesOn | src/solvers/utils.py:13-20 | a walk does not stop at a cell it continues from |
| PathExtract.WalkIsUnique | src/solvers/utils.py:10-22 | the policy, start and goal determine the walk, so `ExtractPath` is a function of them |
| Agreement.SolveAll | src/solvers/astar.py:39-70 | on one maze all three solvers find a path together; BFS and A* with Manhattan return paths of equal length and moves; DFS needs at least as many moves |

## Left out

- Value iteration and policy iteration are not part of this model. They are floating-point fixed-point iterations. `PathExtract` takes their policy as an input map.
- The Euclidean heuristic is not modelled, because it needs a floating-point square root. A* takes any integer heuristic and is instantiated with Manhattan.
- Run-time measurements are not modelled: they read the wall clock.
- Rendering, the animation UI, experiment orchestration and the command-line menu are not part of this model.
- Python's `random` module is replaced by the draw oracle, and `heapq` by a sequence with minimum-key removal. The internal layout of the binary heap is not modelled.
- Mazes.Maze.HasWall: requires an in-bounds cell. In Python a negative index silently reads a wrapped row or column, and an index at or past `height` or `width` raises `IndexError`; neither is modelled. The direction is typed `Dir`, so the `KeyError` of an unknown direction cannot arise.
- Mazes.Maze.RemoveWall: requires an in-bounds `cell`. In Python a negative index of `cell` clears a wrapped wall entry when the neighbour is in bounds, and an index at or past `height` or `width` raises `IndexError`; neither is modelled.
- Mazes.Maze.Neighbors: requires an in-bounds cell, because it indexes the wall table the same way as `has_wall`, with the same negative-index wrap-around and `IndexError` left out.
- Mazes.Maze.AllCells: returns a sequence rather than a lazy generator.
- AStar.AStarSearch: bounds the peak heap size by `1 + 4 * nodes_expanded` rather than tracking its exact value between iterations. Each iteration still sets memory to the maximum of itself and the heap size.
- AStar.AStarSolve: proves shortest paths only for consistent heuristics, not for every heuristic. The Euclidean heuristic the program also supports is consistent too, but is not modelled.
- Dfs.DfsSolve: returns the explored set and the expansion order alongside the result record, instead of inside it.
