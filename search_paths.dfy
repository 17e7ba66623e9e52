/**
 * What the three frontier searches share: the result record they return and
 * the reconstruction of a path by following parent pointers back from the
 * goal.
 */
module SearchPaths {
  import opened Grid
  import opened Mazes

  /** A solver's answer: the path found (empty if none) and its metrics. Run time is not modelled. */
  datatype SearchResult = SearchResult(path: seq<Cell>, moves: int, nodesExpanded: nat, memory: nat)

  /** The number of moves along a path: one less than its length, and 0 for no path. */
  function Moves(path: seq<Cell>): (n: nat)
    ensures path != [] ==> n + 1 == |path|
    ensures path == [] ==> n == 0
  {
    if |path| > 0 then |path| - 1 else 0
  }

  /**
   * Parent pointers over the cells `S` that lead back to `start`: every cell
   * of `S` other than `start` has a parent in `S` one open step away, and
   * `rank` (the depth in the search tree) strictly drops from a cell to its
   * parent and never goes below the rank of `start`.
   */
  ghost predicate ParentChain(L: Layout, parent: map<Cell, Cell>, rank: map<Cell, int>, start: Cell, S: set<Cell>) {
    && start in S && start in rank && Within(L.height, L.width, start)
    && (forall v :: v in S ==> v in rank && rank[start] <= rank[v])
    && (forall v :: v in S && v != start ==>
          && v in parent && parent[v] in S
          && Edge(L, parent[v], v)
          && rank[parent[v]] < rank[v])
  }

  /** Every cell of a parent chain is reached from `start` in at most its rank's distance above `start`'s. */
  lemma {:induction false} ChainPath(L: Layout, parent: map<Cell, Cell>, rank: map<Cell, int>, start: Cell, S: set<Cell>, v: Cell)
    returns (p: seq<Cell>)
    requires ParentChain(L, parent, rank, start, S) && v in S
    ensures IsPathFromTo(L, p, start, v) && |p| - 1 <= rank[v] - rank[start]
    decreases rank[v] - rank[start]
  {
    if v == start {
      p := [start];
    } else {
      var q := ChainPath(L, parent, rank, start, S, parent[v]);
      PathSnoc(L, q, start, v);
      p := q + [v];
    }
  }

  /** No path from `start` to `x` has fewer than `dist[x]` moves. */
  ghost predicate NoShorter(L: Layout, start: Cell, dist: map<Cell, int>, x: Cell)
    requires x in dist
  {
    forall p :: IsPathFromTo(L, p, start, x) ==> dist[x] <= |p| - 1
  }

  /** The first position of a sequence that lies outside `E`, for a sequence that ends outside it. */
  lemma FirstOutside(p: seq<Cell>, E: set<Cell>) returns (j: nat)
    requires p != [] && p[|p| - 1] !in E
    ensures j < |p| && p[j] !in E && forall k :: 0 <= k < j ==> p[k] in E
  {
    j := 0;
    while p[j] in E
      invariant j < |p|
      invariant forall k :: 0 <= k < j ==> p[k] in E
      decreases |p| - j
    {
      j := j + 1;
    }
  }

  /**
   * Follows parent pointers from `goal` back to `start`, then reverses the
   * collected cells. The result is a path from `start` to `goal` with at most
   * `rank[goal] - rank[start]` moves.
   */
  method ReconstructPath(ghost L: Layout, parent: map<Cell, Cell>, start: Cell, goal: Cell,
                         ghost rank: map<Cell, int>, ghost S: set<Cell>) returns (path: seq<Cell>)
    requires ParentChain(L, parent, rank, start, S) && goal in S
    ensures IsPathFromTo(L, path, start, goal)
    ensures |path| - 1 <= rank[goal] - rank[start]
  {
    var rev := [];
    var cur := goal;
    while cur != start
      invariant cur in S
      invariant IsPathFromTo(L, [cur] + Reversed(rev), cur, goal)
      invariant |rev| <= rank[goal] - rank[cur]
      decreases rank[cur] - rank[start]
    {
      var prev := parent[cur];
      ReversedSnoc(rev, cur);
      PathCons(L, prev, [cur] + Reversed(rev), goal);
      rev := rev + [cur];
      cur := prev;
    }
    ReversedSnoc(rev, start);
    path := Reversed(rev + [start]);
  }

  /**
   * The bookkeeping of a search with a visited set: `visited` is connected to
   * `start` by parent pointers ranked by `rank`; it is made of the expanded
   * cells and the cells waiting in the frontier, which holds each cell once
   * and no expanded cell.
   */
  ghost predicate Frontier(L: Layout, start: Cell, frontier: seq<Cell>, visited: set<Cell>, expanded: set<Cell>,
                           parent: map<Cell, Cell>, rank: map<Cell, int>) {
    && ParentChain(L, parent, rank, start, visited)
    && (forall v :: v in visited ==> Within(L.height, L.width, v))
    && (forall i :: 0 <= i < |frontier| ==> frontier[i] in visited && frontier[i] !in expanded)
    && Distinct(frontier)
    && expanded <= visited
    && (forall v :: v in visited ==> v in expanded || v in frontier)
  }

  /** Every open neighbour of an expanded cell has been visited. */
  ghost predicate Closed(L: Layout, expanded: set<Cell>, visited: set<Cell>) {
    forall x, y :: x in expanded && Edge(L, x, y) ==> y in visited
  }

  /** A search whose frontier ran empty without visiting `goal` proves `goal` unreachable. */
  lemma ExhaustedUnreachable(L: Layout, start: Cell, goal: Cell, visited: set<Cell>, expanded: set<Cell>,
                             parent: map<Cell, Cell>, rank: map<Cell, int>)
    requires Frontier(L, start, [], visited, expanded, parent, rank) && Closed(L, expanded, visited)
    requires goal !in visited
    ensures !Reachable(L, start, goal)
  {
    Unreachable(L, visited, start, goal);
  }

  /** A sequence of distinct in-bounds cells has at most `height * width` elements. */
  lemma DistinctCellsBound(L: Layout, s: seq<Cell>)
    requires L.height >= 0 && L.width >= 0
    requires Distinct(s) && forall x :: x in s ==> Within(L.height, L.width, x)
    ensures |s| <= L.height * L.width
  {
    DistinctWithin(s, CellSet(L.height, L.width));
    CellCount(L.height, L.width);
  }

  /** Removing the last element keeps a sequence's elements distinct and drops exactly that element. */
  lemma DropLast(s: seq<Cell>)
    requires s != [] && Distinct(s)
    ensures var t := s[..|s| - 1];
            Distinct(t) && s[|s| - 1] !in t && forall x :: x in s <==> x in t || x == s[|s| - 1]
  {
    var t := s[..|s| - 1];
    forall i | 0 <= i < |t| ensures t[i] != s[|s| - 1] {
      assert t[i] == s[i];
    }
    forall x | x in s ensures x in t || x == s[|s| - 1] {
      var i :| 0 <= i < |s| && s[i] == x;
      if i < |s| - 1 {
        assert t[i] == x;
      }
    }
  }

  /** Expanding the last frontier cell keeps the bookkeeping. */
  lemma PopLast(L: Layout, start: Cell, frontier: seq<Cell>, visited: set<Cell>, expanded: set<Cell>,
                parent: map<Cell, Cell>, rank: map<Cell, int>)
    requires Frontier(L, start, frontier, visited, expanded, parent, rank) && frontier != []
    ensures var x := frontier[|frontier| - 1];
            && x !in expanded && Within(L.height, L.width, x)
            && Frontier(L, start, frontier[..|frontier| - 1], visited, expanded + {x}, parent, rank)
  {
    DropLast(frontier);
    var t := frontier[..|frontier| - 1];
    forall i | 0 <= i < |t| ensures t[i] == frontier[i] {
    }
  }

  /** Once all open neighbours of `x` are visited, `x` joins the closed expanded cells. */
  lemma CloseCell(L: Layout, expanded: set<Cell>, visited: set<Cell>, visited': set<Cell>, x: Cell)
    requires Closed(L, expanded, visited) && visited <= visited'
    requires forall y :: Edge(L, x, y) ==> y in visited'
    ensures Closed(L, expanded + {x}, visited')
  {
  }

  /** Removing the first element keeps a sequence's elements distinct and drops exactly that element. */
  lemma DropFirst(s: seq<Cell>)
    requires s != [] && Distinct(s)
    ensures var t := s[1..];
            Distinct(t) && s[0] !in t && forall x :: x in s <==> x in t || x == s[0]
  {
    var t := s[1..];
    forall i | 0 <= i < |t| ensures t[i] != s[0] {
      assert t[i] == s[i + 1];
    }
    forall x | x in s ensures x in t || x == s[0] {
      var i :| 0 <= i < |s| && s[i] == x;
      if i > 0 {
        assert t[i - 1] == x;
      }
    }
  }

  /** Expanding the first frontier cell keeps the bookkeeping. */
  lemma PopFirst(L: Layout, start: Cell, frontier: seq<Cell>, visited: set<Cell>, expanded: set<Cell>,
                 parent: map<Cell, Cell>, rank: map<Cell, int>)
    requires Frontier(L, start, frontier, visited, expanded, parent, rank) && frontier != []
    ensures var x := frontier[0];
            && x !in expanded && Within(L.height, L.width, x)
            && Frontier(L, start, frontier[1..], visited, expanded + {x}, parent, rank)
  {
    DropFirst(frontier);
    var t := frontier[1..];
    forall i | 0 <= i < |t| ensures t[i] == frontier[i + 1] {
    }
  }

  /**
   * The bookkeeping a search loop keeps between iterations: the frontier
   * invariant, `depth` counting from 0 at `start`, the expanded cells listed
   * once each in expansion order starting with `start`, the expansion
   * counter, and the peak frontier size, which never exceeds the number of
   * cells.
   */
  ghost predicate Searching(L: Layout, start: Cell, frontier: seq<Cell>, visited: set<Cell>, expanded: set<Cell>,
                            parent: map<Cell, Cell>, depth: map<Cell, int>,
                            order: seq<Cell>, nodesExpanded: nat, memory: nat)
  {
    && Frontier(L, start, frontier, visited, expanded, parent, depth)
    && depth[start] == 0
    && Distinct(order) && (forall x :: x in order <==> x in expanded)
    && (order == [] ==> frontier == [start])
    && (order != [] ==> order[0] == start)
    && nodesExpanded == |order|
    && 1 <= memory <= L.height * L.width && |frontier| <= memory
  }

  /** The state before the first iteration: only `start`, waiting in the frontier. */
  lemma SearchStart(L: Layout, start: Cell)
    requires Within(L.height, L.width, start)
    ensures Searching(L, start, [start], {start}, {}, map[], map[start := 0], [], 0, 1)
    ensures Closed(L, {}, {start})
  {
    assert 1 <= L.height * L.width by {
      CellCount(L.height, L.width);
      assert start in CellSet(L.height, L.width);
    }
  }

  /** Popping the last frontier cell (a stack) and counting it as expanded. */
  lemma PopLastKeeps(L: Layout, start: Cell, frontier: seq<Cell>, visited: set<Cell>, expanded: set<Cell>,
                     parent: map<Cell, Cell>, depth: map<Cell, int>, order: seq<Cell>, nodesExpanded: nat, memory: nat)
    requires Searching(L, start, frontier, visited, expanded, parent, depth, order, nodesExpanded, memory)
    requires frontier != []
    ensures var x := frontier[|frontier| - 1];
            && x !in expanded && x in visited
            && Searching(L, start, frontier[..|frontier| - 1], visited, expanded + {x}, parent, depth,
                         order + [x], nodesExpanded + 1, memory)
            && |CellSet(L.height, L.width) - (expanded + {x})| < |CellSet(L.height, L.width) - expanded|
  {
    var x := frontier[|frontier| - 1];
    PopLast(L, start, frontier, visited, expanded, parent, depth);
    CellSetShrinks(L.height, L.width, expanded, x);
    assert (order + [x])[0] == if order == [] then x else order[0];
  }

  /** Popping the first frontier cell (a queue) and counting it as expanded. */
  lemma PopFirstKeeps(L: Layout, start: Cell, frontier: seq<Cell>, visited: set<Cell>, expanded: set<Cell>,
                      parent: map<Cell, Cell>, depth: map<Cell, int>, order: seq<Cell>, nodesExpanded: nat, memory: nat)
    requires Searching(L, start, frontier, visited, expanded, parent, depth, order, nodesExpanded, memory)
    requires frontier != []
    ensures var x := frontier[0];
            && x !in expanded && x in visited
            && Searching(L, start, frontier[1..], visited, expanded + {x}, parent, depth,
                         order + [x], nodesExpanded + 1, memory)
            && |CellSet(L.height, L.width) - (expanded + {x})| < |CellSet(L.height, L.width) - expanded|
  {
    var x := frontier[0];
    PopFirst(L, start, frontier, visited, expanded, parent, depth);
    CellSetShrinks(L.height, L.width, expanded, x);
    assert (order + [x])[0] == if order == [] then x else order[0];
  }

  /**
   * The cells a scan of `nbrs[..n]` appends: each neighbour that is neither
   * in `visited` nor appended earlier in the scan, in the order of `nbrs`.
   */
  function Unvisited(nbrs: seq<Cell>, visited: set<Cell>, n: nat): (r: seq<Cell>)
    requires n <= |nbrs|
    ensures forall x :: x in r <==> x in nbrs[..n] && x !in visited
    ensures Distinct(r)
  {
    if n == 0 then []
    else
      var p := Unvisited(nbrs, visited, n - 1);
      assert nbrs[..n] == nbrs[..n - 1] + [nbrs[n - 1]];
      if nbrs[n - 1] in visited || nbrs[n - 1] in p then p else p + [nbrs[n - 1]]
  }

  /**
   * The state of `PushUnvisited` once it has scanned `nbrs[..i]`: it appended
   * `pushed`, the cells `Unvisited` names, to `frontier`, each visited with
   * parent `current` one level below it, and kept the depth of every cell
   * visited before.
   */
  ghost predicate Pushing(L: Layout, start: Cell, current: Cell, nbrs: seq<Cell>, i: nat,
                          frontier: seq<Cell>, visited: set<Cell>, expanded: set<Cell>, depth: map<Cell, int>,
                          frontier': seq<Cell>, visited': set<Cell>, parent': map<Cell, Cell>, depth': map<Cell, int>,
                          pushed: seq<Cell>)
  {
    && i <= |nbrs| && current in visited
    && Frontier(L, start, frontier', visited', expanded, parent', depth')
    && visited <= visited' && frontier' == frontier + pushed
    && (forall j :: 0 <= j < i ==> nbrs[j] in visited')
    && (forall v :: v in visited ==> v in depth && v in depth' && depth'[v] == depth[v])
    && pushed == Unvisited(nbrs, visited, i)
    && (forall x :: x in visited' ==> x in visited || x in pushed)
    && (forall x :: x in pushed ==>
          && x !in visited && Edge(L, current, x)
          && x in depth' && depth'[x] == depth[current] + 1
          && x in parent' && parent'[x] == current)
  }

  /** Before the scan nothing is appended. */
  lemma PushStart(L: Layout, start: Cell, current: Cell, nbrs: seq<Cell>, frontier: seq<Cell>, visited: set<Cell>,
                  expanded: set<Cell>, parent: map<Cell, Cell>, depth: map<Cell, int>)
    requires Frontier(L, start, frontier, visited, expanded, parent, depth) && current in expanded
    ensures Pushing(L, start, current, nbrs, 0, frontier, visited, expanded, depth, frontier, visited, parent, depth, [])
  {
    assert frontier + [] == frontier;
  }

  /** A neighbour already visited is skipped. */
  lemma PushSkip(L: Layout, start: Cell, current: Cell, nbrs: seq<Cell>, i: nat,
                 frontier: seq<Cell>, visited: set<Cell>, expanded: set<Cell>, depth: map<Cell, int>,
                 frontier': seq<Cell>, visited': set<Cell>, parent': map<Cell, Cell>, depth': map<Cell, int>,
                 pushed: seq<Cell>)
    requires Pushing(L, start, current, nbrs, i, frontier, visited, expanded, depth, frontier', visited', parent', depth', pushed)
    requires i < |nbrs| && nbrs[i] in visited'
    ensures Pushing(L, start, current, nbrs, i + 1, frontier, visited, expanded, depth, frontier', visited', parent', depth', pushed)
  {
  }

  /** A neighbour not yet visited is visited, given parent `current` and appended. */
  lemma PushAppend(L: Layout, start: Cell, current: Cell, nbrs: seq<Cell>, i: nat,
                   frontier: seq<Cell>, visited: set<Cell>, expanded: set<Cell>, depth: map<Cell, int>,
                   frontier': seq<Cell>, visited': set<Cell>, parent': map<Cell, Cell>, depth': map<Cell, int>,
                   pushed: seq<Cell>, level: int)
    requires Pushing(L, start, current, nbrs, i, frontier, visited, expanded, depth, frontier', visited', parent', depth', pushed)
    requires current in expanded && forall y :: y in nbrs <==> Edge(L, current, y)
    requires i < |nbrs| && nbrs[i] !in visited' && level == depth[current] + 1
    ensures var y := nbrs[i];
            Pushing(L, start, current, nbrs, i + 1, frontier, visited, expanded, depth,
                    frontier' + [y], visited' + {y}, parent'[y := current], depth'[y := level], pushed + [y])
  {
    var y := nbrs[i];
    assert y in nbrs;
    FrontierAppend(L, start, frontier', visited', expanded, parent', depth', current, y, level);
    assert (frontier + pushed) + [y] == frontier + (pushed + [y]);
  }

  /** Visiting `y` from `current`, one level below it, and appending it keeps the bookkeeping. */
  lemma FrontierAppend(L: Layout, start: Cell, frontier: seq<Cell>, visited: set<Cell>, expanded: set<Cell>,
                       parent: map<Cell, Cell>, depth: map<Cell, int>, current: Cell, y: Cell, level: int)
    requires Frontier(L, start, frontier, visited, expanded, parent, depth)
    requires current in visited && y !in visited && Edge(L, current, y) && level == depth[current] + 1
    ensures Frontier(L, start, frontier + [y], visited + {y}, expanded, parent[y := current], depth[y := level])
  {
    forall k | 0 <= k < |frontier| ensures (frontier + [y])[k] != y {
      assert (frontier + [y])[k] == frontier[k];
    }
  }

  /**
   * Appends every not yet visited neighbour of the expanded cell `current`,
   * in the order given, marking it visited with `current` as its parent and
   * one more than the depth of `current`.
   */
  method PushUnvisited(ghost L: Layout, ghost start: Cell, current: Cell, nbrs: seq<Cell>,
                       frontier: seq<Cell>, visited: set<Cell>, parent: map<Cell, Cell>,
                       ghost expanded: set<Cell>, ghost depth: map<Cell, int>)
    returns (frontier': seq<Cell>, visited': set<Cell>, parent': map<Cell, Cell>, ghost depth': map<Cell, int>)
    requires Frontier(L, start, frontier, visited, expanded, parent, depth)
    requires current in expanded && forall y :: y in nbrs <==> Edge(L, current, y)
    ensures Frontier(L, start, frontier', visited', expanded, parent', depth')
    ensures visited <= visited' && |frontier| <= |frontier'| && frontier'[..|frontier|] == frontier
    ensures forall y :: Edge(L, current, y) ==> y in visited'
    ensures forall v :: v in visited ==> depth'[v] == depth[v]
    ensures forall i :: |frontier| <= i < |frontier'| ==>
              frontier'[i] !in visited && Edge(L, current, frontier'[i]) && depth'[frontier'[i]] == depth[current] + 1
    ensures frontier'[|frontier|..] == Unvisited(nbrs, visited, |nbrs|)
    ensures forall i :: |frontier| <= i < |frontier'| ==> frontier'[i] in parent' && parent'[frontier'[i]] == current
    ensures forall v :: v in visited && v in parent ==> v in parent' && parent'[v] == parent[v]
  {
    frontier', visited', parent', depth' := frontier, visited, parent, depth;
    ghost var pushed: seq<Cell> := [];
    PushStart(L, start, current, nbrs, frontier, visited, expanded, parent, depth);
    for i := 0 to |nbrs|
      invariant Pushing(L, start, current, nbrs, i, frontier, visited, expanded, depth, frontier', visited', parent', depth', pushed)
      invariant forall v :: v in visited && v in parent ==> v in parent' && parent'[v] == parent[v]
    {
      var nbr := nbrs[i];
      if nbr !in visited' {
        ghost var level := depth[current] + 1;
        PushAppend(L, start, current, nbrs, i, frontier, visited, expanded, depth, frontier', visited', parent', depth', pushed, level);
        visited' := visited' + {nbr};
        parent' := parent'[nbr := current];
        frontier' := frontier' + [nbr];
        depth' := depth'[nbr := level];
        pushed := pushed + [nbr];
      } else {
        PushSkip(L, start, current, nbrs, i, frontier, visited, expanded, depth, frontier', visited', parent', depth', pushed);
      }
    }
    PushDone(L, start, current, nbrs, frontier, visited, expanded, depth, frontier', visited', parent', depth', pushed);
  }

  /** What the finished scan has done, read off its state. */
  lemma PushDone(L: Layout, start: Cell, current: Cell, nbrs: seq<Cell>,
                 frontier: seq<Cell>, visited: set<Cell>, expanded: set<Cell>, depth: map<Cell, int>,
                 frontier': seq<Cell>, visited': set<Cell>, parent': map<Cell, Cell>, depth': map<Cell, int>,
                 pushed: seq<Cell>)
    requires Pushing(L, start, current, nbrs, |nbrs|, frontier, visited, expanded, depth, frontier', visited', parent', depth', pushed)
    requires forall y :: y in nbrs <==> Edge(L, current, y)
    ensures visited <= visited' && |frontier| <= |frontier'| && frontier'[..|frontier|] == frontier
    ensures forall y :: Edge(L, current, y) ==> y in visited'
    ensures forall v :: v in visited ==> depth'[v] == depth[v]
    ensures forall i :: |frontier| <= i < |frontier'| ==>
              && frontier'[i] !in visited && Edge(L, current, frontier'[i]) && depth'[frontier'[i]] == depth[current] + 1
              && frontier'[i] in parent' && parent'[frontier'[i]] == current
    ensures frontier'[|frontier|..] == Unvisited(nbrs, visited, |nbrs|)
  {
    assert frontier'[|frontier|..] == pushed;
    forall y | Edge(L, current, y) ensures y in visited' {
      var j :| 0 <= j < |nbrs| && nbrs[j] == y;
    }
    forall i | |frontier| <= i < |frontier'| ensures frontier'[i] in pushed {
      assert frontier'[i] == pushed[i - |frontier|];
    }
  }

  /**
   * Expands `current`, just popped: appends its unvisited open neighbours in
   * the order the maze lists them, then raises the peak frontier size to the
   * new frontier length. Afterwards `current` counts as closed.
   */
  method ExpandCell(m: Maze, current: Cell, frontier: seq<Cell>, visited: set<Cell>, parent: map<Cell, Cell>,
                    memory: nat, ghost closed: set<Cell>, ghost depth: map<Cell, int>,
                    ghost order: seq<Cell>, ghost nodesExpanded: nat)
    returns (frontier': seq<Cell>, visited': set<Cell>, parent': map<Cell, Cell>, memory': nat,
             ghost depth': map<Cell, int>)
    requires m.Valid() && current !in closed
    requires Searching(m.View(), m.start, frontier, visited, closed + {current}, parent, depth, order, nodesExpanded, memory)
    requires Closed(m.View(), closed, visited)
    ensures Searching(m.View(), m.start, frontier', visited', closed + {current}, parent', depth', order, nodesExpanded, memory')
    ensures Closed(m.View(), closed + {current}, visited')
    ensures memory' == if memory >= |frontier'| then memory else |frontier'|
    ensures visited <= visited' && |frontier| <= |frontier'| && frontier'[..|frontier|] == frontier
    ensures forall v :: v in visited ==> depth'[v] == depth[v]
    ensures forall i :: |frontier| <= i < |frontier'| ==>
              frontier'[i] !in visited && Edge(m.View(), current, frontier'[i]) && depth'[frontier'[i]] == depth[current] + 1
    ensures var nbrs := NeighborsOf(m.View(), current);
            frontier'[|frontier|..] == Unvisited(nbrs, visited, |nbrs|)
    ensures forall i :: |frontier| <= i < |frontier'| ==> frontier'[i] in parent' && parent'[frontier'[i]] == current
    ensures forall v :: v in visited && v in parent ==> v in parent' && parent'[v] == parent[v]
  {
    ghost var L := m.View();
    var nbrs := m.Neighbors(current);
    frontier', visited', parent', depth' := PushUnvisited(L, m.start, current, nbrs, frontier, visited, parent, closed + {current}, depth);
    CloseCell(L, closed, visited, visited', current);
    DistinctCellsBound(L, frontier');
    memory' := if memory >= |frontier'| then memory else |frontier'|;
  }
}
