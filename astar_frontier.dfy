/**
 * The steps of the proof that A* keeps its state: popping the least entry,
 * relaxing the edges of the closed cell, and what a consistent heuristic
 * adds (each closed cell's cost is its distance from the start).
 */
module AStarFrontier {
  import opened Grid
  import opened SearchPaths
  import opened Heuristics
  import opened AStarState

  /** The state before the first iteration: only `start`, at cost 0, stamped 0. */
  lemma TrackStart(L: Layout, h: (Cell, Cell) -> int, start: Cell, goal: Cell)
    requires Within(L.height, L.width, start)
    ensures Track(L, h, start, goal, [Entry(h(start, goal), 0, start)], map[start := 0], map[], {}, map[start := 0], 0)
    ensures Settled(L, start, map[start := 0], {})
  {
    assert Entry(h(start, goal), 0, start) in [Entry(h(start, goal), 0, start)];
  }

  /** Removing an entry keeps the remaining entries sound. */
  lemma WithoutKeepsEntries(h: (Cell, Cell) -> int, goal: Cell, heap: seq<Entry>, g: map<Cell, int>, tie: nat, i: nat)
    requires Entries(h, goal, heap, g, tie) && i < |heap|
    ensures Entries(h, goal, Without(heap, i), g, tie)
  {
    var rest := Without(heap, i);
    forall a, b | 0 <= a < b < |rest| ensures rest[a].tie < rest[b].tie {
      assert rest[a] == heap[if a < i then a else a + 1];
      assert rest[b] == heap[if b < i then b else b + 1];
    }
  }

  /** Removing an entry of a cell that is now closed keeps every other live entry. */
  lemma WithoutKeepsLive(h: (Cell, Cell) -> int, goal: Cell, heap: seq<Entry>, g: map<Cell, int>, closed: set<Cell>,
                         live: map<Cell, nat>, i: nat)
    requires Live(h, goal, heap, g, closed, live) && i < |heap|
    ensures Live(h, goal, Without(heap, i), g, closed + {heap[i].cell}, live)
  {
    var rest := Without(heap, i);
    forall y | y in g && y !in closed + {heap[i].cell}
      ensures y in live && Entry(g[y] + h(y, goal), live[y], y) in rest
    {
      var entry := Entry(g[y] + h(y, goal), live[y], y);
      assert entry != heap[i] && entry in multiset(heap);
    }
  }

  /**
   * Popping the least entry keeps the bookkeeping once its cell counts as
   * closed (it may have been closed already, through a better entry).
   */
  lemma PopKeepsTrack(L: Layout, h: (Cell, Cell) -> int, start: Cell, goal: Cell, heap: seq<Entry>,
                      g: map<Cell, int>, parent: map<Cell, Cell>, closed: set<Cell>, live: map<Cell, nat>, tie: nat)
    requires Track(L, h, start, goal, heap, g, parent, closed, live, tie) && heap != []
    ensures var i := MinIndex(heap);
            && heap[i].cell in g && Within(L.height, L.width, heap[i].cell)
            && Track(L, h, start, goal, Without(heap, i), g, parent, closed + {heap[i].cell}, live, tie)
  {
    var i := MinIndex(heap);
    WithoutKeepsEntries(h, goal, heap, g, tie, i);
    WithoutKeepsLive(h, goal, heap, g, closed, live, i);
  }

  /**
   * A path from `start` whose first `j` cells are closed reaches its cell at
   * position `j` along a discovered route of cost at most `j`.
   */
  lemma ExitCost(L: Layout, start: Cell, g: map<Cell, int>, closed: set<Cell>, p: seq<Cell>, j: nat)
    requires start in g && g[start] == 0 && Settled(L, start, g, closed)
    requires IsPath(L, p) && p[0] == start && j < |p|
    requires forall k :: 0 <= k < j ==> p[k] in closed
    ensures p[j] in g && g[p[j]] <= j
  {
    if j > 0 {
      PathPrefix(L, p, j);
      assert Edge(L, p[j - 1], p[j]);
    }
  }

  /**
   * Best-first order with a consistent heuristic: if `x` is not closed and
   * its `g` plus heuristic is at most `f`, while no open discovered cell
   * has `g` plus heuristic below `f`, then no path reaches `x` in fewer than
   * `g[x]` moves. The path must leave the closed cells at some open cell,
   * which costs no more than its position on the path.
   */
  lemma BestFirstBound(L: Layout, h: (Cell, Cell) -> int, start: Cell, goal: Cell, g: map<Cell, int>, closed: set<Cell>,
                       x: Cell, f: int, p: seq<Cell>)
    requires start in g && g[start] == 0 && Settled(L, start, g, closed) && Consistent(L, h, goal)
    requires x in g && x !in closed && g[x] + h(x, goal) <= f
    requires forall y :: y in g && y !in closed ==> f <= g[y] + h(y, goal)
    requires IsPathFromTo(L, p, start, x)
    ensures g[x] <= |p| - 1
  {
    var j := FirstOutside(p, closed);
    var y := p[j];
    ExitCost(L, start, g, closed, p, j);
    PathSuffix(L, p, j);
    ConsistentAlongPath(L, h, goal, p[j..]);
    assert h(y, goal) <= |p| - 1 - j + h(x, goal);
  }

  /**
   * With a consistent heuristic, the least entry's cell, if not yet closed,
   * already has its distance as `g`.
   */
  lemma PoppedIsSettled(L: Layout, h: (Cell, Cell) -> int, start: Cell, goal: Cell, heap: seq<Entry>,
                        g: map<Cell, int>, parent: map<Cell, Cell>, closed: set<Cell>, live: map<Cell, nat>, tie: nat)
    requires Track(L, h, start, goal, heap, g, parent, closed, live, tie) && heap != []
    requires Consistent(L, h, goal) && Settled(L, start, g, closed)
    requires heap[MinIndex(heap)].cell !in closed
    ensures NoShorter(L, start, g, heap[MinIndex(heap)].cell)
  {
    var e := heap[MinIndex(heap)];
    forall y | y in g && y !in closed ensures e.f <= g[y] + h(y, goal) {
      var k :| 0 <= k < |heap| && heap[k] == Entry(g[y] + h(y, goal), live[y], y);
      assert !KeyBelow(heap[k], e);
    }
    forall p | IsPathFromTo(L, p, start, e.cell) ensures g[e.cell] <= |p| - 1 {
      BestFirstBound(L, h, start, goal, g, closed, e.cell, e.f, p);
    }
  }

  /** A closed cell with its distance as `g` is never improved by a neighbour. */
  lemma SettledNotImproved(L: Layout, start: Cell, g: map<Cell, int>, parent: map<Cell, Cell>, current: Cell, y: Cell)
    requires ParentChain(L, parent, g, start, g.Keys) && g[start] == 0
    requires current in g && y in g && Edge(L, current, y) && NoShorter(L, start, g, y)
    ensures g[y] <= g[current] + 1
  {
    var p := ChainPath(L, parent, g, start, g.Keys, current);
    PathSnoc(L, p, start, y);
    assert IsPathFromTo(L, p + [y], start, y);
  }

  /** Giving `y` the parent `current` at cost `g[current] + 1` keeps the parent chain. */
  lemma RelaxKeepsDiscovered(L: Layout, start: Cell, g: map<Cell, int>, parent: map<Cell, Cell>, current: Cell, y: Cell,
                             cost: int)
    requires Discovered(L, start, g, parent)
    requires current in g && Edge(L, current, y) && cost == g[current] + 1 && (y !in g || cost < g[y])
    ensures Discovered(L, start, g[y := cost], parent[y := current])
  {
    var g', parent' := g[y := cost], parent[y := current];
    assert y != start;
    forall v | v in g' && v != start
      ensures v in parent' && parent'[v] in g' && Edge(L, parent'[v], v) && g'[parent'[v]] < g'[v]
    {
      if v != y {
        assert parent'[v] == parent[v];
      }
    }
  }

  /** Appending an entry stamped later than every entry keeps the stamps increasing. */
  lemma PushKeepsStamps(heap: seq<Entry>, e: Entry)
    requires StampsIncrease(heap) && forall x :: x in heap ==> x.tie < e.tie
    ensures StampsIncrease(heap + [e])
  {
    var heap' := heap + [e];
    forall a, b | 0 <= a < b < |heap'| ensures heap'[a].tie < heap'[b].tie {
      assert heap'[a] == heap[a] && heap[a] in heap;
      if b < |heap| {
        assert heap'[b] == heap[b];
      }
    }
  }

  /** Pushing the entry of the improved cell `y`, with priority `cost + h(y)` and the next stamp, keeps the entries sound. */
  lemma RelaxKeepsEntries(h: (Cell, Cell) -> int, goal: Cell, heap: seq<Entry>, g: map<Cell, int>, tie: nat, y: Cell,
                          cost: int, f: int, stamp: nat)
    requires Entries(h, goal, heap, g, tie) && (y !in g || cost < g[y])
    requires f == cost + h(y, goal) && stamp == tie + 1
    ensures Entries(h, goal, heap + [Entry(f, stamp, y)], g[y := cost], stamp)
  {
    var e := Entry(f, stamp, y);
    var heap', g' := heap + [e], g[y := cost];
    forall x | x in heap' ensures x.cell in g' && g'[x.cell] + h(x.cell, goal) <= x.f && x.tie <= stamp {
      if x != e {
        assert x in heap;
      }
    }
    PushKeepsStamps(heap, e);
  }

  /** The pushed entry is the live entry of `y`; the other live entries stay in the heap. */
  lemma RelaxKeepsLive(h: (Cell, Cell) -> int, goal: Cell, heap: seq<Entry>, g: map<Cell, int>, closed: set<Cell>,
                       live: map<Cell, nat>, y: Cell, cost: int, f: int, stamp: nat)
    requires Live(h, goal, heap, g, closed, live) && f == cost + h(y, goal)
    ensures Live(h, goal, heap + [Entry(f, stamp, y)], g[y := cost], closed, live[y := stamp])
  {
    var e := Entry(f, stamp, y);
    var heap', g', live' := heap + [e], g[y := cost], live[y := stamp];
    forall v | v in g' && v !in closed ensures v in live' && Entry(g'[v] + h(v, goal), live'[v], v) in heap' {
      if v != y {
        assert Entry(g[v] + h(v, goal), live[v], v) in heap;
      } else {
        assert e in heap';
      }
    }
  }

  /**
   * Recording the better route `current -> y` (cost `g[current] + 1`) and
   * pushing its entry with the next stamp keeps the bookkeeping.
   */
  lemma RelaxKeepsTrack(L: Layout, h: (Cell, Cell) -> int, start: Cell, goal: Cell, heap: seq<Entry>,
                        g: map<Cell, int>, parent: map<Cell, Cell>, closed: set<Cell>, live: map<Cell, nat>, tie: nat,
                        current: Cell, y: Cell, cost: int, f: int, stamp: nat)
    requires Track(L, h, start, goal, heap, g, parent, closed, live, tie)
    requires current in g && Edge(L, current, y) && cost == g[current] + 1 && (y !in g || cost < g[y])
    requires f == cost + h(y, goal) && stamp == tie + 1
    ensures Track(L, h, start, goal, heap + [Entry(f, stamp, y)], g[y := cost], parent[y := current], closed, live[y := stamp], stamp)
  {
    RelaxKeepsDiscovered(L, start, g, parent, current, y, cost);
    RelaxKeepsEntries(h, goal, heap, g, tie, y, cost, f, stamp);
    RelaxKeepsLive(h, goal, heap, g, closed, live, y, cost, f, stamp);
  }

  /** Before any edge is relaxed. */
  lemma RelaxedFromStart(L: Layout, current: Cell, g: map<Cell, int>, parent: map<Cell, Cell>)
    requires current in g
    ensures RelaxedFrom(L, current, g, parent, g, parent)
  {
  }

  /** Recording the improvement `current -> y` keeps the progress of relaxing the edges out of `current`. */
  lemma RelaxedFromStep(L: Layout, current: Cell, g: map<Cell, int>, parent: map<Cell, Cell>,
                        g': map<Cell, int>, parent': map<Cell, Cell>, y: Cell, cost: int)
    requires RelaxedFrom(L, current, g, parent, g', parent')
    requires Edge(L, current, y) && cost == g'[current] + 1 && (y !in g' || cost < g'[y])
    ensures RelaxedFrom(L, current, g, parent, g'[y := cost], parent'[y := current])
  {
    assert y != current;
  }

  /**
   * The state of `RelaxNeighbors` once it has relaxed the edges to
   * `nbrs[..i]`: the bookkeeping holds, the relaxation so far is one from
   * `current`, each scanned neighbour costs at most `g[current] + 1`, and
   * the heap has kept its old entries and gained at most one per neighbour.
   */
  ghost predicate Relaxing(L: Layout, h: (Cell, Cell) -> int, start: Cell, goal: Cell, current: Cell, nbrs: seq<Cell>, i: nat,
                           heap: seq<Entry>, g: map<Cell, int>, parent: map<Cell, Cell>, tie: nat, closed: set<Cell>,
                           heap': seq<Entry>, g': map<Cell, int>, parent': map<Cell, Cell>, tie': nat, live': map<Cell, nat>)
  {
    && i <= |nbrs|
    && Track(L, h, start, goal, heap', g', parent', closed, live', tie')
    && RelaxedFrom(L, current, g, parent, g', parent')
    && (forall j :: 0 <= j < i ==> nbrs[j] in g' && g'[nbrs[j]] <= g[current] + 1)
    && tie <= tie' && |heap| <= |heap'| <= |heap| + i && heap'[..|heap|] == heap
  }

  /** Before the first neighbour nothing is relaxed. */
  lemma RelaxStart(L: Layout, h: (Cell, Cell) -> int, start: Cell, goal: Cell, current: Cell, nbrs: seq<Cell>,
                   heap: seq<Entry>, g: map<Cell, int>, parent: map<Cell, Cell>, tie: nat, closed: set<Cell>, live: map<Cell, nat>)
    requires Track(L, h, start, goal, heap, g, parent, closed, live, tie) && current in closed
    ensures Relaxing(L, h, start, goal, current, nbrs, 0, heap, g, parent, tie, closed, heap, g, parent, tie, live)
  {
    RelaxedFromStart(L, current, g, parent);
  }

  /** A neighbour reached more cheaply through `current` gets the new cost, parent `current` and a fresh entry. */
  lemma RelaxImprove(L: Layout, h: (Cell, Cell) -> int, start: Cell, goal: Cell, current: Cell, nbrs: seq<Cell>, i: nat,
                     heap: seq<Entry>, g: map<Cell, int>, parent: map<Cell, Cell>, tie: nat, closed: set<Cell>,
                     heap': seq<Entry>, g': map<Cell, int>, parent': map<Cell, Cell>, tie': nat, live': map<Cell, nat>,
                     cost: int, f: int, stamp: nat)
    requires Relaxing(L, h, start, goal, current, nbrs, i, heap, g, parent, tie, closed, heap', g', parent', tie', live')
    requires current in closed && forall y :: y in nbrs <==> Edge(L, current, y)
    requires i < |nbrs| && cost == g'[current] + 1 && (nbrs[i] !in g' || cost < g'[nbrs[i]])
    requires f == cost + h(nbrs[i], goal) && stamp == tie' + 1
    ensures var y := nbrs[i];
            Relaxing(L, h, start, goal, current, nbrs, i + 1, heap, g, parent, tie, closed,
                     heap' + [Entry(f, stamp, y)], g'[y := cost], parent'[y := current], stamp, live'[y := stamp])
  {
    var y := nbrs[i];
    assert y in nbrs;
    RelaxKeepsTrack(L, h, start, goal, heap', g', parent', closed, live', tie', current, y, cost, f, stamp);
    RelaxedFromStep(L, current, g, parent, g', parent', y, cost);
    assert (heap' + [Entry(f, stamp, y)])[..|heap|] == heap'[..|heap|];
  }

  /** A neighbour no cheaper through `current` is left alone. */
  lemma RelaxSkip(L: Layout, h: (Cell, Cell) -> int, start: Cell, goal: Cell, current: Cell, nbrs: seq<Cell>, i: nat,
                  heap: seq<Entry>, g: map<Cell, int>, parent: map<Cell, Cell>, tie: nat, closed: set<Cell>,
                  heap': seq<Entry>, g': map<Cell, int>, parent': map<Cell, Cell>, tie': nat, live': map<Cell, nat>)
    requires Relaxing(L, h, start, goal, current, nbrs, i, heap, g, parent, tie, closed, heap', g', parent', tie', live')
    requires i < |nbrs| && nbrs[i] in g' && g'[current] + 1 >= g'[nbrs[i]]
    ensures Relaxing(L, h, start, goal, current, nbrs, i + 1, heap, g, parent, tie, closed, heap', g', parent', tie', live')
  {
  }

  /** After the last neighbour, every open edge out of `current` leads to a cell at most one move further. */
  lemma RelaxDone(L: Layout, h: (Cell, Cell) -> int, start: Cell, goal: Cell, current: Cell, nbrs: seq<Cell>,
                  heap: seq<Entry>, g: map<Cell, int>, parent: map<Cell, Cell>, tie: nat, closed: set<Cell>,
                  heap': seq<Entry>, g': map<Cell, int>, parent': map<Cell, Cell>, tie': nat, live': map<Cell, nat>)
    requires Relaxing(L, h, start, goal, current, nbrs, |nbrs|, heap, g, parent, tie, closed, heap', g', parent', tie', live')
    requires forall y :: y in nbrs <==> Edge(L, current, y)
    ensures forall y :: Edge(L, current, y) ==> y in g' && g'[y] <= g[current] + 1
  {
    forall y | Edge(L, current, y) ensures y in g' && g'[y] <= g[current] + 1 {
      var j :| 0 <= j < |nbrs| && nbrs[j] == y;
    }
  }

  /**
   * After `current` is expanded with the bookkeeping settled before, the
   * closed cells stay settled: only neighbours of `current` changed cost,
   * a closed neighbour already had cost at most `g[current] + 1` and so kept
   * it, and every neighbour of `current` is now at most one move further.
   */
  lemma ExpandKeepsSettled(L: Layout, start: Cell, g: map<Cell, int>, parent: map<Cell, Cell>, g': map<Cell, int>,
                           closed: set<Cell>, current: Cell)
    requires ParentChain(L, parent, g, start, g.Keys) && g[start] == 0
    requires current !in closed && current in g
    requires Settled(L, start, g, closed) && NoShorter(L, start, g, current)
    requires g.Keys <= g'.Keys && forall v :: v in g ==> g'[v] <= g[v]
    requires g'[current] == g[current]
    requires forall v :: v in g && g'[v] != g[v] ==> Edge(L, current, v)
    requires forall x :: x in g && g[x] <= g[current] + 1 ==> g'[x] == g[x]
    requires forall y :: Edge(L, current, y) ==> y in g' && g'[y] <= g[current] + 1
    ensures Settled(L, start, g', closed + {current})
  {
    forall x | x in closed + {current} ensures g'[x] == g[x] {
      if Edge(L, current, x) {
        SettledNotImproved(L, start, g, parent, current, x);
      }
    }
    forall x | x in closed + {current} ensures x in g' && NoShorter(L, start, g', x) {
      assert g'[x] == g[x];
    }
    forall x, y | x in closed + {current} && Edge(L, x, y) ensures x in g' && y in g' && g'[y] <= g'[x] + 1 {
      if x != current {
        assert g'[x] == g[x] && y in g;
      }
    }
  }

  /** The loop's state holds for the heap holding only the start entry. */
  lemma ExploringStart(L: Layout, h: (Cell, Cell) -> int, start: Cell, goal: Cell)
    requires Within(L.height, L.width, start)
    ensures Exploring(L, h, start, goal, [Entry(h(start, goal), 0, start)], map[start := 0], map[], {}, map[start := 0], 0, 0, 1)
  {
    TrackStart(L, h, start, goal);
  }

  /**
   * Popping the least entry: if its cell was closed already the loop's state
   * holds for the smaller heap; otherwise closing it gives the popped state.
   */
  lemma PopKeepsExploring(L: Layout, h: (Cell, Cell) -> int, start: Cell, goal: Cell, heap: seq<Entry>,
                          g: map<Cell, int>, parent: map<Cell, Cell>, closed: set<Cell>, live: map<Cell, nat>, tie: nat,
                          nodesExpanded: nat, memory: nat)
    requires Exploring(L, h, start, goal, heap, g, parent, closed, live, tie, nodesExpanded, memory) && heap != []
    ensures var i := MinIndex(heap);
            && (heap[i].cell in closed ==>
                  Exploring(L, h, start, goal, Without(heap, i), g, parent, closed, live, tie, nodesExpanded, memory))
            && (heap[i].cell !in closed ==>
                  Popped(L, h, start, goal, Without(heap, i), g, parent, closed, live, tie, heap[i].cell, nodesExpanded + 1, memory))
  {
    var i := MinIndex(heap);
    PopKeepsTrack(L, h, start, goal, heap, g, parent, closed, live, tie);
    if heap[i].cell in closed {
      assert closed + {heap[i].cell} == closed;
    } else if Consistent(L, h, goal) {
      PoppedIsSettled(L, h, start, goal, heap, g, parent, closed, live, tie);
    }
  }

  /** The facts the search's caller needs, read off the loop's state. */
  lemma ExploringFacts(L: Layout, h: (Cell, Cell) -> int, start: Cell, goal: Cell, heap: seq<Entry>,
                       g: map<Cell, int>, parent: map<Cell, Cell>, closed: set<Cell>, live: map<Cell, nat>, tie: nat,
                       nodesExpanded: nat, memory: nat)
    requires Exploring(L, h, start, goal, heap, g, parent, closed, live, tie, nodesExpanded, memory)
    ensures ParentChain(L, parent, g, start, g.Keys) && g[start] == 0 && closed <= g.Keys
    ensures forall y :: y in closed ==> Within(L.height, L.width, y)
    ensures Closed(L, closed, g.Keys)
    ensures nodesExpanded == |closed| && 1 <= memory <= 1 + 4 * nodesExpanded
  {
  }

  /** The facts the search's caller needs when it stops at the popped cell. */
  lemma PoppedFacts(L: Layout, h: (Cell, Cell) -> int, start: Cell, goal: Cell, heap: seq<Entry>,
                    g: map<Cell, int>, parent: map<Cell, Cell>, closed: set<Cell>, live: map<Cell, nat>, tie: nat,
                    current: Cell, nodesExpanded: nat, memory: nat)
    requires Popped(L, h, start, goal, heap, g, parent, closed, live, tie, current, nodesExpanded, memory)
    ensures ParentChain(L, parent, g, start, g.Keys) && g[start] == 0 && closed + {current} <= g.Keys
    ensures Consistent(L, h, goal) ==> NoShorter(L, start, g, current)
    ensures nodesExpanded == |closed + {current}| && 1 <= memory <= 1 + 4 * nodesExpanded
  {
  }
}
