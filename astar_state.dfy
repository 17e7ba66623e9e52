/**
 * The state of A*: the open set and the bookkeeping around it. The binary
 * heap is modelled as the sequence of its entries in insertion order;
 * popping removes an entry with the least key `(f, tie)`. The predicates
 * here are what the search loop keeps.
 */
module AStarState {
  import opened Grid
  import opened SearchPaths
  import opened Heuristics

  /** A heap entry: priority `f`, insertion stamp `tie`, and the cell. */
  datatype Entry = Entry(f: int, tie: nat, cell: Cell)

  /** The heap's order on entries: by priority, then by stamp. */
  predicate KeyBelow(a: Entry, b: Entry) {
    a.f < b.f || (a.f == b.f && a.tie < b.tie)
  }

  /** The position of an entry whose key no other entry's key is below. */
  function MinIndex(heap: seq<Entry>): (i: nat)
    requires heap != []
    ensures i < |heap| && forall j :: 0 <= j < |heap| ==> !KeyBelow(heap[j], heap[i])
  {
    if |heap| == 1 then 0
    else
      var k := MinIndex(heap[..|heap| - 1]);
      assert forall j :: 0 <= j < |heap| - 1 ==> heap[..|heap| - 1][j] == heap[j];
      if KeyBelow(heap[|heap| - 1], heap[k]) then |heap| - 1 else k
  }

  /** Stamps increase along the heap, so no two entries share a key. */
  ghost predicate StampsIncrease(heap: seq<Entry>) {
    forall i, j :: 0 <= i < j < |heap| ==> heap[i].tie < heap[j].tie
  }

  /** With distinct stamps, the entry at `MinIndex` is strictly below every other entry. */
  lemma MinIsUnique(heap: seq<Entry>)
    requires heap != [] && StampsIncrease(heap)
    ensures forall j :: 0 <= j < |heap| && j != MinIndex(heap) ==> KeyBelow(heap[MinIndex(heap)], heap[j])
  {
  }

  /** The heap after removing the entry at position `i`. */
  function Without(heap: seq<Entry>, i: nat): (r: seq<Entry>)
    requires i < |heap|
    ensures |r| + 1 == |heap|
    ensures multiset(r) + multiset{heap[i]} == multiset(heap)
    ensures forall k :: 0 <= k < |r| ==> r[k] == heap[if k < i then k else k + 1]
  {
    assert heap == heap[..i] + [heap[i]] + heap[i + 1..];
    heap[..i] + heap[i + 1..]
  }

  /** The discovered cells: connected back to `start` by parents whose `g` is smaller. */
  ghost predicate Discovered(L: Layout, start: Cell, g: map<Cell, int>, parent: map<Cell, Cell>) {
    && ParentChain(L, parent, g, start, g.Keys) && g[start] == 0
    && (forall x :: x in g ==> Within(L.height, L.width, x))
  }

  /**
   * Every heap entry names a discovered cell, is stamped no later than `tie`,
   * and has a priority no better than its cell's current `g` plus heuristic;
   * stamps increase along the heap.
   */
  ghost predicate Entries(h: (Cell, Cell) -> int, goal: Cell, heap: seq<Entry>, g: map<Cell, int>, tie: nat) {
    && (forall e :: e in heap ==> e.cell in g && g[e.cell] + h(e.cell, goal) <= e.f && e.tie <= tie)
    && StampsIncrease(heap)
  }

  /** Every discovered cell that is not closed has a live entry, stamped `live[y]`, with priority `g[y] + h(y)`. */
  ghost predicate Live(h: (Cell, Cell) -> int, goal: Cell, heap: seq<Entry>, g: map<Cell, int>, closed: set<Cell>,
                       live: map<Cell, nat>) {
    forall y :: y in g && y !in closed ==> y in live && Entry(g[y] + h(y, goal), live[y], y) in heap
  }

  /** The state of the search between iterations, whatever the heuristic. */
  ghost predicate Track(L: Layout, h: (Cell, Cell) -> int, start: Cell, goal: Cell, heap: seq<Entry>,
                        g: map<Cell, int>, parent: map<Cell, Cell>, closed: set<Cell>, live: map<Cell, nat>, tie: nat)
  {
    && Discovered(L, start, g, parent)
    && closed <= g.Keys
    && Entries(h, goal, heap, g, tie)
    && Live(h, goal, heap, g, closed, live)
  }

  /**
   * What a consistent heuristic guarantees: each closed cell's `g` is its
   * distance from `start`, and an open edge from a closed cell leads to a
   * discovered cell at most one move further.
   */
  ghost predicate Settled(L: Layout, start: Cell, g: map<Cell, int>, closed: set<Cell>) {
    && (forall x :: x in closed ==> x in g && NoShorter(L, start, g, x))
    && (forall x, y :: x in closed && Edge(L, x, y) ==> x in g && y in g && g[y] <= g[x] + 1)
  }

  /**
   * Progress of relaxing the edges out of `current`, from costs `g` to
   * `g'`: costs only drop, the cost of `current` stays, a changed cost is
   * `g[current] + 1` on a neighbour of `current` that now has `current` as
   * parent, a cell whose cost stays keeps its parent, and a cell already at
   * most one move past `current` keeps its cost.
   */
  ghost predicate RelaxedFrom(L: Layout, current: Cell, g: map<Cell, int>, parent: map<Cell, Cell>,
                              g': map<Cell, int>, parent': map<Cell, Cell>) {
    && current in g && g.Keys <= g'.Keys && (forall v :: v in g ==> g'[v] <= g[v])
    && g'[current] == g[current]
    && (forall v :: v in g' && (v !in g || g'[v] != g[v]) ==>
          && Edge(L, current, v) && g'[v] == g[current] + 1
          && v in parent' && parent'[v] == current
          && (v in g ==> g'[v] < g[v]))
    && (forall v :: v in parent && v in g && g'[v] == g[v] ==> v in parent' && parent'[v] == parent[v])
    && (forall x :: x in g && g[x] <= g[current] + 1 ==> g'[x] == g[x])
  }

  /**
   * What the search loop keeps between iterations: the bookkeeping, every
   * open edge of a closed cell leads to a discovered cell, the closed cells
   * are settled under a consistent heuristic, one expansion per closed cell,
   * and the heap (and its peak size) grows by at most four entries per
   * expansion.
   */
  ghost predicate Exploring(L: Layout, h: (Cell, Cell) -> int, start: Cell, goal: Cell, heap: seq<Entry>,
                            g: map<Cell, int>, parent: map<Cell, Cell>, closed: set<Cell>, live: map<Cell, nat>, tie: nat,
                            nodesExpanded: nat, memory: nat) {
    && Track(L, h, start, goal, heap, g, parent, closed, live, tie)
    && Closed(L, closed, g.Keys)
    && (Consistent(L, h, goal) ==> Settled(L, start, g, closed))
    && nodesExpanded == |closed|
    && |heap| <= 1 + 4 * |closed| && 1 <= memory <= 1 + 4 * |closed|
  }

  /**
   * The state right after `current` was popped and closed, before its edges
   * are relaxed: `closed` is the set of cells closed before it.
   */
  ghost predicate Popped(L: Layout, h: (Cell, Cell) -> int, start: Cell, goal: Cell, heap: seq<Entry>,
                         g: map<Cell, int>, parent: map<Cell, Cell>, closed: set<Cell>, live: map<Cell, nat>, tie: nat,
                         current: Cell, nodesExpanded: nat, memory: nat) {
    && Track(L, h, start, goal, heap, g, parent, closed + {current}, live, tie)
    && current in g && current !in closed && Within(L.height, L.width, current)
    && Closed(L, closed, g.Keys)
    && (Consistent(L, h, goal) ==> Settled(L, start, g, closed) && NoShorter(L, start, g, current))
    && nodesExpanded == |closed| + 1
    && |heap| <= 4 * |closed| && 1 <= memory <= 1 + 4 * |closed|
  }
}
