/**
 * The level structure behind breadth-first search's optimality: cells leave
 * the queue in order of depth, and the depth of every expanded cell is its
 * distance from the start.
 */
module BfsLevels {
  import opened Grid
  import opened SearchPaths

  /**
   * The level structure of breadth-first search: depths along the queue
   * never decrease and span at most one level, no expanded cell is deeper
   * than the head of the queue, an open step from an expanded cell goes at
   * most one level deeper, and the depth of every expanded cell is its
   * distance from `start`.
   */
  ghost predicate Leveled(L: Layout, start: Cell, queue: seq<Cell>, expanded: set<Cell>, depth: map<Cell, int>) {
    && (forall i :: 0 <= i < |queue| ==> queue[i] in depth)
    && (forall x :: x in expanded ==> x in depth && NoShorter(L, start, depth, x))
    && (forall i, j :: 0 <= i <= j < |queue| ==> depth[queue[i]] <= depth[queue[j]])
    && (queue != [] ==> depth[queue[|queue| - 1]] <= depth[queue[0]] + 1)
    && (queue != [] ==> forall x :: x in expanded ==> depth[x] <= depth[queue[0]])
    && (forall a, b :: a in expanded && Edge(L, a, b) ==> b in depth && depth[b] <= depth[a] + 1)
  }

  /**
   * The head of the queue is at its true distance: a path reaching it must
   * leave the expanded cells somewhere, and the cell where it does is queued,
   * hence no shallower than the head.
   */
  lemma HeadIsNearest(L: Layout, start: Cell, queue: seq<Cell>, visited: set<Cell>, expanded: set<Cell>,
                      parent: map<Cell, Cell>, depth: map<Cell, int>, order: seq<Cell>, nodesExpanded: nat, memory: nat)
    requires Searching(L, start, queue, visited, expanded, parent, depth, order, nodesExpanded, memory)
    requires Closed(L, expanded, visited) && Leveled(L, start, queue, expanded, depth) && queue != []
    ensures NoShorter(L, start, depth, queue[0])
  {
    var x := queue[0];
    forall p | IsPathFromTo(L, p, start, x) ensures depth[x] <= |p| - 1 {
      if x != start {
        assert order != [] && start in order;
        var j := FirstOutside(p, expanded);
        var prev := p[j - 1];
        assert IsPathFromTo(L, p[..j], start, prev) by {
          PathPrefix(L, p, j);
        }
        assert depth[prev] <= j - 1;
        assert Edge(L, prev, p[j]);
        assert p[j] in visited;
        var i :| 0 <= i < |queue| && queue[i] == p[j];
        assert depth[x] <= depth[queue[i]];
      }
    }
  }

  /**
   * What expanding the head `current` of queue `q` does: `current` joins the
   * expanded cells, its unvisited open neighbours are appended one level
   * deeper than it, and nothing already visited changes depth.
   */
  ghost predicate ExpandedHead(L: Layout, start: Cell, current: Cell,
                               q: seq<Cell>, visited: set<Cell>, expanded: set<Cell>, parent: map<Cell, Cell>, depth: map<Cell, int>,
                               q': seq<Cell>, visited': set<Cell>, parent': map<Cell, Cell>, depth': map<Cell, int>)
  {
    && q != [] && current == q[0]
    && Frontier(L, start, q, visited, expanded, parent, depth) && Closed(L, expanded, visited)
    && Leveled(L, start, q, expanded, depth) && NoShorter(L, start, depth, current)
    && Frontier(L, start, q', visited', expanded + {current}, parent', depth')
    && Closed(L, expanded + {current}, visited')
    && visited <= visited' && |q| - 1 <= |q'| && q'[..|q| - 1] == q[1..]
    && (forall v :: v in visited ==> depth'[v] == depth[v])
    && (forall i :: |q| - 1 <= i < |q'| ==> q'[i] !in visited && depth'[q'[i]] == depth[current] + 1)
  }

  /** After expanding the head, every queued cell is at the level of `current` or one deeper. */
  lemma QueueLevels(L: Layout, start: Cell, current: Cell,
                    q: seq<Cell>, visited: set<Cell>, expanded: set<Cell>, parent: map<Cell, Cell>, depth: map<Cell, int>,
                    q': seq<Cell>, visited': set<Cell>, parent': map<Cell, Cell>, depth': map<Cell, int>)
    requires ExpandedHead(L, start, current, q, visited, expanded, parent, depth, q', visited', parent', depth')
    ensures forall i :: 0 <= i < |q| - 1 ==> q'[i] == q[i + 1] && q'[i] in visited
    ensures forall i :: 0 <= i < |q'| ==> q'[i] in depth' && depth[current] <= depth'[q'[i]] <= depth[current] + 1
  {
    var d := depth[current];
    forall i | 0 <= i < |q| - 1 ensures q'[i] == q[i + 1] && q'[i] in visited {
      assert q'[..|q| - 1][i] == q'[i];
    }
    assert forall i :: 0 <= i < |q| ==> d <= depth[q[i]] <= d + 1;
  }

  /** After expanding the head, queue depths still never decrease and span at most one level. */
  lemma QueueSorted(L: Layout, start: Cell, current: Cell,
                    q: seq<Cell>, visited: set<Cell>, expanded: set<Cell>, parent: map<Cell, Cell>, depth: map<Cell, int>,
                    q': seq<Cell>, visited': set<Cell>, parent': map<Cell, Cell>, depth': map<Cell, int>)
    requires ExpandedHead(L, start, current, q, visited, expanded, parent, depth, q', visited', parent', depth')
    ensures forall i :: 0 <= i < |q'| ==> q'[i] in depth'
    ensures forall i, j :: 0 <= i <= j < |q'| ==> depth'[q'[i]] <= depth'[q'[j]]
    ensures q' != [] ==> depth'[q'[|q'| - 1]] <= depth'[q'[0]] + 1
  {
    QueueLevels(L, start, current, q, visited, expanded, parent, depth, q', visited', parent', depth');
    forall i, j | 0 <= i <= j < |q'| ensures depth'[q'[i]] <= depth'[q'[j]] {
      if j < |q| - 1 {
        assert depth[q[i + 1]] <= depth[q[j + 1]];
      }
    }
  }

  /** After expanding the head, an open step from `current` goes at most one level deeper. */
  lemma HeadStepLevel(L: Layout, start: Cell, current: Cell,
                      q: seq<Cell>, visited: set<Cell>, expanded: set<Cell>, parent: map<Cell, Cell>, depth: map<Cell, int>,
                      q': seq<Cell>, visited': set<Cell>, parent': map<Cell, Cell>, depth': map<Cell, int>, b: Cell)
    requires ExpandedHead(L, start, current, q, visited, expanded, parent, depth, q', visited', parent', depth')
    requires Edge(L, current, b)
    ensures b in depth' && depth'[b] <= depth'[current] + 1
  {
    QueueLevels(L, start, current, q, visited, expanded, parent, depth, q', visited', parent', depth');
    assert current in visited && depth'[current] == depth[current];
    assert b in visited';
    if b in visited {
      if b !in expanded {
        var i :| 0 <= i < |q| && q[i] == b;
        assert depth[q[i]] <= depth[q[|q| - 1]];
      }
    } else {
      var i :| 0 <= i < |q'| && q'[i] == b;
    }
  }

  /** After expanding the head, an open step from an expanded cell still goes at most one level deeper. */
  lemma StepLevels(L: Layout, start: Cell, current: Cell,
                   q: seq<Cell>, visited: set<Cell>, expanded: set<Cell>, parent: map<Cell, Cell>, depth: map<Cell, int>,
                   q': seq<Cell>, visited': set<Cell>, parent': map<Cell, Cell>, depth': map<Cell, int>)
    requires ExpandedHead(L, start, current, q, visited, expanded, parent, depth, q', visited', parent', depth')
    ensures forall a, b :: a in expanded + {current} && Edge(L, a, b) ==> b in depth' && depth'[b] <= depth'[a] + 1
  {
    forall a, b | a in expanded + {current} && Edge(L, a, b) ensures b in depth' && depth'[b] <= depth'[a] + 1 {
      if a == current {
        HeadStepLevel(L, start, current, q, visited, expanded, parent, depth, q', visited', parent', depth', b);
      } else {
        assert a in visited && b in visited;
      }
    }
  }

  /** Expanding the head of the queue keeps the level structure. */
  lemma ExpandKeepsLevels(L: Layout, start: Cell, current: Cell,
                          q: seq<Cell>, visited: set<Cell>, expanded: set<Cell>, parent: map<Cell, Cell>, depth: map<Cell, int>,
                          q': seq<Cell>, visited': set<Cell>, parent': map<Cell, Cell>, depth': map<Cell, int>)
    requires ExpandedHead(L, start, current, q, visited, expanded, parent, depth, q', visited', parent', depth')
    ensures Leveled(L, start, q', expanded + {current}, depth')
  {
    QueueLevels(L, start, current, q, visited, expanded, parent, depth, q', visited', parent', depth');
    QueueSorted(L, start, current, q, visited, expanded, parent, depth, q', visited', parent', depth');
    StepLevels(L, start, current, q, visited, expanded, parent, depth, q', visited', parent', depth');
    forall x | x in expanded + {current} ensures x in depth' && NoShorter(L, start, depth', x) {
      assert x in visited && depth'[x] == depth[x];
    }
    if q' != [] {
      forall x | x in expanded + {current} ensures depth'[x] <= depth'[q'[0]] {
        assert x in visited;
      }
    }
  }
}
