/**
 * Cells, compass directions and the value-level view of a maze: its size and
 * the set of open half-walls. Paths, reachability and the row-major cell
 * enumeration are defined here once and shared by the generator and every
 * solver.
 */
module Grid {
  import opened Wrappers

  /** A grid position (row, column). */
  datatype Cell = Cell(r: int, c: int)

  /** The four compass directions. */
  datatype Dir = N | E | S | W

  /** The fixed enumeration order of directions: N, E, S, W. */
  const Dirs: seq<Dir> := [N, E, S, W]

  /** Position of a direction in `Dirs`. */
  function DirIndex(d: Dir): (k: nat)
    ensures k < 4 && Dirs[k] == d
  {
    match d
    case N => 0
    case E => 1
    case S => 2
    case W => 3
  }

  /** How a step in direction `d` changes (row, column). */
  function Delta(d: Dir): (int, int) {
    match d
    case N => (-1, 0)
    case E => (0, 1)
    case S => (1, 0)
    case W => (0, -1)
  }

  /** The direction pointing back: its step undoes the step of `d`. */
  function Opposite(d: Dir): (o: Dir)
    ensures Delta(o).0 == -Delta(d).0 && Delta(o).1 == -Delta(d).1
  {
    match d
    case N => S
    case E => W
    case S => N
    case W => E
  }

  lemma OppositeIsInvolution(d: Dir)
    ensures Opposite(Opposite(d)) == d && Opposite(d) != d
  {
  }

  /** The cell reached from `cell` by one step in direction `d`. */
  function Step(cell: Cell, d: Dir): Cell {
    Cell(cell.r + Delta(d).0, cell.c + Delta(d).1)
  }

  lemma StepBack(cell: Cell, d: Dir)
    ensures Step(Step(cell, d), Opposite(d)) == cell && Step(cell, d) != cell
  {
  }

  /** The direction leading from `a` to the adjacent cell `b`, if they are adjacent. */
  function Toward(a: Cell, b: Cell): (d: Option<Dir>)
    ensures d.Some? ==> Step(a, d.value) == b
    ensures d.None? ==> forall e :: Step(a, e) != b
  {
    if b == Step(a, N) then Some(N)
    else if b == Step(a, E) then Some(E)
    else if b == Step(a, S) then Some(S)
    else if b == Step(a, W) then Some(W)
    else None
  }

  lemma TowardStep(a: Cell, d: Dir)
    ensures Toward(a, Step(a, d)) == Some(d)
  {
  }

  /** The string tag of a direction: "N", "E", "S" or "W". */
  function DirTag(d: Dir): string {
    match d
    case N => "N"
    case E => "E"
    case S => "S"
    case W => "W"
  }

  /** Reads a direction tag; anything other than the four tags is rejected. */
  function ParseDir(tag: string): (d: Option<Dir>)
    ensures d.Some? ==> DirTag(d.value) == tag
  {
    if tag == "N" then Some(N)
    else if tag == "E" then Some(E)
    else if tag == "S" then Some(S)
    else if tag == "W" then Some(W)
    else None
  }

  /** Every direction's tag reads back as that direction. */
  lemma ParseDirTag(d: Dir)
    ensures ParseDir(DirTag(d)) == Some(d)
  {
  }

  /** `0 <= row < height && 0 <= col < width`. */
  predicate Within(height: int, width: int, cell: Cell) {
    0 <= cell.r < height && 0 <= cell.c < width
  }

  /**
   * A maze as a value: its size and the set of open half-walls. `(a, d)` is in
   * `open` when the wall of cell `a` on side `d` has been removed.
   */
  datatype Layout = Layout(height: int, width: int, open: set<(Cell, Dir)>)

  /**
   * Positive size, every open half-wall lies between two in-bounds cells, and
   * walls are symmetric: the two sides of a shared edge are open together.
   */
  ghost predicate WellFormed(L: Layout) {
    && L.height > 0 && L.width > 0
    && (forall hw :: hw in L.open ==>
          Within(L.height, L.width, hw.0) && Within(L.height, L.width, Step(hw.0, hw.1)))
    && (forall hw {:trigger Mate(hw)} :: hw in L.open ==> Mate(hw) in L.open)
  }

  /** The same wall seen from the cell on its other side. */
  function Mate(hw: (Cell, Dir)): (Cell, Dir) {
    (Step(hw.0, hw.1), Opposite(hw.1))
  }

  lemma MateIsInvolution(hw: (Cell, Dir))
    ensures Mate(Mate(hw)) == hw && Mate(hw) != hw
  {
    StepBack(hw.0, hw.1);
    OppositeIsInvolution(hw.1);
  }

  /** `b` is an in-bounds cell adjacent to `a` through an open wall of `a`. */
  predicate Edge(L: Layout, a: Cell, b: Cell) {
    var d := Toward(a, b);
    d.Some? && (a, d.value) in L.open && Within(L.height, L.width, b)
  }

  lemma EdgeSymmetric(L: Layout, a: Cell, b: Cell)
    requires WellFormed(L) && Edge(L, a, b)
    ensures Edge(L, b, a) && Within(L.height, L.width, a)
  {
    var d := Toward(a, b).value;
    assert Mate((a, d)) in L.open;
    StepBack(a, d);
    TowardStep(b, Opposite(d));
  }

  /** Opening both sides of an edge between two in-bounds cells keeps a layout well formed. */
  lemma OpenEdgeWellFormed(L: Layout, cell: Cell, d: Dir)
    requires WellFormed(L)
    requires Within(L.height, L.width, cell) && Within(L.height, L.width, Step(cell, d))
    ensures WellFormed(Layout(L.height, L.width, L.open + {(cell, d), (Step(cell, d), Opposite(d))}))
  {
    var L' := Layout(L.height, L.width, L.open + {(cell, d), Mate((cell, d))});
    StepBack(cell, d);
    MateIsInvolution((cell, d));
    forall x | x in L'.open ensures Mate(x) in L'.open {
      if x in L.open {
        assert Mate(x) in L.open;
      }
    }
  }

  /** Position of `b` in the direction order as seen from `a` (4 when not adjacent). */
  function Rank(a: Cell, b: Cell): nat {
    var d := Toward(a, b);
    if d.Some? then DirIndex(d.value) else 4
  }

  /** The open neighbours of `cell` among the first `n` directions, in direction order. */
  function OpenSteps(L: Layout, cell: Cell, n: nat): (r: seq<Cell>)
    requires n <= 4
    ensures forall b :: b in r <==> Edge(L, cell, b) && Rank(cell, b) < n
    ensures forall i, j :: 0 <= i < j < |r| ==> Rank(cell, r[i]) < Rank(cell, r[j])
    ensures forall i :: 0 <= i < |r| ==> Rank(cell, r[i]) < n
    ensures |r| <= n
  {
    if n == 0 then []
    else
      var d := Dirs[n - 1];
      var b := Step(cell, d);
      TowardStep(cell, d);
      OpenSteps(L, cell, n - 1) + (if (cell, d) in L.open && Within(L.height, L.width, b) then [b] else [])
  }

  /**
   * Reachable neighbours of `cell`: the in-bounds cells behind an open wall,
   * in N, E, S, W order, so without duplicates.
   */
  function NeighborsOf(L: Layout, cell: Cell): (r: seq<Cell>)
    ensures forall b :: b in r <==> Edge(L, cell, b)
    ensures forall i, j :: 0 <= i < j < |r| ==> Rank(cell, r[i]) < Rank(cell, r[j])
    ensures Distinct(r) && |r| <= 4
  {
    var r := OpenSteps(L, cell, 4);
    assert Distinct(r) by {
      forall i, j | 0 <= i < j < |r| ensures r[i] != r[j] {
        assert Rank(cell, r[i]) < Rank(cell, r[j]);
      }
    }
    r
  }

  // ---------------------------------------------------------------------------
  // Sequences

  predicate Distinct<T(==)>(s: seq<T>) {
    forall i, j :: 0 <= i < j < |s| ==> s[i] != s[j]
  }

  function Reversed<T>(s: seq<T>): (r: seq<T>)
    ensures |r| == |s|
    ensures forall i :: 0 <= i < |s| ==> r[i] == s[|s| - 1 - i]
  {
    if s == [] then [] else Reversed(s[1..]) + [s[0]]
  }

  lemma ReversedSnoc<T>(s: seq<T>, x: T)
    ensures Reversed(s + [x]) == [x] + Reversed(s)
  {
    var a, b := Reversed(s + [x]), [x] + Reversed(s);
    assert |a| == |b|;
    forall i | 0 <= i < |a| ensures a[i] == b[i] {
      if i > 0 {
        assert a[i] == (s + [x])[|s| - i];
      }
    }
  }

  /** A sequence of distinct elements of `S` is no longer than `S` is large. */
  lemma {:induction false} DistinctWithin<T>(s: seq<T>, S: set<T>)
    requires Distinct(s) && forall x :: x in s ==> x in S
    ensures |s| <= |S|
  {
    if s != [] {
      var last := s[|s| - 1];
      var t := s[..|s| - 1];
      assert forall x :: x in t ==> x in S - {last} by {
        forall x | x in t ensures x in S - {last} {
          var i :| 0 <= i < |t| && t[i] == x;
          assert s[i] == x && i < |s| - 1;
        }
      }
      DistinctWithin(t, S - {last});
    }
  }

  /** A sequence of distinct elements has as many elements as the set of them. */
  lemma {:induction false} DistinctCard<T>(s: seq<T>)
    requires Distinct(s)
    ensures |set x | x in s| == |s|
  {
    if s != [] {
      var last := s[|s| - 1];
      var t := s[..|s| - 1];
      DistinctCard(t);
      assert (set x | x in s) == (set x | x in t) + {last};
      forall i | 0 <= i < |t| ensures t[i] != last {
        assert t[i] == s[i];
      }
      assert last !in (set x | x in t);
    }
  }

  lemma SubsetCard<T>(A: set<T>, B: set<T>)
    requires A <= B
    ensures |A| <= |B|
  {
    assert B == A + (B - A);
  }

  // ---------------------------------------------------------------------------
  // Paths and reachability

  /** A non-empty walk that starts in bounds and moves only through open walls. */
  ghost predicate IsPath(L: Layout, p: seq<Cell>) {
    && |p| > 0
    && Within(L.height, L.width, p[0])
    && forall i :: 0 <= i < |p| - 1 ==> Edge(L, p[i], p[i + 1])
  }

  ghost predicate IsPathFromTo(L: Layout, p: seq<Cell>, a: Cell, b: Cell) {
    IsPath(L, p) && p[0] == a && p[|p| - 1] == b
  }

  ghost predicate Reachable(L: Layout, a: Cell, b: Cell) {
    exists p :: IsPathFromTo(L, p, a, b)
  }

  lemma PathWithin(L: Layout, p: seq<Cell>)
    requires IsPath(L, p)
    ensures forall i :: 0 <= i < |p| ==> Within(L.height, L.width, p[i])
  {
    forall i | 0 < i < |p| ensures Within(L.height, L.width, p[i]) {
      assert Edge(L, p[i - 1], p[i]);
    }
  }

  lemma PathPrefix(L: Layout, p: seq<Cell>, k: nat)
    requires IsPath(L, p) && 0 < k <= |p|
    ensures IsPathFromTo(L, p[..k], p[0], p[k - 1])
  {
    var q := p[..k];
    forall i | 0 <= i < |q| - 1 ensures Edge(L, q[i], q[i + 1]) {
      assert q[i] == p[i] && q[i + 1] == p[i + 1];
    }
  }

  lemma PathSuffix(L: Layout, p: seq<Cell>, k: nat)
    requires IsPath(L, p) && k < |p|
    ensures IsPathFromTo(L, p[k..], p[k], p[|p| - 1]) && |p[k..]| == |p| - k
  {
    var q := p[k..];
    PathWithin(L, p);
    forall i | 0 <= i < |q| - 1 ensures Edge(L, q[i], q[i + 1]) {
      assert q[i] == p[k + i] && q[i + 1] == p[k + i + 1];
    }
  }

  lemma PathSnoc(L: Layout, p: seq<Cell>, a: Cell, b: Cell)
    requires IsPath(L, p) && p[0] == a && Edge(L, p[|p| - 1], b)
    ensures IsPathFromTo(L, p + [b], a, b)
  {
    var q := p + [b];
    forall i | 0 <= i < |q| - 1 ensures Edge(L, q[i], q[i + 1]) {
      if i < |p| - 1 {
        assert q[i] == p[i] && q[i + 1] == p[i + 1];
      }
    }
  }

  lemma PathCons(L: Layout, a: Cell, p: seq<Cell>, b: Cell)
    requires IsPath(L, p) && p[|p| - 1] == b && Edge(L, a, p[0]) && Within(L.height, L.width, a)
    ensures IsPathFromTo(L, [a] + p, a, b)
  {
    var q := [a] + p;
    forall i | 0 <= i < |q| - 1 ensures Edge(L, q[i], q[i + 1]) {
      if i > 0 {
        assert q[i] == p[i - 1] && q[i + 1] == p[i];
      }
    }
  }

  /** Opening more walls keeps every path a path. */
  lemma PathMono(L1: Layout, L2: Layout, p: seq<Cell>)
    requires L1.height == L2.height && L1.width == L2.width && L1.open <= L2.open
    requires IsPath(L1, p)
    ensures IsPath(L2, p)
  {
    forall i | 0 <= i < |p| - 1 ensures Edge(L2, p[i], p[i + 1]) {
      assert Edge(L1, p[i], p[i + 1]);
    }
  }

  lemma ReachableMono(L1: Layout, L2: Layout, a: Cell, b: Cell)
    requires L1.height == L2.height && L1.width == L2.width && L1.open <= L2.open
    requires Reachable(L1, a, b)
    ensures Reachable(L2, a, b)
  {
    var p :| IsPathFromTo(L1, p, a, b);
    PathMono(L1, L2, p);
    assert IsPathFromTo(L2, p, a, b);
  }

  lemma ReachableStep(L: Layout, a: Cell, b: Cell, c: Cell)
    requires Reachable(L, a, b) && Edge(L, b, c)
    ensures Reachable(L, a, c)
  {
    var p :| IsPathFromTo(L, p, a, b);
    PathSnoc(L, p, a, c);
  }

  /** A walk that starts in a set closed under open edges never leaves it. */
  lemma {:induction false} PathStaysIn(L: Layout, S: set<Cell>, p: seq<Cell>)
    requires IsPath(L, p) && p[0] in S
    requires forall v, w :: v in S && Edge(L, v, w) ==> w in S
    ensures forall i :: 0 <= i < |p| ==> p[i] in S
  {
    if |p| > 1 {
      var q := p[..|p| - 1];
      PathPrefix(L, p, |p| - 1);
      PathStaysIn(L, S, q);
      assert p[|p| - 2] == q[|q| - 1] && Edge(L, p[|p| - 2], p[|p| - 1]);
      forall i | 0 <= i < |p| ensures p[i] in S {
        if i < |q| {
          assert p[i] == q[i];
        }
      }
    }
  }

  /**
   * A set of cells that contains `a`, not `b`, and every open neighbour of each
   * of its cells cuts `b` off from `a`.
   */
  lemma Unreachable(L: Layout, S: set<Cell>, a: Cell, b: Cell)
    requires a in S && b !in S
    requires forall v, w :: v in S && Edge(L, v, w) ==> w in S
    ensures !Reachable(L, a, b)
  {
    forall p | IsPath(L, p) && p[0] == a ensures p[|p| - 1] != b {
      PathStaysIn(L, S, p);
    }
  }

  // ---------------------------------------------------------------------------
  // Row-major enumeration of the cells

  /** Strict row-major order. */
  predicate Before(a: Cell, b: Cell) {
    a.r < b.r || (a.r == b.r && a.c < b.c)
  }

  /** The first `n` cells of row `r`. */
  function Row(r: int, n: nat): (s: seq<Cell>)
    ensures |s| == n
    ensures forall i :: 0 <= i < n ==> s[i] == Cell(r, i)
  {
    if n == 0 then [] else Row(r, n - 1) + [Cell(r, n - 1)]
  }

  /** All cells of the first `rows` rows of a grid `width` wide, in row-major order. */
  function RowMajor(rows: nat, width: nat): (s: seq<Cell>)
    ensures |s| == rows * width
    ensures forall x :: x in s <==> Within(rows, width, x)
    ensures forall i, j :: 0 <= i < j < |s| ==> Before(s[i], s[j])
  {
    if rows == 0 then []
    else
      var prev := RowMajor(rows - 1, width);
      var row := Row(rows - 1, width);
      assert forall x :: x in row <==> x.r == rows - 1 && 0 <= x.c < width by {
        forall x: Cell | x in row ensures x.r == rows - 1 && 0 <= x.c < width {
          var i :| 0 <= i < |row| && row[i] == x;
        }
        forall x: Cell | x.r == rows - 1 && 0 <= x.c < width ensures x in row {
          assert row[x.c] == x;
        }
      }
      forall i, j | 0 <= i < |prev| <= j < |prev| + |row| ensures Before((prev + row)[i], (prev + row)[j]) {
        assert prev[i] in prev && row[j - |prev|] in row;
      }
      prev + row
  }

  /** The set of in-bounds cells. */
  function CellSet(height: nat, width: nat): (s: set<Cell>)
    ensures forall x :: x in s <==> Within(height, width, x)
  {
    set r, c | 0 <= r < height && 0 <= c < width :: Cell(r, c)
  }

  /** There are exactly `height * width` in-bounds cells. */
  lemma CellCount(height: nat, width: nat)
    ensures |CellSet(height, width)| == height * width
  {
    var s := RowMajor(height, width);
    assert Distinct(s) by {
      forall i, j | 0 <= i < j < |s| ensures s[i] != s[j] {
        assert Before(s[i], s[j]);
      }
    }
    DistinctCard(s);
    assert (set x | x in s) == CellSet(height, width);
  }

  /** Adding one more in-bounds cell to a set shrinks what is left of the grid. */
  lemma CellSetShrinks(height: nat, width: nat, V: set<Cell>, x: Cell)
    requires Within(height, width, x) && x !in V
    ensures |CellSet(height, width) - (V + {x})| < |CellSet(height, width) - V|
  {
    var A := CellSet(height, width);
    assert A - (V + {x}) == (A - V) - {x};
    assert x in A - V;
  }
}
