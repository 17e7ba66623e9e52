/**
 * Reading a path off a policy, as value and policy iteration hand it over:
 * the policy maps a cell to the cell it moves to, or to `None` when it names
 * no move. The walk starts at `start`, stops at `goal`, at a cell without a
 * move, or just before it would revisit a cell, and never fails.
 */
module PathExtract {
  import opened Wrappers
  import opened Grid

  /** The move the policy names at `c`; `None` when `c` has no entry or its entry is `None`. */
  function Next(policy: map<Cell, Option<Cell>>, c: Cell): Option<Cell> {
    if c in policy then policy[c] else None
  }

  /** Every cell a walk can visit: `start` and the cells the policy moves to. */
  ghost function Reach(policy: map<Cell, Option<Cell>>, start: Cell): set<Cell> {
    {start} + set o | o in policy.Values && o.Some? :: o.value
  }

  /** The walk has to stop at `c`: it is the goal, the policy names no move there, or the move revisits `path`. */
  predicate Stops(policy: map<Cell, Option<Cell>>, goal: Cell, path: seq<Cell>, c: Cell) {
    c == goal || Next(policy, c).None? || Next(policy, c).value in path
  }

  /**
   * What the walk returns: a non-empty sequence of distinct cells from
   * `start`, each cell before the last is not the goal and moves to the next
   * one, and the walk has to stop at the last one.
   */
  predicate IsWalk(policy: map<Cell, Option<Cell>>, start: Cell, goal: Cell, path: seq<Cell>) {
    && path != [] && path[0] == start
    && Distinct(path)
    && (forall i :: 0 <= i < |path| - 1 ==> path[i] != goal && Next(policy, path[i]) == Some(path[i + 1]))
    && Stops(policy, goal, path, path[|path| - 1])
  }

  /**
   * Follows the policy from `start`: appends the current cell, stops at the
   * goal, otherwise moves to the cell the policy names, stopping when there
   * is none or it is already on the path.
   */
  method ExtractPath(policy: map<Cell, Option<Cell>>, start: Cell, goal: Cell) returns (path: seq<Cell>)
    ensures IsWalk(policy, start, goal, path)
    ensures goal in path ==> path[|path| - 1] == goal
    ensures |path| <= |Reach(policy, start)|
  {
    path := [];
    var current: Option<Cell> := Some(start);
    ghost var seen: set<Cell> := {};
    while current.Some?
      invariant path == [] ==> current == Some(start)
      invariant path != [] ==> path[0] == start && current == Next(policy, path[|path| - 1])
      invariant Distinct(path) && goal !in path
      invariant forall i :: 0 <= i < |path| - 1 ==> Next(policy, path[i]) == Some(path[i + 1])
      invariant current.Some? ==> current.value !in path && current.value in Reach(policy, start)
      invariant (forall x :: x in path <==> x in seen) && seen <= Reach(policy, start)
      decreases Reach(policy, start) - seen
    {
      var c := current.value;
      Extend(policy, start, path, c);
      path := path + [c];
      seen := seen + {c};
      if c == goal {
        assert Stops(policy, goal, path, c);
        break;
      }
      current := Next(policy, c);
      if current.Some? {
        assert policy[c] in policy.Values;
      }
      if current.Some? && current.value in path {
        assert Stops(policy, goal, path, c);
        break;
      }
    }
    assert path != [] && Stops(policy, goal, path, path[|path| - 1]);
    DistinctWithin(path, Reach(policy, start));
  }

  /** Appending the cell the walk moves to keeps it a distinct, policy-following sequence from `start`. */
  lemma Extend(policy: map<Cell, Option<Cell>>, start: Cell, path: seq<Cell>, c: Cell)
    requires path == [] ==> c == start
    requires path != [] ==> path[0] == start && Next(policy, path[|path| - 1]) == Some(c)
    requires Distinct(path) && c !in path
    requires forall i :: 0 <= i < |path| - 1 ==> Next(policy, path[i]) == Some(path[i + 1])
    ensures (path + [c])[0] == start && Distinct(path + [c])
    ensures forall i :: 0 <= i < |path| ==> Next(policy, (path + [c])[i]) == Some((path + [c])[i + 1])
  {
    var p := path + [c];
    forall i | 0 <= i < |path| ensures Next(policy, p[i]) == Some(p[i + 1]) {
      assert p[i] == path[i];
    }
  }

  /** Two walks agree on their first `k` cells. */
  lemma {:induction false} WalksAgree(policy: map<Cell, Option<Cell>>, start: Cell, goal: Cell, p: seq<Cell>, q: seq<Cell>, k: nat)
    requires IsWalk(policy, start, goal, p) && IsWalk(policy, start, goal, q)
    requires k <= |p| && k <= |q|
    ensures forall i :: 0 <= i < k ==> p[i] == q[i]
  {
    if k > 1 {
      WalksAgree(policy, start, goal, p, q, k - 1);
      assert p[k - 2] == q[k - 2];
    }
  }

  /** No walk is a proper prefix of another: the shorter one would have to stop where the longer one goes on. */
  lemma ShorterWalk(policy: map<Cell, Option<Cell>>, start: Cell, goal: Cell, p: seq<Cell>, q: seq<Cell>)
    requires IsWalk(policy, start, goal, p) && IsWalk(policy, start, goal, q)
    ensures |p| >= |q|
  {
    if |p| < |q| {
      WalksAgree(policy, start, goal, p, q, |p|);
      GoesOn(policy, start, goal, q, p);
      assert false;
    }
  }

  /** A walk does not stop at a cell it goes on from: its first `|p|` cells, as `p`, do not stop at their last cell. */
  lemma GoesOn(policy: map<Cell, Option<Cell>>, start: Cell, goal: Cell, q: seq<Cell>, p: seq<Cell>)
    requires IsWalk(policy, start, goal, q) && 0 < |p| < |q|
    requires forall i :: 0 <= i < |p| ==> p[i] == q[i]
    ensures !Stops(policy, goal, p, p[|p| - 1])
  {
    var n := |p|;
    assert p[n - 1] == q[n - 1] && Next(policy, q[n - 1]) == Some(q[n]);
    forall i | 0 <= i < n ensures p[i] != q[n] {
      assert p[i] == q[i];
    }
  }

  /** `IsWalk` pins the walk down: the policy, start and goal determine it. */
  lemma WalkIsUnique(policy: map<Cell, Option<Cell>>, start: Cell, goal: Cell, p: seq<Cell>, q: seq<Cell>)
    requires IsWalk(policy, start, goal, p) && IsWalk(policy, start, goal, q)
    ensures p == q
  {
    ShorterWalk(policy, start, goal, p, q);
    ShorterWalk(policy, start, goal, q, p);
    WalksAgree(policy, start, goal, p, q, |p|);
  }
}
