/** Path reconstruction: walk the parent links back from the end cell to a
    cell without a parent, prepending each cell met. A missing key in the
    parent map is a null parent. */
module Backtrack {
  import opened Grid

  /** `getParent()`: the parent link of `c`, None for null. */
  function ParentOf(parent: map<Cell, Cell>, c: Cell): (r: Option<Cell>)
    ensures r.Some? <==> c in parent
    ensures r.Some? ==> r.value == parent[c]
  {
    if c in parent then Some(parent[c]) else None
  }

  /** `rank` strictly decreases along every parent link. */
  ghost predicate Ranks(parent: map<Cell, Cell>, rank: map<Cell, nat>) {
    forall c :: c in parent ==> c in rank && parent[c] in rank && rank[parent[c]] < rank[c]
  }

  /** No chain of parent links comes back to where it started. */
  ghost predicate Acyclic(parent: map<Cell, Cell>) {
    exists rank :: Ranks(parent, rank)
  }

  /** `path` reads from a cell with no parent to `end`, and each cell is the
      parent of the one after it. */
  ghost predicate IsBacktrack(parent: map<Cell, Cell>, end: Cell, path: seq<Cell>) {
    && |path| >= 1
    && path[|path| - 1] == end
    && path[0] !in parent
    && (forall i :: 0 < i < |path| ==> path[i] in parent && parent[path[i]] == path[i - 1])
  }

  /** Distance measure for the walk back: links go to strictly lower rank. */
  ghost function Height(rank: map<Cell, nat>, current: Option<Cell>): (r: nat) {
    match current
    case None => 0
    case Some(c) => if c in rank then rank[c] + 1 else 1
  }

  /** `getSolution`: the cells from the root of `end`'s parent chain to
      `end`, in that order. When `end` has no parent the result is [end]. */
  method GetSolution(parent: map<Cell, Cell>, end: Cell) returns (path: seq<Cell>)
    requires Acyclic(parent)
    ensures IsBacktrack(parent, end, path)
    ensures end !in parent ==> path == [end]
  {
    ghost var rank :| Ranks(parent, rank);
    path := [];
    var current: Option<Cell> := Some(end);
    while current.Some?
      invariant path == [] ==> current == Some(end)
      invariant path != [] ==> path[|path| - 1] == end
      invariant current.None? ==> path != [] && path[0] !in parent
      invariant current.Some? && path != [] ==> path[0] in parent && parent[path[0]] == current.value
      invariant forall i :: 0 < i < |path| ==> path[i] in parent && parent[path[i]] == path[i - 1]
      decreases Height(rank, current)
    {
      path := [current.value] + path;
      current := ParentOf(parent, current.value);
    }
  }

  /** The backtrack is determined by the parent map and the end cell: two
      sequences that both satisfy it are equal. */
  lemma {:induction false} BacktrackIsUnique(parent: map<Cell, Cell>, end: Cell, p: seq<Cell>, q: seq<Cell>)
    requires IsBacktrack(parent, end, p) && IsBacktrack(parent, end, q)
    ensures p == q
    decreases |p|
  {
    if |p| > 1 && |q| > 1 {
      var p', q' := p[..|p| - 1], q[..|q| - 1];
      assert p[|p| - 1] == end && parent[p[|p| - 1]] == p[|p| - 2];
      assert q[|q| - 1] == end && parent[q[|q| - 1]] == q[|q| - 2];
      assert IsBacktrack(parent, parent[end], p');
      assert IsBacktrack(parent, parent[end], q');
      BacktrackIsUnique(parent, parent[end], p', q');
      assert p == p' + [end] && q == q' + [end];
    }
  }
}
