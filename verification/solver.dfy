/** The two searches of the maze solver. Both run the same loop and differ
    only in the frontier discipline: a stack for depth-first search, a queue
    for breadth-first search. The path is then read back from the parent
    links. */
module MazeSolver {
  import opened Grid
  import opened Frontier
  import opened Backtrack
  import opened Traversal

  /** The explored flag and the parent link of every cell of the maze, as
      the cells hold them between solves. */
  datatype CellState = CellState(explored: set<Cell>, parent: map<Cell, Cell>)
  {
    /** Every cell unexplored with a null parent: the state `reset` leaves. */
    predicate IsReset() {
      explored == {} && parent == map[]
    }
  }

  /** What a solve returns: a walk from start to end through open cells when
      one exists, and otherwise the one-element list holding the end cell
      (the end cell was never reached, so its parent link is null). */
  ghost predicate SolvesMaze(m: Maze, path: seq<Cell>) {
    && (Reachable(m) ==> IsPath(m, path, m.start, m.end))
    && (!Reachable(m) ==> path == [m.end])
  }

  /** The cell state a solve leaves behind: a tree rooted at the start cell.
      The start is explored and has no parent, every other explored cell has
      one, and every link points to an explored, adjacent cell along an
      acyclic chain. */
  ghost predicate LeavesParentTree(m: Maze, after: CellState) {
    && m.start in after.explored
    && m.start !in after.parent
    && (forall c :: c in after.explored ==> c == m.start || c in after.parent)
    && (forall c :: c in after.parent ==> Adjacent(after.parent[c], c) && after.parent[c] in after.explored)
    && Acyclic(after.parent)
  }

  /** The shared loop: pop, mark explored, stop at the end cell, otherwise
      link and push the unexplored neighbours; then walk the links back. */
  method Solve(m: Maze, cells: CellState, d: Discipline) returns (path: seq<Cell>, after: CellState)
    requires m.WellFormed() && cells.IsReset()
    ensures SolvesMaze(m, path)
    ensures m.start == m.end ==> path == [m.start]
    ensures LeavesParentTree(m, after)
    ensures !Reachable(m) ==> m.end !in after.explored && m.end !in after.parent
    ensures IsBacktrack(after.parent, m.end, path)
  {
    var s := Search([m.start], cells.explored, cells.parent);
    ghost var at: map<Cell, nat> := map[];
    ghost var clock: nat := 0;
    ghost var found := false;
    InitialSatisfiesInv(m);
    while s.frontier != []
      invariant Inv(m, s, at, clock)
      invariant Live(m, s)
      invariant !found
      decreases UnexploredCount(m, s), ExploredEntries(s.frontier, s.explored)
    {
      var cur := Pop(s.frontier, d).0;
      StepKeepsInv(m, d, s, at, clock);
      StepDecreases(m, d, s);
      if cur != m.end {
        StepKeepsLive(m, d, s);
      }
      s, at, clock := Step(m, d, s), Stamp(at, clock, cur), clock + 1;
      if cur == m.end {
        found := true;
        break;
      }
    }
    InvGivesAcyclic(m, s, at, clock);
    path := GetSolution(s.parent, m.end);
    if found {
      FoundPathIsWalk(m, s, at, clock, path);
    } else {
      ExhaustedMeansUnreachable(m, s, at, clock);
    }
    after := CellState(s.explored, s.parent);
  }

  /** `solveMazeDFS`: the shared loop over a stack. */
  method SolveDFS(m: Maze, cells: CellState) returns (path: seq<Cell>, after: CellState)
    requires m.WellFormed() && cells.IsReset()
    ensures SolvesMaze(m, path)
    ensures m.start == m.end ==> path == [m.start]
    ensures LeavesParentTree(m, after)
    ensures !Reachable(m) ==> m.end !in after.explored && m.end !in after.parent
    ensures IsBacktrack(after.parent, m.end, path)
  {
    path, after := Solve(m, cells, Lifo);
  }

  /** `solveMazeBFS`: the shared loop over a queue. */
  method SolveBFS(m: Maze, cells: CellState) returns (path: seq<Cell>, after: CellState)
    requires m.WellFormed() && cells.IsReset()
    ensures SolvesMaze(m, path)
    ensures m.start == m.end ==> path == [m.start]
    ensures LeavesParentTree(m, after)
    ensures !Reachable(m) ==> m.end !in after.explored && m.end !in after.parent
    ensures IsBacktrack(after.parent, m.end, path)
  {
    path, after := Solve(m, cells, Fifo);
  }

  /** Once the end cell is explored, the backtrack from it is a walk from
      the start cell; when start and end coincide it is that one cell. */
  lemma FoundPathIsWalk(m: Maze, s: Search, at: map<Cell, nat>, clock: nat, path: seq<Cell>)
    requires m.WellFormed() && Inv(m, s, at, clock)
    requires m.end in s.explored
    requires IsBacktrack(s.parent, m.end, path)
    ensures IsPath(m, path, m.start, m.end)
    ensures Reachable(m)
    ensures m.start == m.end ==> path == [m.start]
  {
    assert path[0] in s.explored by {
      if |path| > 1 {
        assert s.parent[path[1]] == path[0];
      }
    }
    forall i | 0 <= i < |path|
      ensures m.IsOpen(path[i])
    {
      if i < |path| - 1 {
        assert s.parent[path[i + 1]] == path[i];
      }
    }
    forall i | 0 <= i < |path| - 1
      ensures Adjacent(path[i], path[i + 1])
    {
      assert s.parent[path[i + 1]] == path[i];
    }
    assert IsPath(m, path, m.start, m.end);
  }

  /** When the frontier runs dry before the end cell is popped, the explored
      cells contain the start cell, exclude the end cell and cannot be left
      by a step into an open cell, so no walk joins start to end. */
  lemma ExhaustedMeansUnreachable(m: Maze, s: Search, at: map<Cell, nat>, clock: nat)
    requires Inv(m, s, at, clock) && Live(m, s) && s.frontier == []
    ensures !Reachable(m)
    ensures m.start != m.end
  {
    assert m.start in s.explored;
    forall w | IsPath(m, w, m.start, m.end)
      ensures false
    {
      ClosedSetKeepsWalks(m, s.explored, w, m.start, m.end);
    }
  }
}
