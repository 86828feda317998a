/** One iteration of the loop shared by the depth-first and breadth-first
    searches, the invariant that iteration keeps, and the measure it lowers. */
module Traversal {
  import opened Grid
  import opened Neighbors
  import opened Frontier
  import opened Backtrack

  /** Everything a solve mutates: the frontier container, and for every cell
      its explored flag (membership in `explored`) and its parent link
      (a missing key is a null parent). */
  datatype Search = Search(frontier: seq<Cell>, explored: set<Cell>, parent: map<Cell, Cell>)

  /** The inner for-loop: for each neighbour in turn, set its parent to `cur`
      (overwriting any earlier link) and push it. */
  function Expand(s: Search, cur: Cell, ns: seq<Cell>): (r: Search)
    ensures r.explored == s.explored
    ensures r.frontier == s.frontier + ns
    ensures forall c :: c in r.parent <==> c in s.parent || c in ns
    ensures forall c :: c in ns ==> r.parent[c] == cur
    ensures forall c :: c in s.parent && c !in ns ==> r.parent[c] == s.parent[c]
    decreases |ns|
  {
    if ns == [] then s
    else
      var r := Expand(Search(Push(s.frontier, ns[0]), s.explored, s.parent[ns[0] := cur]), cur, ns[1..]);
      assert s.frontier + ns == Push(s.frontier, ns[0]) + ns[1..];
      assert forall c :: c in ns <==> c == ns[0] || c in ns[1..];
      r
  }

  /** The loop body: take an entry off the frontier, mark it explored, and,
      unless it is the end cell, expand its unexplored neighbours. Explored
      flags only go from false to true, and only the popped cell's does; the
      popped entry leaves the frontier, the pushed cells are exactly the
      unexplored neighbours in probe order, each of them is linked to the
      popped cell (overwriting an earlier link), and no other link changes. */
  function Step(m: Maze, d: Discipline, s: Search): (r: Search)
    requires s.frontier != []
    ensures r.explored == s.explored + {Pop(s.frontier, d).0}
    ensures s.parent.Keys <= r.parent.Keys
    ensures Pop(s.frontier, d).0 == m.end ==> r.frontier == Pop(s.frontier, d).1 && r.parent == s.parent
    ensures Pop(s.frontier, d).0 != m.end ==>
      r.frontier == Pop(s.frontier, d).1 + UnexploredNeighbors(m, r.explored, Pop(s.frontier, d).0)
    ensures Pop(s.frontier, d).0 != m.end ==>
      var cur := Pop(s.frontier, d).0;
      var ns := UnexploredNeighbors(m, r.explored, cur);
      && (forall c :: c in ns ==> c in r.parent && r.parent[c] == cur)
      && (forall c :: c in s.parent && c !in ns ==> r.parent[c] == s.parent[c])
      && (forall c :: c in r.parent ==> c in s.parent || c in ns)
  {
    var (cur, rest) := Pop(s.frontier, d);
    var explored := s.explored + {cur};
    if cur == m.end then Search(rest, explored, s.parent)
    else Expand(Search(rest, explored, s.parent), cur, UnexploredNeighbors(m, explored, cur))
  }

  /** The state every solve starts from: the start cell on the frontier, and
      every cell unexplored with a null parent (what `reset` provides). */
  function Initial(m: Maze): (r: Search) {
    Search([m.start], {}, map[])
  }

  /** Only open cells are ever pushed, explored or linked, and every link
      points back to an explored, adjacent cell. */
  ghost predicate OpenAndLinked(m: Maze, s: Search) {
    && (forall c :: c in s.frontier ==> m.IsOpen(c))
    && (forall c :: c in s.explored ==> m.IsOpen(c))
    && (forall c :: c in s.parent ==> m.IsOpen(c) && s.parent[c] in s.explored && Adjacent(s.parent[c], c))
  }

  /** The start cell is the only cell explored or pushed without a parent,
      and it never gets one. */
  ghost predicate RootedAtStart(m: Maze, s: Search) {
    && m.start !in s.parent
    && (s.explored == {} ==> s.frontier == [m.start])
    && (s.explored != {} ==> m.start in s.explored)
    && (forall c :: c in s.explored ==> c == m.start || c in s.parent)
    && (forall c :: c in s.frontier ==> c == m.start || c in s.parent)
  }

  /** `at` records when each explored cell was first explored, by a counter
      `clock` that ticks once per iteration; a parent was explored strictly
      before its explored child. Both exist only for the proof. */
  ghost predicate Stamped(s: Search, at: map<Cell, nat>, clock: nat) {
    && at.Keys == s.explored
    && (forall c :: c in at ==> at[c] < clock)
    && (forall c :: c in s.parent && c in s.explored ==> s.parent[c] in at && at[s.parent[c]] < at[c])
  }

  /** What holds at the head of the solve loop. */
  ghost predicate Inv(m: Maze, s: Search, at: map<Cell, nat>, clock: nat) {
    OpenAndLinked(m, s) && RootedAtStart(m, s) && Stamped(s, at, clock)
  }

  /** What additionally holds while the end cell has not been popped: it is
      unexplored, it is on the frontier once it has a parent, and every open
      cell next to an explored cell is explored or waiting on the frontier. */
  ghost predicate Live(m: Maze, s: Search) {
    && m.end !in s.explored
    && (m.end in s.parent ==> m.end in s.frontier)
    && (forall x, n :: x in s.explored && Adjacent(x, n) && m.IsOpen(n) ==> n in s.explored || n in s.frontier)
  }

  /** The exploration stamps after one more iteration. */
  ghost function Stamp(at: map<Cell, nat>, clock: nat, cur: Cell): (r: map<Cell, nat>) {
    if cur in at then at else at[cur := clock]
  }

  /** Termination measure, compared lexicographically. */
  function UnexploredCount(m: Maze, s: Search): (r: nat) {
    |m.OpenCells() - s.explored|
  }

  lemma InitialSatisfiesInv(m: Maze)
    requires m.WellFormed()
    ensures Inv(m, Initial(m), map[], 0) && Live(m, Initial(m))
  {
  }

  /** An explored cell's parent link never changes again. */
  lemma StepKeepsExploredParents(m: Maze, d: Discipline, s: Search)
    requires s.frontier != []
    ensures var s' := Step(m, d, s);
      forall c :: c in s'.explored ==> (c in s'.parent <==> c in s.parent) && (c in s.parent ==> s'.parent[c] == s.parent[c])
  {
  }

  /** A link is only set (or overwritten) on an open, still unexplored
      neighbour of the popped cell, and it points to the popped cell, which
      is explored and is not the end cell. */
  lemma StepLinksToPopped(m: Maze, d: Discipline, s: Search)
    requires s.frontier != []
    ensures var cur := Pop(s.frontier, d).0; var s' := Step(m, d, s);
      forall c :: c in s'.parent && (c !in s.parent || s'.parent[c] != s.parent[c]) ==>
        && s'.parent[c] == cur && cur != m.end && cur in s'.explored
        && c !in s'.explored && m.IsOpen(c) && Adjacent(cur, c)
  {
  }

  lemma {:induction false} StepKeepsOpenAndLinked(m: Maze, d: Discipline, s: Search)
    requires OpenAndLinked(m, s) && s.frontier != []
    ensures OpenAndLinked(m, Step(m, d, s))
  {
    var (cur, rest) := Pop(s.frontier, d);
    var s' := Step(m, d, s);
    StepLinksToPopped(m, d, s);
    forall c | c in s'.frontier
      ensures m.IsOpen(c)
    {
      if c !in rest {
        assert c in UnexploredNeighbors(m, s'.explored, cur);
      }
    }
    forall c | c in s'.parent
      ensures m.IsOpen(c) && s'.parent[c] in s'.explored && Adjacent(s'.parent[c], c)
    {
      if c in s.parent && s'.parent[c] == s.parent[c] {
        assert s.parent[c] in s.explored;
      }
    }
  }

  lemma {:induction false} StepKeepsRootedAtStart(m: Maze, d: Discipline, s: Search)
    requires RootedAtStart(m, s) && s.frontier != []
    ensures RootedAtStart(m, Step(m, d, s))
  {
    var (cur, rest) := Pop(s.frontier, d);
    var s' := Step(m, d, s);
    StepKeepsExploredParents(m, d, s);
    StepLinksToPopped(m, d, s);
    assert cur == m.start || cur in s.parent;
    assert m.start in s'.explored;
    forall c | c in s'.frontier
      ensures c == m.start || c in s'.parent
    {
      if c !in rest {
        var ns := UnexploredNeighbors(m, s'.explored, cur);
        assert c in ns;
      }
    }
  }

  /** Once the first iteration has explored the start cell, no iteration
      pushes it again: every entry pushed is a cell other than the start. */
  lemma StartNeverPushedAgain(m: Maze, d: Discipline, s: Search)
    requires RootedAtStart(m, s) && s.frontier != []
    ensures var rest := Pop(s.frontier, d).1; var s' := Step(m, d, s);
      |rest| <= |s'.frontier| && forall i :: |rest| <= i < |s'.frontier| ==> s'.frontier[i] != m.start
  {
    var (cur, rest) := Pop(s.frontier, d);
    var s' := Step(m, d, s);
    assert m.start in s'.explored;
    if cur != m.end {
      var ns := UnexploredNeighbors(m, s'.explored, cur);
      forall i | |rest| <= i < |s'.frontier|
        ensures s'.frontier[i] != m.start
      {
        assert s'.frontier[i] == ns[i - |rest|];
        assert s'.frontier[i] in ns;
      }
    }
  }

  lemma {:induction false} StepKeepsStamped(m: Maze, d: Discipline, s: Search, at: map<Cell, nat>, clock: nat)
    requires OpenAndLinked(m, s) && Stamped(s, at, clock) && s.frontier != []
    ensures Stamped(Step(m, d, s), Stamp(at, clock, Pop(s.frontier, d).0), clock + 1)
  {
    var cur := Pop(s.frontier, d).0;
    var s' := Step(m, d, s);
    var at' := Stamp(at, clock, cur);
    StepKeepsExploredParents(m, d, s);
    forall c | c in s'.parent && c in s'.explored
      ensures at'[s'.parent[c]] < at'[c]
    {
      assert c in s.parent && s'.parent[c] == s.parent[c];
    }
  }

  lemma StepKeepsInv(m: Maze, d: Discipline, s: Search, at: map<Cell, nat>, clock: nat)
    requires Inv(m, s, at, clock) && s.frontier != []
    ensures Inv(m, Step(m, d, s), Stamp(at, clock, Pop(s.frontier, d).0), clock + 1)
  {
    StepKeepsOpenAndLinked(m, d, s);
    StepKeepsRootedAtStart(m, d, s);
    StepKeepsStamped(m, d, s, at, clock);
  }

  lemma {:induction false} StepKeepsLive(m: Maze, d: Discipline, s: Search)
    requires Live(m, s) && s.frontier != []
    requires Pop(s.frontier, d).0 != m.end
    ensures Live(m, Step(m, d, s))
  {
    var (cur, rest) := Pop(s.frontier, d);
    var s' := Step(m, d, s);
    var ns := UnexploredNeighbors(m, s'.explored, cur);
    assert s'.frontier == rest + ns;
    forall x, n | x in s'.explored && Adjacent(x, n) && m.IsOpen(n)
      ensures n in s'.explored || n in s'.frontier
    {
      if n !in s'.explored {
        if x == cur {
          assert n in ns;
        } else {
          assert n in s.frontier && n != cur;
        }
      }
    }
    if m.end in s'.parent && m.end !in s.parent {
      StepLinksToPopped(m, d, s);
      assert m.end in ns;
    }
  }

  /** The loop measure: the number of unexplored open cells, then the number
      of frontier entries that are already explored, drops lexicographically
      with every iteration. */
  lemma {:induction false} StepDecreases(m: Maze, d: Discipline, s: Search)
    requires OpenAndLinked(m, s) && s.frontier != []
    ensures var s' := Step(m, d, s);
      || UnexploredCount(m, s') < UnexploredCount(m, s)
      || (UnexploredCount(m, s') == UnexploredCount(m, s)
          && ExploredEntries(s'.frontier, s'.explored) < ExploredEntries(s.frontier, s.explored))
  {
    var (cur, rest) := Pop(s.frontier, d);
    var s' := Step(m, d, s);
    var open := m.OpenCells();
    assert m.IsOpen(cur);
    if cur !in s.explored {
      assert open - s'.explored == (open - s.explored) - {cur};
      assert cur in open - s.explored;
    } else {
      assert s'.explored == s.explored;
      if d == Lifo {
        ExploredEntriesAppend(rest, [cur], s.explored);
      } else {
        ExploredEntriesAppend([cur], rest, s.explored);
      }
      assert ExploredEntries([cur], s.explored) == 1;
      if cur != m.end {
        var ns := UnexploredNeighbors(m, s'.explored, cur);
        ExploredEntriesAppend(rest, ns, s'.explored);
        assert ExploredEntries(ns, s'.explored) == 0;
      }
    }
  }

  /** The stamps rank the parent map, so no parent chain is a cycle. */
  lemma InvGivesAcyclic(m: Maze, s: Search, at: map<Cell, nat>, clock: nat)
    requires Inv(m, s, at, clock)
    ensures Acyclic(s.parent)
  {
    var rank := map c | c in s.explored + s.parent.Keys :: if c in s.explored then at[c] else clock;
    assert Ranks(s.parent, rank);
  }

  /** Depth-first order: when the west cell of the popped cell qualifies, it
      is the next cell popped, although it is the last one probed. */
  lemma StackExpandsWestFirst(m: Maze, s: Search)
    requires s.frontier != []
    requires var cur := Pop(s.frontier, Lifo).0;
      cur != m.end && m.IsOpen(West(cur)) && West(cur) !in s.explored
    ensures var s' := Step(m, Lifo, s);
      s'.frontier != [] && Pop(s'.frontier, Lifo).0 == West(Pop(s.frontier, Lifo).0)
  {
    var cur := Pop(s.frontier, Lifo).0;
    WestIsProbedLast(m, s.explored + {cur}, cur);
  }

  /** Breadth-first order: the next cell popped is the oldest entry left,
      whatever this iteration pushed behind it. */
  lemma QueueTakesOldest(m: Maze, s: Search)
    requires |s.frontier| >= 2
    ensures var s' := Step(m, Fifo, s);
      s'.frontier != [] && Pop(s'.frontier, Fifo).0 == s.frontier[1]
  {
  }
}
