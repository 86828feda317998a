/** The maze as the solver sees it: fixed dimensions, the wall positions,
    and the start and end cells. The solver compares cells by reference; the
    model assumes the maze holds one cell object per position, so reference
    equality is coordinate equality and a cell is identified here by its
    coordinates. */
module Grid {

  datatype Option<+T> = None | Some(value: T)

  /** A grid position; rows grow southwards, columns eastwards. */
  datatype Cell = Cell(row: int, col: int)

  datatype Maze = Maze(rows: nat, cols: nat, walls: set<Cell>, start: Cell, end: Cell)
  {
    /** `isValidCell`: inside the grid and not a wall. */
    predicate IsValidCell(row: int, col: int) {
      0 <= row < rows && 0 <= col < cols && Cell(row, col) !in walls
    }

    predicate IsOpen(c: Cell) {
      IsValidCell(c.row, c.col)
    }

    /** What a solve needs of its maze: start and end are open cells. */
    predicate WellFormed() {
      IsOpen(start) && IsOpen(end)
    }

    /** The finite set of open cells; it bounds how often a search can
        mark a new cell explored. */
    function OpenCells(): (r: set<Cell>)
      ensures forall c :: c in r <==> IsOpen(c)
    {
      set row: int, col: int | 0 <= row < rows && 0 <= col < cols && Cell(row, col) !in walls :: Cell(row, col)
    }
  }

  // The four probes of the neighbour search, in the order it makes them.
  function North(c: Cell): (r: Cell) { Cell(c.row - 1, c.col) }
  function East(c: Cell): (r: Cell) { Cell(c.row, c.col + 1) }
  function South(c: Cell): (r: Cell) { Cell(c.row + 1, c.col) }
  function West(c: Cell): (r: Cell) { Cell(c.row, c.col - 1) }

  /** Orthogonal adjacency, stated independently of the four probes:
      the cells differ by one in exactly one coordinate. */
  predicate Adjacent(a: Cell, b: Cell) {
    || (a.row == b.row && (a.col - b.col == 1 || b.col - a.col == 1))
    || (a.col == b.col && (a.row - b.row == 1 || b.row - a.row == 1))
  }

  /** Position of `n` in the probe order N, E, S, W around `c`
      (4 when `n` is none of the four). */
  function DirectionIndex(c: Cell, n: Cell): (r: nat) {
    if n == North(c) then 0
    else if n == East(c) then 1
    else if n == South(c) then 2
    else if n == West(c) then 3
    else 4
  }

  /** The four probes are exactly the adjacent cells, and they are distinct. */
  lemma ProbesAreAdjacentCells(c: Cell, n: Cell)
    ensures Adjacent(c, n) <==> DirectionIndex(c, n) < 4
    ensures Adjacent(c, n) <==> Adjacent(n, c)
    ensures DirectionIndex(c, North(c)) == 0 && DirectionIndex(c, East(c)) == 1
    ensures DirectionIndex(c, South(c)) == 2 && DirectionIndex(c, West(c)) == 3
  {
  }

  /** A walk through open cells from `from` to `to`, each step N, E, S or W. */
  ghost predicate IsPath(m: Maze, w: seq<Cell>, from: Cell, to: Cell) {
    && |w| >= 1
    && w[0] == from
    && w[|w| - 1] == to
    && (forall i :: 0 <= i < |w| ==> m.IsOpen(w[i]))
    && (forall i :: 0 <= i < |w| - 1 ==> Adjacent(w[i], w[i + 1]))
  }

  ghost predicate Reachable(m: Maze) {
    exists w :: IsPath(m, w, m.start, m.end)
  }

  /** A set of cells that no step through an open cell can leave keeps
      every walk that starts inside it. */
  lemma {:induction false} ClosedSetKeepsWalks(m: Maze, inside: set<Cell>, w: seq<Cell>, from: Cell, to: Cell)
    requires forall x, n :: x in inside && Adjacent(x, n) && m.IsOpen(n) ==> n in inside
    requires IsPath(m, w, from, to)
    requires from in inside
    ensures to in inside
    decreases |w|
  {
    if |w| > 1 {
      assert Adjacent(w[0], w[1]) && m.IsOpen(w[1]);
      var rest := w[1..];
      assert IsPath(m, rest, w[1], to) by {
        forall i | 0 <= i < |rest| - 1
          ensures Adjacent(rest[i], rest[i + 1])
        {
          assert Adjacent(w[i + 1], w[i + 2]);
        }
      }
      ClosedSetKeepsWalks(m, inside, rest, w[1], to);
    }
  }
}
