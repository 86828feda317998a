/** Neighbour discovery: the four probes around a popped cell, each kept
    when it is a valid cell that is not yet explored. */
module Neighbors {
  import opened Grid

  /** `exploreNeighbor`: appends the cell at (row, col) to `neighbors` exactly
      when it is inside the grid, not a wall and not explored. */
  function ExploreNeighbor(m: Maze, explored: set<Cell>, row: int, col: int, neighbors: seq<Cell>): (r: seq<Cell>)
    ensures |neighbors| <= |r| <= |neighbors| + 1
    ensures r[..|neighbors|] == neighbors
    ensures |r| == |neighbors| + 1 <==> m.IsValidCell(row, col) && Cell(row, col) !in explored
    ensures |r| == |neighbors| + 1 ==> r[|neighbors|] == Cell(row, col)
  {
    if m.IsValidCell(row, col) && Cell(row, col) !in explored then
      neighbors + [Cell(row, col)]
    else
      neighbors
  }

  /** `getUnexploredNeighbors`: the open, unexplored cells adjacent to `c`,
      each once, in the probe order north, east, south, west. */
  function UnexploredNeighbors(m: Maze, explored: set<Cell>, c: Cell): (r: seq<Cell>)
    ensures |r| <= 4
    ensures forall n :: n in r <==> Adjacent(c, n) && m.IsOpen(n) && n !in explored
    ensures forall i, j :: 0 <= i < j < |r| ==> DirectionIndex(c, r[i]) < DirectionIndex(c, r[j])
  {
    var north := ExploreNeighbor(m, explored, c.row - 1, c.col, []);
    var east := ExploreNeighbor(m, explored, c.row, c.col + 1, north);
    var south := ExploreNeighbor(m, explored, c.row + 1, c.col, east);
    ExploreNeighbor(m, explored, c.row, c.col - 1, south)
  }

  /** The last probe is west: when the west cell qualifies it is the last
      element of the list, so it is the last one pushed. */
  lemma WestIsProbedLast(m: Maze, explored: set<Cell>, c: Cell)
    requires m.IsOpen(West(c)) && West(c) !in explored
    ensures var r := UnexploredNeighbors(m, explored, c); |r| > 0 && r[|r| - 1] == West(c)
  {
  }
}
