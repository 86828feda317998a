# Maze solver traversal, modelled in Dafny

This project models the traversal core of a grid maze solver, `MazeSolver`. It
finds a path from a start cell to an end cell by depth-first search (a stack)
or breadth-first search (a queue). The search keeps an explored flag and a
parent link on every cell. The path is then read back by walking the parent
links from the end cell.

Modules, following the structure of the Java class:

- `Grid` (`grid.dfy`): cells as `(row, col)` pairs. The maze is its
  dimensions, a set of wall positions, and start and end cells. It also
  defines `isValidCell`, the four probes N/E/S/W, adjacency, and walks and
  reachability.
- `Neighbors` (`neighbors.dfy`): `exploreNeighbor` and `getUnexploredNeighbors`.
- `Frontier` (`frontier.dfy`): the stack and queue as one sequence, with
  `Push` and a discipline-dependent `Pop`. It also holds the count of
  explored entries used by the termination measure.
- `Backtrack` (`backtrack.dfy`): `getSolution` as a loop over the parent map,
  where a missing key is a null parent.
- `Traversal` (`traversal.dfy`): one iteration of the shared loop (`Step`),
  the loop invariant, and the facts about a single iteration.
- `MazeSolver` (`solver.dfy`): the shared loop `Solve`, `SolveDFS` and
  `SolveBFS`, and the end-to-end contract.

Cells are compared by reference in the source. The model assumes the maze
holds one cell object per position, so reference equality is coordinate
equality and a cell is identified with its coordinates. The
explored flags are the set `explored`, and the parent links are the map
`parent`. Both searches run the same loop body. Only `Pop` differs: the stack
takes the back of the sequence and the queue takes the front. Both push at
the back.

The model keeps behaviours that a reader might not expect:
- A cell that is already on the frontier but still unexplored gets its
  parent overwritten whenever another popped cell finds it again.
- Duplicate frontier entries are allowed. Popping an entry for a cell that is
  already explored expands its neighbours again.
- Because the stack is last-in-first-out, depth-first search pops the west
  neighbour first, although the neighbours are probed N, E, S, W.

The loop terminates under a lexicographic measure. The first component is
the number of unexplored open cells. The second is the number of frontier
entries whose cell is already explored.

The two requirements of a solve are stated as preconditions:
- start and end are open cells;
- every cell is unexplored with a null parent, which is what `reset`
  provides between solves.

## Model

| member | source | states |
|---|---|---|
| `Neighbors.ExploreNeighbor` | src/MazeSolver.java:104-110 | The list grows by at most one cell and keeps its old prefix. It grows exactly when (row, col) is in bounds, not a wall and unexplored, and the new last element is then that cell. |
| `Neighbors.UnexploredNeighbors` | src/MazeSolver.java:88-101 | At most 4 cells. A cell is in the result iff it is adjacent to `c`, open and unexplored. The result is strictly ordered by probe direction N < E < S < W, so it has no duplicates. |
| `Neighbors.WestIsProbedLast` | src/MazeSolver.java:95-98 | When the west cell qualifies, it is the last element of the neighbour list. |
| `Grid.ProbesAreAdjacentCells` | src/MazeSolver.java:95-98 | The four probe offsets are exactly the cells orthogonally adjacent to `c`, and adjacency is symmetric. The probes N, E, S, W take positions 0 to 3 in that order, so they are four distinct cells. |
| `Frontier.Push` | src/MazeSolver.java:80 | A push keeps every existing entry in place and puts the new cell behind them, for the stack and for the queue (line 146). |
| `Frontier.Pop` | src/MazeSolver.java:59-63 | Pop takes one entry. For the stack, the frontier is the remainder followed by the popped cell. For the queue (`remove`, line 128), it is the popped cell followed by the remainder. |
| `Frontier.StackPopUndoesPush` | src/MazeSolver.java:55-63 | Popping the stack right after a push returns the pushed cell and the old stack. |
| `Frontier.QueueRemovesOldest` | src/MazeSolver.java:119-128 | On a non-empty queue, a push does not change which entry is removed next, and push and remove commute. |
| `Frontier.ExploredEntriesAppend` | src/MazeSolver.java:76-81 | The count of explored entries adds up over concatenation. The termination proof uses this for the pushed neighbours. |
| `Backtrack.ParentOf` | src/MazeSolver.java:41 | `getParent` is Some exactly when the cell has a link, and the link is then the stored parent. |
| `Backtrack.GetSolution` | src/MazeSolver.java:32-45 | The result is non-empty and ends at the end cell. Its first cell has a null parent, and each cell is the parent of the next. When the end cell has no parent, the result is [end]. The loop terminates because the parent map is acyclic. |
| `Backtrack.BacktrackIsUnique` | src/MazeSolver.java:38-42 | Any two sequences with the `getSolution` properties for the same map and end cell are equal. So that contract determines the result. |
| `Traversal.Expand` | src/MazeSolver.java:76-81 | The neighbours are appended to the frontier in order. Each gets the popped cell as parent, overwriting any earlier link. Every other link stays, and the explored flags do not change. |
| `Traversal.InitialSatisfiesInv` | src/MazeSolver.java:59 | The state after pushing the start onto a reset maze satisfies the loop invariant and the not-yet-found invariant. |
| `Traversal.Step` | src/MazeSolver.java:61-82 | One iteration grows the explored set by exactly the popped cell, so flags only go from false to true. No link is removed. When the end cell was popped, the frontier is the remainder after the pop and the links do not change. Otherwise the frontier is the remainder followed by the popped cell's unexplored neighbours in probe order, each of those neighbours gets the popped cell as parent, overwriting any earlier link, and every other link stays as it was. |
| `Traversal.StepKeepsExploredParents` | src/MazeSolver.java:73-81 | For every cell explored after the iteration, whether it has a parent and which parent it has do not change. |
| `Traversal.StepLinksToPopped` | src/MazeSolver.java:73-81 | Every link that is new or overwritten sits on an open, unexplored cell adjacent to the popped cell. It points to the popped cell, which is explored and is not the end cell. |
| `Traversal.StartNeverPushedAgain` | src/MazeSolver.java:59-66 | No entry pushed in an iteration is the start cell. |
| `Traversal.StepKeepsOpenAndLinked` | src/MazeSolver.java:104-109 | Only open cells are on the frontier, explored or linked. Every link points to an explored cell adjacent to its child. This is preserved by every iteration. |
| `Traversal.StepKeepsRootedAtStart` | src/MazeSolver.java:59-66 | The start cell never gets a parent. Once anything is explored, the start is explored. Every explored or frontier cell other than the start has a parent. This is preserved by every iteration. |
| `Traversal.StepKeepsStamped` | src/MazeSolver.java:61-81 | With exploration times recorded, a parent was explored strictly before each explored child. This is preserved by every iteration. |
| `Traversal.StepKeepsInv` | src/MazeSolver.java:61-82 | The whole loop invariant is preserved by every iteration, including the one that pops the end cell. |
| `Traversal.StepKeepsLive` | src/MazeSolver.java:61-82 | While the end cell has not been popped, the following are preserved. The end cell is unexplored. It is on the frontier once it has a parent. Every open cell next to an explored cell is explored or on the frontier. |
| `Traversal.StepDecreases` | src/MazeSolver.java:61-82 | Each iteration lowers the measure lexicographically: first the unexplored open cells, then the explored frontier entries. |
| `Traversal.InvGivesAcyclic` | src/MazeSolver.java:38-42 | Under the loop invariant, the parent map has a rank that strictly decreases along every link, so no parent chain is a cycle. |
| `Traversal.StackExpandsWestFirst` | src/MazeSolver.java:76-80 | With the stack, when the west neighbour qualifies, it is the next cell popped. |
| `Traversal.QueueTakesOldest` | src/MazeSolver.java:126-146 | With the queue, the next cell removed is the oldest entry left, whatever the iteration pushed. |
| `MazeSolver.Solve` | src/MazeSolver.java:51-87 | If the end is reachable, the result is a walk through open cells from start to end with N/E/S/W steps; otherwise it is [end], with the end unexplored and without a parent. If start equals end, the result is [start]. The links left behind form a tree rooted at the start: the start is explored without a parent, every other explored cell has a parent, and every link points to an adjacent explored cell along an acyclic chain. The returned path is exactly the backtrack of the end cell through those links. |
| `MazeSolver.SolveDFS` | src/MazeSolver.java:51-87 | The same contract as `Solve`, every clause included, with the stack. |
| `MazeSolver.SolveBFS` | src/MazeSolver.java:116-154 | The same contract as `Solve`, every clause included, with the queue. |
| `MazeSolver.FoundPathIsWalk` | src/MazeSolver.java:66-71 | Once the end cell is explored, the backtrack from it is a start-to-end walk through open cells, and the end is reachable. If start equals end, the walk is [start]. |
| `MazeSolver.ExhaustedMeansUnreachable` | src/MazeSolver.java:61 | If the frontier empties before the end cell is popped, no walk joins start to end, and start differs from end. |

## Left out

- `main` is left out because it is file loading and printing. The
  constructors and `setMaze` are left out because the maze is a parameter of
  each solve.
- The internals of `Maze` and `MazeCell` are not part of this model. This
  covers loading, storage, `printSolution` and `reset`. The maze is an
  abstract grid, and `isValidCell` is taken to mean in bounds and not a wall.
  `reset` appears only as the `IsReset` precondition.
- Java's `Stack`, `LinkedList` and `ArrayList.add(0, ·)` are modelled as
  Dafny sequences.
- The shortest-path claim of breadth-first search is not proved. The model
  proves that both searches return a valid walk, but not that the queue's
  walk has the fewest steps.
- Running a second solve without a reset is excluded by the `IsReset`
  precondition, so it is not modelled.
- Coordinates are unbounded integers. Java `int` overflow cannot arise,
  because probes are only made one step around cells inside the grid.
- Backtrack.GetSolution: requires the parent map to be acyclic, which the
  source does not check. On a cyclic map the Java loop would never end.
  Both solves prove that the map they leave is acyclic.
- When the end is unreachable, the code returns the one-element list
  [end] and gives no separate no-path signal. The model does the same.
