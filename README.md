# Maze grid and breadth-first maze carving

A Dafny model of the maze core of `mazesolver`, a small Python program. The program builds a
grid of square cells, each with four walls. It opens an entrance on the left of the top-left
cell and an exit on the right of the bottom-right cell. It then carves a maze by a randomised
breadth-first search from the top-left cell that knocks down one wall per newly reached cell.

The model has four modules:

- `Cells` (`cell.dfy`): the cell record, its centre, and the check `draw_move` makes before
  drawing a move: a diagonal move raises "Can only move to adjacent cells", a move through a
  standing wall raises "Wall in the way". Raised exceptions are values of `Outcome`.
- `Grid` (`grid.dfy`): the grid as `seq<seq<Cell>>` indexed `[row][col]`, the neighbour list of
  a cell, knocking down the wall between two cells, marking a cell visited, opening the
  entrance and exit, the headless cell layout of `create`, and the facts about walls and
  counting that the carving proof needs.
- `Carve` (`carving.dfy`): what a carve may do to a grid (lower interior walls, mark cells),
  open walks, the bookkeeping the breadth-first carve keeps from step to step, one lemma per
  step of the loop showing that the step preserves it, and the inner loop's effect as a
  function of the grid and the shuffled neighbour list.
- `Mazes` (`maze.dfy`): the `Maze` class. Its `cells` field is reassigned by the methods
  `Create`, `BreakEntranceAndExit`, `BreakWall` and `BreakWallsBfs`, as the Python methods
  update the grid in place. `BuildMaze` makes the calls `main` makes, on a maze without a
  window.

The main result is about `BreakWallsBfs`, started on a freshly created grid: no cell visited and
every wall between two cells standing. When it returns, every cell is visited and every cell
was enqueued exactly once. `rows * cols - 1` interior walls have come down, and an open walk
leads from the top-left cell to every cell, so the carved maze is a spanning tree of the grid.
For any starting grid it only lowers walls. It keeps the two records of each wall (a cell's
right flag and its right neighbour's left flag, and so on) in agreement if they agreed before,
and it never touches a wall on the outer edge. `random.shuffle` is a parameter `shuffle`. It may
be any function that returns a permutation of the list it is given. Chained as `main` chains
them (`BuildMaze`), `create`, `break_entrance_and_exit` and `break_walls_bfs` yield a spanning
tree of the grid whose entrance and exit stay open and whose two records of every wall agree.

The tests assert that a headless `Maze(0, 0, 10, 12, ...)` has 12 rows of 10 cells
(`tests.py:22-34`). The code builds `num_rows` rows of `num_cols` cells (`main.py:158-175`).
The model follows the code.

## Model

| member | source | states |
|---|---|---|
| Cells.NewCell | main.py:52-63 | a new cell has all four walls standing, is not visited, and keeps the corners and colour it was given |
| Cells.ClearWall | main.py:245-261 | clearing one side of a cell lowers exactly that wall flag and leaves the other three flags, the square, the colour and the visited mark unchanged |
| Cells.Center | main.py:65-66 | the centre lies halfway between the two corners on each axis |
| Cells.CheckMove | main.py:107-125 | a move fails with NotAdjacent exactly when the centres differ on both axes; it passes exactly when the centres share an axis and no wall of the source cell stands on the side the target lies beyond; otherwise it fails with WallInTheWay, never with another error |
| Grid.Direction | main.py:245-261 | for two neighbours, the side of the first that faces the second is the unique side stepping onto it |
| Grid.Neighbors | main.py:264-276 | every listed cell is adjacent, the list goes up, down, left, right in that order, and for an in-bounds cell it lists exactly its in-bounds neighbours |
| Grid.NeighborsExamples | main.py:264-276 | in a 10 x 12 grid, (0, 0) has neighbours [(1, 0), (0, 1)] and (1, 1) has [(0, 1), (2, 1), (1, 0), (1, 2)] |
| Grid.BrokenWall | main.py:245-261 | for two neighbours, exactly the facing flag of each is cleared and every other cell is unchanged; a pair that is not side by side (including a cell with itself) leaves the grid unchanged |
| Grid.BrokenWallSymmetric | main.py:245-261 | breaking the wall between (r1, c1) and (r2, c2) gives the same grid as naming the cells the other way round |
| Grid.BrokenWallFlags | main.py:245-261 | after a break, a flag is down exactly when it was down before or it is one of the two facing flags of the pair |
| Grid.BrokenWallEffects | main.py:245-261 | a break between neighbours opens the passage both ways, keeps the two records of every wall in agreement, and leaves every side facing out of the grid unchanged |
| Grid.BrokenWallAgrees | main.py:245-261 | if each wall was recorded alike by both of its cells before a break, it still is after it |
| Grid.StandingAfterBreak | main.py:245-261 | after a break, an interior wall still stands exactly when it stood before and is not the wall between the pair |
| Grid.BrokenWallsGrow | main.py:245-261 | breaking a wall that stands on both sides adds exactly that wall to the set of broken interior walls, and the wall was not broken before |
| Grid.BrokenWallsMember | main.py:245-261 | a wall is in the broken set exactly when it lies between two cells of the grid and its flag is down |
| Grid.RangeCount | main.py:162-164 | `range(start, stop, 20)` is empty exactly when stop <= start; otherwise its last value start + 20(n - 1) is below stop and the next value would reach stop |
| Grid.RangeCountOffset | main.py:156-164 | with a start offset of `start` pixels inside a span of n cells, the headless layout yields n - start / 20 rows (or columns) |
| Grid.HeadlessGrid | main.py:155-175 | the headless layout has one row per value of `range(y, rows * 20, 20)` and one cell per value of `range(x, cols * 20, 20)` in every row; each cell is a 20 x 20 square of the given colour, with its top-left corner at or after (x, y) and before (cols * 20, rows * 20), all four walls standing and not visited |
| Grid.HeadlessGridShape | main.py:155-175 | headless `create` at offset (0, 0) gives rows x cols cells with all walls standing, nothing visited, the given colour, and cell (i, j) on the 20-pixel square at (20j, 20i) |
| Grid.MoveCheckMatchesWalls | main.py:107-125 | on a headless grid, a move between neighbouring cells passes exactly when the wall of the source cell facing the target is down and otherwise fails with WallInTheWay; a diagonal move fails with NotAdjacent |
| Grid.FreshHasNoBrokenWalls | main.py:52-62 | a freshly built grid has no broken interior walls |
| Grid.FreshAgrees | main.py:52-62 | in a freshly built grid both records of every interior wall agree |
| Grid.AllCoordsCard | main.py:162-175 | a rows x cols grid has rows * cols cells |
| Grid.MarkVisited | main.py:213 | setting `visited` on one cell keeps the grid's shape, sets exactly that cell's mark and leaves that cell otherwise, and every other cell, unchanged |
| Grid.EntranceAndExit | main.py:189-197 | opening the entrance and exit keeps the grid's shape |
| Grid.EntranceAndExitEffects | main.py:189-197 | on a grid with no rows, or whose first row is empty, nothing changes; otherwise the left wall of cell (0, 0) and the right wall of the last cell of the last row are down, and every other wall flag, every visited mark, square and colour is as before |
| Grid.OpenEdgesKeepFresh | main.py:189-197 | opening the entrance and exit touches only outer walls, so a freshly built grid is still fresh afterwards |
| Carve.BreakCarves | main.py:234-261 | knocking down a wall only lowers walls, keeps every square and colour, and never touches the outer edge |
| Carve.BreakKeepsCells | main.py:245-261 | knocking down a wall marks no cell visited and changes no cell but the two it names |
| Carve.MarkGrid | main.py:213 | marking a cell visited keeps the shape, every wall, every square and the set of broken walls, and adds exactly that cell to the visited ones |
| Carve.OpenPathSurvives | main.py:210-231 | a walk that crosses no standing wall still crosses none after more walls come down |
| Carve.ClosedSetCoversGrid | main.py:210-231 | a set of cells that holds the top-left cell and contains every in-bounds neighbour of its members holds every cell of the grid |
| Carve.CarveKeepsEdges | main.py:202-231 | a carve leaves the left wall of cell (0, 0) and the right wall of the last cell as they were, since both face out of the grid |
| Carve.CarveKeepsEntranceAndExit | main.py:189-231 | on a non-empty rows x cols grid, the entrance and exit opened by `break_entrance_and_exit` are still open after any carve |
| Carve.StartCarving | main.py:203-208 | after the top-left cell is enqueued, the carving bookkeeping holds and nothing is yet explored |
| Carve.PopStep | main.py:210-213 | dequeuing the head cell and marking it visited preserves the bookkeeping, and every neighbour of an already processed cell is still visited |
| Carve.PopSeen | main.py:211-213 | after the pop, the visited cells are the old ones plus the dequeued cell, and every enqueued cell is visited |
| Carve.DiscoverStep | main.py:222-231 | knocking down the wall to an unvisited neighbour, marking it visited and enqueuing it preserves the bookkeeping and extends the walk of the current cell to it |
| Carve.UnvisitedNotEnqueued | main.py:224 | once the top-left cell has been dequeued, an unvisited cell has never been enqueued |
| Carve.DiscoverGrid | main.py:224-226 | one discovery lowers walls only, opens the passage between the two cells, and marks exactly the new cell visited |
| Carve.DiscoverCount | main.py:224-226 | on a carve from a fresh grid, each discovery raises the number of broken walls by exactly one |
| Carve.DiscoverPaths | main.py:222-231 | every enqueued cell, including the new one, keeps an open walk from the top-left cell |
| Carve.NeighborsDone | main.py:216-231 | after the inner loop, whatever order the shuffle chose, every in-bounds neighbour of the current cell is visited |
| Carve.ShuffledNeighbors | main.py:216-217 | a permutation of the neighbour list has no repeats and names only in-bounds cells adjacent to the current one |
| Carve.PermutationDistinct | main.py:216-217 | a permutation of a list without repeats has no repeats |
| Carve.Unvisited | main.py:222-224 | the neighbours the inner loop acts on are exactly the listed cells that are in the grid and not yet visited, and there are no more of them than listed cells |
| Carve.DiscoveredCells | main.py:222-231 | after the inner loop, a cell is visited exactly when it was before or it was discovered, and every cell other than the current one and the discovered ones is unchanged |
| Carve.VisitingDone | main.py:216-231 | when the inner loop has looked at every neighbour, the queue and the order of discovery are the old ones followed by the unvisited neighbours in list order, the grid is `Discovered` of the old one, the bookkeeping holds and the current cell is explored |
| Carve.InnerLoopSkip | main.py:222-224 | passing over a visited neighbour changes neither the queue, the order of discovery nor the grid |
| Carve.InnerLoopFind | main.py:222-231 | acting on an unvisited neighbour appends it to the queue and the order of discovery, and the grid becomes the old one with that wall down and that cell marked |
| Carve.CarveComplete | main.py:202-231 | when the queue is empty the grid has only lost walls and the enqueued cells are distinct and in the grid; from a fresh grid every cell is visited and enqueued exactly once, rows * cols - 1 walls are broken, and every cell has an open walk from the top-left cell |
| Carve.AllSeen | main.py:210-231 | when every enqueued cell is explored, every cell of the grid is visited |
| Mazes.Maze.constructor | main.py:138-146 | stores the position, dimensions and colour and starts with no cells |
| Mazes.Maze.Create | main.py:149-175 | appends exactly the headless layout: one row per 20 pixels of height from y and one cell per 20 pixels of width from x; on an empty maze at offset (0, 0) this leaves exactly num_rows x num_cols cells (`Valid()`) |
| Mazes.Maze.BreakEntranceAndExit | main.py:189-197 | on any grid whose last row is non-empty when its first row is, the grid becomes `EntranceAndExit` of the old one (see Grid.EntranceAndExitEffects), and a grid of num_rows x num_cols cells keeps that shape |
| Mazes.Maze.BreakWall | main.py:234-261 | on any grid that has at least num_rows x num_cols cells, raises OutOfBounds exactly when either cell lies outside num_rows x num_cols, leaving the grid unchanged; otherwise the grid keeps its shape and becomes `BrokenWall` of the old one |
| Mazes.Maze.BreakWallsBfs | main.py:202-231 | raises NoCells exactly on an empty grid, changing nothing; otherwise only lowers interior walls, keeps the wall records in agreement, and from a fresh grid visits every cell, enqueues each once, breaks rows * cols - 1 walls and leaves an open walk from the top-left cell to every cell |
| Mazes.Maze.ProcessHead | main.py:210-231 | one round of the outer loop dequeues the head cell p (head advances by one), marks it visited, and then the queue is the old tail followed by, and the order of discovery grows by, exactly the unvisited cells of the shuffled neighbour list of p in shuffled order; the grid is the marked grid with the wall from p to each of them down and each of them marked; the bookkeeping holds and the measure of work left decreases |
| Mazes.Maze.VisitNeighbors | main.py:222-231 | the inner loop appends to the queue and to the order of discovery exactly the unvisited cells of the shuffled list, in that order, and the grid becomes the old one with the wall to each of them down and each of them marked (`Discovered`); it keeps the bookkeeping and leaves every neighbour of the current cell visited |
| Mazes.Maze.VisitNeighbor | main.py:222-231 | one pass of the inner loop keeps the bookkeeping and extends the queue, the order of discovery and the grid by what the `i`-th neighbour contributes (`Visiting` at i + 1 from `Visiting` at i) |
| Mazes.BuildMaze | main.py:283-289 | constructing a headless maze at (0, 0), running `create`, `break_entrance_and_exit` and `break_walls_bfs` raises NoCells exactly when rows or cols is 0; otherwise every cell is visited and reached by an open walk from the top-left cell, rows * cols - 1 interior walls are down, both records of every wall agree, and the entrance and exit are still open |

## Left out

- Drawing is not modelled: `Window`, `Point` and `Line` drawing, `Cell.draw`, `Maze.draw`, the line `draw_move` draws and the `after` delays. Without a window, `check_window` and the drawing calls inside `break_entrance_and_exit` and `break_walls_bfs` would raise. The model treats those calls as no-ops and keeps only their effect on the grid.
- `create` with a window is not modelled. There the cell size comes from the window size, which is I/O. Only the headless branch is modelled.
- `random.shuffle` is the parameter `shuffle`, required to return a permutation of its input. The seed field and the random generator are not modelled.
- `print` calls, `main()` and the unit tests are not part of the model.
- Cells are values in a `seq<seq<Cell>>` rather than shared objects. The core never hands a cell out, so aliasing plays no part.
- Mazes.Maze.BreakWallsBfs requires `Valid()`: the grid has exactly num_rows x num_cols cells, the shape `create` leaves at offset (0, 0) (`Mazes.Maze.Create` ensures it there). A headless offset of 1 to 19 keeps that shape too. Every other grid is excluded, and what the source does on one is not modelled. On a larger grid (window-mode `create` with another cell size, as in `tests.py:37-42`, or a headless `create` at a negative offset) it carves only the top-left num_rows x num_cols part. On an empty grid (for instance num_rows = 1 with a headless y offset of 20 or more) it raises "Maze must have cells" (`main.py:203-204`). On a non-empty smaller grid (a headless offset of 20 or more; `Grid.RangeCountOffset` states by how much) it carves until the test at `main.py:224` first reads a missing cell, and raises IndexError there, leaving the maze partly carved.
- Mazes.Maze.BreakWall requires the grid to cover num_rows x num_cols; grids that do not are excluded. On such a grid the source mostly behaves as on a full one: an in-bounds pair that is not adjacent touches no cell, and an adjacent pair whose two cells both exist has its wall broken as usual. It raises IndexError only for an adjacent pair that touches a missing cell. When the missing cell is the second one named, the first one's flag has already been cleared (for example `main.py:256` runs before `main.py:257` raises), so the source leaves a half-broken wall. This case is not modelled.
- Mazes.Maze.BreakEntranceAndExit requires the last row to be non-empty when the first row is. Python's `cells[-1][-1]` would raise IndexError otherwise; `create` never builds such a grid.
- Mazes.BuildMaze uses a headless maze at offset (0, 0). `main` uses a window at offset (20, 20) and calls `draw`, which is not modelled.
- Cells.Center and Cells.CheckMove use exact reals. Python's `/` (`main.py:66`) gives floats; the two agree while the coordinate sums stay below 2^53 in absolute value.
- Mazes.Maze.BreakWallsBfs: the spanning-tree results (every cell visited, rows * cols - 1 walls broken, a walk to every cell) are stated only when the grid starts fresh, as `create` leaves it. From any other starting grid only the wall and shape guarantees are stated.
- Grid.Neighbors: the "exactly its in-bounds neighbours" clause is stated for an in-bounds cell only. For a cell outside the grid only adjacency and order are stated.
- Cells.CheckMove models the validation only: the returned `Outcome` stands for the exception. Drawing the move and the window check that precedes it are not modelled.
