/** The maze object: its dimensions and its row-major grid of cells, with the
    operations that build the grid, open the entrance and exit, knock down a wall
    and carve the whole maze breadth-first. Drawing is not part of this model. */
module Mazes {
  import opened Cells
  import opened Grid
  import opened Carve

  class Maze {
    const x: int
    const y: int
    const numRows: int
    const numCols: int
    const color: string
    /** cells[r][c] is the cell in row r, column c. */
    var cells: seq<seq<Cell>>

    /** The grid has exactly numRows rows of numCols cells: the shape `create` leaves
        at offset (0, 0), which the neighbour and bounds tests of the carve take for
        granted. */
    predicate Valid()
      reads this
    {
      Shape(cells, numRows, numCols)
    }

    constructor (x: int, y: int, numRows: int, numCols: int, color: string)
      ensures this.x == x && this.y == y && this.numRows == numRows && this.numCols == numCols
      ensures this.color == color && cells == []
    {
      this.x := x;
      this.y := y;
      this.numRows := numRows;
      this.numCols := numCols;
      this.color := color;
      cells := [];
    }

    /** `create` without a window: rows of 20 x 20 cells appended to `cells`. */
    method Create()
      modifies this`cells
      ensures cells == old(cells) + HeadlessGrid(x, y, numRows, numCols, color)
      ensures old(cells) == [] && x == 0 && y == 0 && numRows >= 0 && numCols >= 0 ==> Valid()
    {
      var cellWidth := CellSize;
      var cellHeight := CellSize;
      var availWidth := numCols * cellWidth;
      var availHeight := numRows * cellHeight;
      ghost var want := HeadlessGrid(x, y, numRows, numCols, color);
      var top := y;
      ghost var i := 0;
      while top < availHeight
        invariant top == y + i * CellSize
        invariant 0 <= i <= |want|
        invariant cells == old(cells) + want[..i]
        decreases availHeight - top
      {
        var row := [];
        var left := x;
        ghost var j := 0;
        while left < availWidth
          invariant left == x + j * CellSize
          invariant 0 <= j <= |want[i]|
          invariant row == want[i][..j]
          decreases availWidth - left
        {
          row := row + [NewCell(left, top, left + cellWidth, top + cellHeight, color)];
          left := left + cellWidth;
          j := j + 1;
        }
        assert row == want[i];
        cells := cells + [row];
        top := top + cellHeight;
        i := i + 1;
      }
      assert want[..i] == want;
      if old(cells) == [] && x == 0 && y == 0 && numRows >= 0 && numCols >= 0 {
        HeadlessGridShape(numRows, numCols, color);
      }
    }

    /** `break_entrance_and_exit`, wall part: open the left wall of the top-left cell and
        the right wall of the last cell of the last row, when the grid has a first cell. */
    method BreakEntranceAndExit()
      requires |cells| > 0 && |cells[0]| > 0 ==> |cells[|cells| - 1]| > 0
      modifies this`cells
      ensures cells == EntranceAndExit(old(cells))
      ensures old(Valid()) ==> Valid()
    {
      if |cells| > 0 && |cells[0]| > 0 {
        cells := Put(cells, (0, 0), cells[0][0].(hasLeftWall := false));
        var last := LastCell(cells);
        cells := Put(cells, last, At(cells, last).(hasRightWall := false));
      }
    }

    /** `__break_wall`: raise if either cell lies outside numRows x numCols; otherwise
        clear the facing flags of the two cells when they are neighbours. */
    method BreakWall(r1: int, c1: int, r2: int, c2: int) returns (res: Outcome)
      requires Covers(cells, numRows, numCols)
      modifies this`cells
      ensures SameShape(old(cells), cells)
      ensures res == if InBounds(numRows, numCols, (r1, c1)) && InBounds(numRows, numCols, (r2, c2))
                     then Pass else Fail(OutOfBounds)
      ensures cells == if res == Pass then BrokenWall(old(cells), r1, c1, r2, c2) else old(cells)
    {
      if !(0 <= r1 < numRows) || !(0 <= r2 < numRows) || !(0 <= c1 < numCols) || !(0 <= c2 < numCols) {
        return Fail(OutOfBounds);
      }
      if r1 == r2 {
        if c1 == c2 - 1 {
          cells := Put(cells, (r1, c1), cells[r1][c1].(hasRightWall := false));
          cells := Put(cells, (r1, c2), cells[r1][c2].(hasLeftWall := false));
        } else if c1 == c2 + 1 {
          cells := Put(cells, (r1, c1), cells[r1][c1].(hasLeftWall := false));
          cells := Put(cells, (r1, c2), cells[r1][c2].(hasRightWall := false));
        }
      } else if c1 == c2 {
        if r1 == r2 - 1 {
          cells := Put(cells, (r1, c1), cells[r1][c1].(hasBottomWall := false));
          cells := Put(cells, (r2, c1), cells[r2][c1].(hasTopWall := false));
        } else if r1 == r2 + 1 {
          cells := Put(cells, (r1, c1), cells[r1][c1].(hasTopWall := false));
          cells := Put(cells, (r2, c1), cells[r2][c1].(hasBottomWall := false));
        }
      }
      res := Pass;
    }
  
    /** `break_walls_bfs`: raise on an empty grid; otherwise carve breadth-first from the
        top-left cell. Each dequeued cell is marked visited and its neighbours are taken
        in the order `shuffle` gives them (any permutation); an unvisited neighbour gets
        the wall towards it knocked down, is marked visited and is enqueued. `order` is
        the sequence of enqueued cells. */
    method BreakWallsBfs(shuffle: (Coord, seq<Coord>) -> seq<Coord>) returns (res: Outcome, ghost order: seq<Coord>)
      requires Valid()
      requires forall p, ns :: multiset(shuffle(p, ns)) == multiset(ns)
      modifies this`cells
      ensures Valid()
      ensures res == if numRows == 0 || numCols == 0 then Fail(NoCells) else Pass
      ensures res != Pass ==> cells == old(cells)
      ensures CarvedFrom(old(cells), cells)
      ensures Distinct(order) && forall k :: 0 <= k < |order| ==> InGrid(cells, order[k])
      ensures res == Pass && Fresh(old(cells)) ==>
                (forall p :: InGrid(cells, p) ==> At(cells, p).visited) &&
                Elems(order) == AllCoords(numRows, numCols) && |order| == numRows * numCols &&
                |BrokenWalls(cells, numRows, numCols)| == numRows * numCols - 1 &&
                forall p :: InGrid(cells, p) ==> exists path :: PathFromStart(cells, path, p)
    {
      if |cells| == 0 || |cells[0]| == 0 {
        CarvedFromRefl(cells);
        return Fail(NoCells), [];
      }
      ghost var g0 := cells;
      ghost var all := AllCoords(numRows, numCols);
      var queue := [(0, 0)];
      order := [(0, 0)];
      ghost var head := 0;
      ghost var seen := VisitedSet(cells, numRows, numCols);
      ghost var paths := map[(0, 0) := [(0, 0)]];
      StartCarving(cells, numRows, numCols, queue, order, seen, paths);
      while queue != []
        invariant Carving(g0, cells, numRows, numCols, queue, order, head, seen, paths)
        invariant Explored(numRows, numCols, order, head, seen)
        decreases 2 * |all - seen| + |queue|
      {
        PopQueue(numRows, numCols, queue, order, head, queue[1..], head + 1);
        queue, order, head, seen, paths := ProcessHead(shuffle, g0, queue, order, head, seen, paths, all);
      }
      CarveComplete(g0, cells, numRows, numCols, queue, order, head, seen, paths);
      res := Pass;
    }

    /** One round of the outer loop of `break_walls_bfs`: dequeue the head cell `p`, mark
        it visited, and visit its neighbours in the order `shuffle` gives them. The cells
        enqueued are exactly the neighbours that were still unvisited, in that order. */
    method ProcessHead(shuffle: (Coord, seq<Coord>) -> seq<Coord>, ghost g0: seq<seq<Cell>>,
                       queue0: seq<Coord>, ghost order0: seq<Coord>, ghost head0: int,
                       ghost seen0: set<Coord>, ghost paths0: map<Coord, seq<Coord>>, ghost all: set<Coord>)
      returns (queue: seq<Coord>, ghost order: seq<Coord>, ghost head: int,
               ghost seen: set<Coord>, ghost paths: map<Coord, seq<Coord>>)
      requires Carving(g0, cells, numRows, numCols, queue0, order0, head0, seen0, paths0)
      requires Explored(numRows, numCols, order0, head0, seen0)
      requires queue0 != [] && InGrid(cells, queue0[0]) && all == AllCoords(numRows, numCols)
      requires forall p, ns :: multiset(shuffle(p, ns)) == multiset(ns)
      modifies this`cells
      ensures Carving(g0, cells, numRows, numCols, queue, order, head, seen, paths)
      ensures Explored(numRows, numCols, order, head, seen)
      ensures 2 * |all - seen| + |queue| < 2 * |all - seen0| + |queue0|
      ensures head == head0 + 1
      ensures var p := queue0[0];
              var marked := MarkVisited(old(cells), p);
              var found := Unvisited(marked, shuffle(p, Neighbors(numRows, numCols, p.0, p.1)));
              queue == queue0[1..] + found && order == order0 + found &&
              cells == Discovered(marked, p, found)
    {
      PopQueue(numRows, numCols, queue0, order0, head0, queue0[1..], head0 + 1);
      ghost var g := cells;
      var p := queue0[0];
      DiffShrinks(all, seen0, p);
      queue := queue0[1..];
      cells := MarkVisited(cells, p);
      seen := seen0 + {p};
      order, paths := order0, paths0;
      head := head0 + 1;
      PopStep(g0, g, numRows, numCols, queue0, order, head0, seen0, paths, cells, queue, head, seen);
      var r, c := p.0, p.1;

      var neighbors := Neighbors(numRows, numCols, r, c);
      neighbors := shuffle((r, c), neighbors);
      queue, order, seen, paths := VisitNeighbors(g0, r, c, neighbors, queue, order, head, seen, paths, all);
    }

    /** The inner loop of `break_walls_bfs`: for each neighbour of the dequeued cell
        (r, c), in the given order, knock down the wall to it, mark it visited and
        enqueue it unless it was already visited. The cells enqueued are the neighbours
        unvisited on entry, in list order, and the grid is the one `Discovered` gives. */
    method VisitNeighbors(ghost g0: seq<seq<Cell>>, r: int, c: int, neighbors: seq<Coord>,
                          queue0: seq<Coord>, ghost order0: seq<Coord>, ghost head: int,
                          ghost seen0: set<Coord>, ghost paths0: map<Coord, seq<Coord>>,
                          ghost all: set<Coord>)
      returns (queue: seq<Coord>, ghost order: seq<Coord>, ghost seen: set<Coord>, ghost paths: map<Coord, seq<Coord>>)
      requires Carving(g0, cells, numRows, numCols, queue0, order0, head, seen0, paths0)
      requires 1 <= head <= |order0| && order0[head - 1] == (r, c) && InGrid(cells, (r, c))
      requires Explored(numRows, numCols, order0, head - 1, seen0)
      requires multiset(neighbors) == multiset(Neighbors(numRows, numCols, r, c))
      requires all == AllCoords(numRows, numCols)
      modifies this`cells
      ensures Carving(g0, cells, numRows, numCols, queue, order, head, seen, paths)
      ensures Explored(numRows, numCols, order, head, seen)
      ensures 2 * |all - seen| + |queue| <= 2 * |all - seen0| + |queue0|
      ensures order == order0 + Unvisited(old(cells), neighbors)
      ensures queue == queue0 + Unvisited(old(cells), neighbors)
      ensures cells == Discovered(old(cells), (r, c), Unvisited(old(cells), neighbors))
    {
      ghost var g := cells;
      ShuffledNeighbors(numRows, numCols, (r, c), neighbors);
      queue, order, seen, paths := queue0, order0, seen0, paths0;
      VisitingStart(g0, g, numRows, numCols, (r, c), neighbors, queue0, order0, head, seen0, paths0, all);
      for i := 0 to |neighbors|
        invariant Visiting(g0, g, numRows, numCols, (r, c), neighbors, i, queue0, order0, seen0, all,
                           cells, queue, order, head, seen, paths)
      {
        queue, order, seen, paths :=
          VisitNeighbor(g0, g, r, c, neighbors, i, queue0, order0, head, seen0, all, queue, order, seen, paths);
      }
      VisitingDone(g0, g, numRows, numCols, (r, c), neighbors, queue0, order0, seen0, all,
                   cells, queue, order, head, seen, paths);
    }

    /** One pass of the inner loop of `break_walls_bfs`: look at the `i`-th neighbour of
        (r, c) and, if it is unvisited, knock down the wall to it, mark it visited and
        enqueue it. `g`, `queue0`, `order0` and `seen0` are the state on entry to the loop. */
    method VisitNeighbor(ghost g0: seq<seq<Cell>>, ghost g: seq<seq<Cell>>, r: int, c: int,
                         neighbors: seq<Coord>, i: int, ghost queue0: seq<Coord>, ghost order0: seq<Coord>,
                         ghost head: int, ghost seen0: set<Coord>, ghost all: set<Coord>,
                         queue1: seq<Coord>, ghost order1: seq<Coord>, ghost seen1: set<Coord>,
                         ghost paths1: map<Coord, seq<Coord>>)
      returns (queue: seq<Coord>, ghost order: seq<Coord>, ghost seen: set<Coord>, ghost paths: map<Coord, seq<Coord>>)
      requires 0 <= i < |neighbors| && Distinct(neighbors)
      requires Shape(g, numRows, numCols) && InBounds(numRows, numCols, (r, c))
      requires multiset(neighbors) == multiset(Neighbors(numRows, numCols, r, c))
      requires all == AllCoords(numRows, numCols)
      requires Visiting(g0, g, numRows, numCols, (r, c), neighbors, i, queue0, order0, seen0, all,
                        cells, queue1, order1, head, seen1, paths1)
      modifies this`cells
      ensures Visiting(g0, g, numRows, numCols, (r, c), neighbors, i + 1, queue0, order0, seen0, all,
                       cells, queue, order, head, seen, paths)
    {
      ShuffledNeighbors(numRows, numCols, (r, c), neighbors);
      assert neighbors[i] in neighbors;
      var (nr, nc) := neighbors[i];
      InnerLoopVisited(g, (r, c), neighbors, i, queue0, order0, queue1, order1, cells);
      if !cells[nr][nc].visited {
        ghost var h := cells;
        DiscoverStep(g0, cells, numRows, numCols, queue1, order1, head, seen1, paths1, (r, c), (nr, nc));
        assert (nr, nc) in all;
        DiffShrinks(all, seen1, (nr, nc));
        ShapeCovers(cells, numRows, numCols);
        var _ := BreakWall(r, c, nr, nc);
        cells := MarkVisited(cells, (nr, nc));
        queue := queue1 + [(nr, nc)];
        order := order1 + [(nr, nc)];
        seen := seen1 + {(nr, nc)};
        paths := paths1[(nr, nc) := paths1[(r, c)] + [(nr, nc)]];
        InnerLoopFind(g, (r, c), neighbors, i, queue0, order0, queue1, order1, h, queue, order, cells);
      } else {
        queue, order, seen, paths := queue1, order1, seen1, paths1;
        VisitedSeen(cells, numRows, numCols, order, head, seen, (nr, nc));
        InnerLoopSkip(g, (r, c), neighbors, i, queue0, order0, queue, order, cells);
      }
      PrefixSeenStep(neighbors, i, seen1, seen);
    }
  }

  /** The calls `main` makes, for a maze without a window at offset (0, 0): construct
      it, lay out its cells, open the entrance and exit, and carve. The grid `create`
      leaves is fresh, so the carve yields a spanning tree of the grid whose two
      records of every wall agree, and the carve leaves the entrance and the exit open. */
  method BuildMaze(rows: int, cols: int, color: string, shuffle: (Coord, seq<Coord>) -> seq<Coord>)
    returns (m: Maze, res: Outcome)
    requires rows >= 0 && cols >= 0
    requires forall p, ns :: multiset(shuffle(p, ns)) == multiset(ns)
    ensures fresh(m) && m.Valid() && m.numRows == rows && m.numCols == cols
    ensures res == if rows == 0 || cols == 0 then Fail(NoCells) else Pass
    ensures res == Pass ==>
              (forall p :: InGrid(m.cells, p) ==>
                 At(m.cells, p).visited && exists path :: PathFromStart(m.cells, path, p)) &&
              |BrokenWalls(m.cells, rows, cols)| == rows * cols - 1 &&
              !At(m.cells, (0, 0)).hasLeftWall && !At(m.cells, (rows - 1, cols - 1)).hasRightWall &&
              WallsAgree(m.cells)
  {
    m := new Maze(0, 0, rows, cols, color);
    m.Create();
    HeadlessGridShape(rows, cols, color);
    assert m.cells == HeadlessGrid(0, 0, rows, cols, color);
    OpenEdgesKeepFresh(m.cells);
    ghost var created := m.cells;
    m.BreakEntranceAndExit();
    FreshAgrees(m.cells);
    ghost var order;
    res, order := m.BreakWallsBfs(shuffle);
    if res == Pass {
      CarveKeepsEntranceAndExit(created, m.cells, rows, cols);
    }
  }
}
