/** The rectangular, row-major grid of cells the maze owns, as a value: where each
    cell is, which cells are neighbours, what knocking down the wall between two
    cells does, and how the headless `create` lays the cells out. */
module Grid {
  import opened Cells

  /** (row, column) */
  type Coord = (int, int)

  /** Width and height of a cell when the maze has no window. */
  const CellSize: int := 20

  predicate InGrid(g: seq<seq<Cell>>, p: Coord)
  {
    0 <= p.0 < |g| && 0 <= p.1 < |g[p.0]|
  }

  function At(g: seq<seq<Cell>>, p: Coord): Cell
    requires InGrid(g, p)
  {
    g[p.0][p.1]
  }

  /** The grid with the cell at `p` replaced by `c`. */
  function Put(g: seq<seq<Cell>>, p: Coord, c: Cell): (h: seq<seq<Cell>>)
    requires InGrid(g, p)
    ensures SameShape(g, h)
    ensures At(h, p) == c
    ensures forall q :: InGrid(g, q) && q != p ==> At(h, q) == At(g, q)
  {
    g[p.0 := g[p.0][p.1 := c]]
  }

  predicate SameShape(g: seq<seq<Cell>>, h: seq<seq<Cell>>)
  {
    |h| == |g| && forall r :: 0 <= r < |g| ==> |h[r]| == |g[r]|
  }

  /** `g` has exactly `rows` rows of `cols` cells each. */
  predicate Shape(g: seq<seq<Cell>>, rows: int, cols: int)
  {
    |g| == rows && forall r :: 0 <= r < |g| ==> |g[r]| == cols
  }

  /** `g` has at least `rows` rows, each of at least `cols` cells, so every coordinate
      inside rows x cols can be indexed. */
  predicate Covers(g: seq<seq<Cell>>, rows: int, cols: int)
  {
    rows <= |g| && forall r :: 0 <= r < rows ==> cols <= |g[r]|
  }

  lemma ShapeCovers(g: seq<seq<Cell>>, rows: int, cols: int)
    requires Shape(g, rows, cols)
    ensures Covers(g, rows, cols)
  {
  }

  /** Python's `g[-1][-1]`: the last cell of the last row. */
  function LastCell(g: seq<seq<Cell>>): Coord
    requires |g| > 0
  {
    (|g| - 1, |g[|g| - 1]| - 1)
  }

  predicate InBounds(rows: int, cols: int, p: Coord)
  {
    0 <= p.0 < rows && 0 <= p.1 < cols
  }

  /** The coordinate one step from `p` across side `s`. */
  function Step(p: Coord, s: Side): Coord
  {
    match s
    case Top => (p.0 - 1, p.1)
    case Bottom => (p.0 + 1, p.1)
    case Left => (p.0, p.1 - 1)
    case Right => (p.0, p.1 + 1)
  }

  /** Orthogonal neighbours; never diagonal, never the cell itself. */
  predicate Adjacent(p: Coord, q: Coord)
  {
    (p.0 == q.0 && (p.1 == q.1 - 1 || p.1 == q.1 + 1)) ||
    (p.1 == q.1 && (p.0 == q.0 - 1 || p.0 == q.0 + 1))
  }

  /** The side of `p` that faces its neighbour `q`. */
  function Direction(p: Coord, q: Coord): (s: Side)
    requires Adjacent(p, q)
    ensures Step(p, s) == q
    ensures forall t :: Step(p, t) == q ==> t == s
  {
    if p.0 == q.0 then (if q.1 == p.1 + 1 then Right else Left)
    else (if q.0 == p.0 + 1 then Bottom else Top)
  }

  lemma StepAdjacent(p: Coord, s: Side)
    ensures Adjacent(p, Step(p, s)) && Direction(p, Step(p, s)) == s
    ensures Direction(Step(p, s), p) == Opposite(s)
  {
  }

  /** Position of a side in the order up, down, left, right. */
  function Rank(s: Side): nat
  {
    match s
    case Top => 0
    case Bottom => 1
    case Left => 2
    case Right => 3
  }

  /** `__get_neighbors`: the neighbours of (row, col) that the bounds tests let through,
      listed up, down, left, right. For a cell inside the grid these are exactly its
      in-bounds orthogonal neighbours. */
  function Neighbors(rows: int, cols: int, row: int, col: int): (ns: seq<Coord>)
    ensures forall q :: q in ns ==> Adjacent((row, col), q)
    ensures forall i, j :: 0 <= i < j < |ns| ==>
              Rank(Direction((row, col), ns[i])) < Rank(Direction((row, col), ns[j]))
    ensures InBounds(rows, cols, (row, col)) ==>
              forall q :: q in ns <==> InBounds(rows, cols, q) && Adjacent((row, col), q)
  {
    var up := if row > 0 then [(row - 1, col)] else [];
    var down := if row < rows - 1 then [(row + 1, col)] else [];
    var left := if col > 0 then [(row, col - 1)] else [];
    var right := if col < cols - 1 then [(row, col + 1)] else [];
    up + down + left + right
  }

  /** The two neighbour lists the source's tests expect of a 10 x 12 maze. */
  lemma NeighborsExamples()
    ensures Neighbors(10, 12, 0, 0) == [(1, 0), (0, 1)]
    ensures Neighbors(10, 12, 1, 1) == [(0, 1), (2, 1), (1, 0), (1, 2)]
  {
  }

  /** The wall-clearing part of `__break_wall`, after its bounds test: for two cells
      side by side or one above the other, clear the facing flag of each; for any
      other pair, the cell with itself included, change nothing. */
  function BrokenWall(g: seq<seq<Cell>>, r1: int, c1: int, r2: int, c2: int): (h: seq<seq<Cell>>)
    requires InGrid(g, (r1, c1)) && InGrid(g, (r2, c2))
    ensures SameShape(g, h)
    ensures !Adjacent((r1, c1), (r2, c2)) ==> h == g
    ensures Adjacent((r1, c1), (r2, c2)) ==>
              At(h, (r1, c1)) == ClearWall(At(g, (r1, c1)), Direction((r1, c1), (r2, c2))) &&
              At(h, (r2, c2)) == ClearWall(At(g, (r2, c2)), Direction((r2, c2), (r1, c1))) &&
              forall o :: InGrid(g, o) && o != (r1, c1) && o != (r2, c2) ==> At(h, o) == At(g, o)
  {
    if r1 == r2 then
      if c1 == c2 - 1 then
        var h := Put(g, (r1, c1), At(g, (r1, c1)).(hasRightWall := false));
        Put(h, (r1, c2), At(h, (r1, c2)).(hasLeftWall := false))
      else if c1 == c2 + 1 then
        var h := Put(g, (r1, c1), At(g, (r1, c1)).(hasLeftWall := false));
        Put(h, (r1, c2), At(h, (r1, c2)).(hasRightWall := false))
      else g
    else if c1 == c2 then
      if r1 == r2 - 1 then
        var h := Put(g, (r1, c1), At(g, (r1, c1)).(hasBottomWall := false));
        Put(h, (r2, c1), At(h, (r2, c1)).(hasTopWall := false))
      else if r1 == r2 + 1 then
        var h := Put(g, (r1, c1), At(g, (r1, c1)).(hasTopWall := false));
        Put(h, (r2, c1), At(h, (r2, c1)).(hasBottomWall := false))
      else g
    else g
  }

  /** `__break_wall` is symmetric: naming the two cells in either order gives the same grid. */
  lemma BrokenWallSymmetric(g: seq<seq<Cell>>, r1: int, c1: int, r2: int, c2: int)
    requires InGrid(g, (r1, c1)) && InGrid(g, (r2, c2))
    ensures BrokenWall(g, r1, c1, r2, c2) == BrokenWall(g, r2, c2, r1, c1)
  {
    var h1 := BrokenWall(g, r1, c1, r2, c2);
    var h2 := BrokenWall(g, r2, c2, r1, c1);
    if Adjacent((r1, c1), (r2, c2)) {
      forall r | 0 <= r < |g|
        ensures h1[r] == h2[r]
      {
        forall c | 0 <= c < |g[r]|
          ensures h1[r][c] == h2[r][c]
        {
          assert At(h1, (r, c)) == At(h2, (r, c));
        }
      }
    }
  }

  /** Both copies of a wall open: the passage from `p` to its neighbour `q` is free. */
  predicate Open(g: seq<seq<Cell>>, p: Coord, q: Coord)
  {
    InGrid(g, p) && InGrid(g, q) && Adjacent(p, q) &&
    !HasWall(At(g, p), Direction(p, q)) && !HasWall(At(g, q), Direction(q, p))
  }

  /** Every wall is recorded alike on both of its sides. */
  ghost predicate WallsAgree(g: seq<seq<Cell>>)
  {
    forall p, s :: InGrid(g, p) && InGrid(g, Step(p, s)) ==>
      HasWall(At(g, p), s) == HasWall(At(g, Step(p, s)), Opposite(s))
  }

  /** Knocking down the wall between neighbours `p` and `q` lowers exactly the flag of
      `p` facing `q` and the flag of `q` facing `p`. */
  lemma BrokenWallFlags(g: seq<seq<Cell>>, p: Coord, q: Coord)
    requires InGrid(g, p) && InGrid(g, q) && Adjacent(p, q)
    ensures var h := BrokenWall(g, p.0, p.1, q.0, q.1);
      SameShape(g, h) &&
      forall o, s :: InGrid(g, o) ==>
        HasWall(At(h, o), s) ==
          (HasWall(At(g, o), s) && !(o == p && s == Direction(p, q)) && !(o == q && s == Direction(q, p)))
  {
    StepAdjacent(p, Direction(p, q));
  }

  /** Knocking down the wall between two neighbours opens the passage both ways, keeps
      the two copies of every wall in agreement, and never touches a side of a cell
      that faces out of the grid. */
  lemma BrokenWallEffects(g: seq<seq<Cell>>, p: Coord, q: Coord)
    requires InGrid(g, p) && InGrid(g, q)
    ensures var h := BrokenWall(g, p.0, p.1, q.0, q.1);
      (Adjacent(p, q) ==> Open(h, p, q) && Open(h, q, p)) &&
      (WallsAgree(g) ==> WallsAgree(h)) &&
      (forall o, s :: InGrid(g, o) && !InGrid(g, Step(o, s)) ==>
         HasWall(At(h, o), s) == HasWall(At(g, o), s))
  {
    if Adjacent(p, q) {
      BrokenWallFlags(g, p, q);
      StepAdjacent(p, Direction(p, q));
      if WallsAgree(g) {
        BrokenWallAgrees(g, p, q);
      }
    }
  }

  lemma BrokenWallAgrees(g: seq<seq<Cell>>, p: Coord, q: Coord)
    requires InGrid(g, p) && InGrid(g, q) && Adjacent(p, q) && WallsAgree(g)
    ensures WallsAgree(BrokenWall(g, p.0, p.1, q.0, q.1))
  {
    var h := BrokenWall(g, p.0, p.1, q.0, q.1);
    var d := Direction(p, q);
    BrokenWallFlags(g, p, q);
    StepAdjacent(p, d);
    forall o, s | InGrid(h, o) && InGrid(h, Step(o, s))
      ensures HasWall(At(h, o), s) == HasWall(At(h, Step(o, s)), Opposite(s))
    {
      StepAdjacent(o, s);
      assert Opposite(Opposite(s)) == s;
    }
  }

  /** The state `create` leaves a grid in: nothing visited, and every wall between
      two cells of the grid standing (walls on the outer edge may already be open). */
  ghost predicate Fresh(g: seq<seq<Cell>>)
  {
    (forall p :: InGrid(g, p) ==> !At(g, p).visited) &&
    (forall p, s {:trigger Step(p, s)} :: InGrid(g, p) && InGrid(g, Step(p, s)) ==> HasWall(At(g, p), s))
  }

  /** The wall part of `break_entrance_and_exit`: on a grid with a first cell, open the
      left wall of the top-left cell and the right wall of the last cell of the last row,
      and nothing else. Python's `cells[-1][-1]` needs that last row to be non-empty. */
  function EntranceAndExit(g: seq<seq<Cell>>): (h: seq<seq<Cell>>)
    requires |g| > 0 && |g[0]| > 0 ==> |g[|g| - 1]| > 0
    ensures SameShape(g, h)
  {
    if |g| > 0 && |g[0]| > 0 then
      var h := Put(g, (0, 0), g[0][0].(hasLeftWall := false));
      Put(h, LastCell(h), At(h, LastCell(h)).(hasRightWall := false))
    else g
  }

  /** Opening the entrance and the exit lowers exactly the left wall of the top-left cell
      and the right wall of the last cell, and keeps every mark, square and colour; a grid
      without a first cell is left as it is. */
  lemma EntranceAndExitEffects(g: seq<seq<Cell>>)
    requires |g| > 0 && |g[0]| > 0 ==> |g[|g| - 1]| > 0
    ensures var h := EntranceAndExit(g);
      (!(|g| > 0 && |g[0]| > 0) ==> h == g) &&
      (|g| > 0 && |g[0]| > 0 ==>
         InGrid(h, (0, 0)) && InGrid(h, LastCell(h)) && LastCell(h) == LastCell(g) &&
         !At(h, (0, 0)).hasLeftWall && !At(h, LastCell(h)).hasRightWall) &&
      (forall p, s ::
         (InGrid(g, p) && !(p == (0, 0) && s == Left) && !(p == LastCell(g) && s == Right)) ==>
         HasWall(At(h, p), s) == HasWall(At(g, p), s)) &&
      (forall p :: InGrid(g, p) ==>
         At(h, p).visited == At(g, p).visited && SameSquareAndColor(At(g, p), At(h, p)))
  {
    if |g| > 0 && |g[0]| > 0 {
      var h1 := Put(g, (0, 0), g[0][0].(hasLeftWall := false));
      assert LastCell(h1) == LastCell(g);
    }
  }

  /** Opening the entrance and the exit keeps a grid fresh: both walls face out of it. */
  lemma OpenEdgesKeepFresh(g: seq<seq<Cell>>)
    requires |g| > 0 && |g[0]| > 0 ==> |g[|g| - 1]| > 0
    requires Fresh(g)
    ensures Fresh(EntranceAndExit(g))
  {
    var h := EntranceAndExit(g);
    EntranceAndExitEffects(g);
    forall p, s | InGrid(h, p) && InGrid(h, Step(p, s))
      ensures HasWall(At(h, p), s)
    {
      assert InGrid(g, p) && InGrid(g, Step(p, s));
    }
  }

  /** An interior wall, named by the cell on its left (East) or above it (South). */
  datatype Wall = East(r: int, c: int) | South(r: int, c: int)

  function WallBetween(p: Coord, q: Coord): Wall
    requires Adjacent(p, q)
  {
    match Direction(p, q)
    case Right => East(p.0, p.1)
    case Left => East(q.0, q.1)
    case Bottom => South(p.0, p.1)
    case Top => South(q.0, q.1)
  }

  /** The interior walls that have been knocked down, read off the right and bottom flags. */
  function BrokenWalls(g: seq<seq<Cell>>, rows: int, cols: int): set<Wall>
    requires Shape(g, rows, cols)
  {
    (set r, c | 0 <= r < rows && 0 <= c < cols - 1 && !g[r][c].hasRightWall :: East(r, c)) +
    (set r, c | 0 <= r < rows - 1 && 0 <= c < cols && !g[r][c].hasBottomWall :: South(r, c))
  }

  /** `v` separates two cells of a rows x cols grid. */
  predicate WallInside(rows: int, cols: int, v: Wall)
  {
    match v
    case East(r, c) => 0 <= r < rows && 0 <= c < cols - 1
    case South(r, c) => 0 <= r < rows - 1 && 0 <= c < cols
  }

  /** The flag that records `v`: the right wall of the cell left of it, or the bottom
      wall of the cell above it. */
  function Standing(g: seq<seq<Cell>>, rows: int, cols: int, v: Wall): bool
    requires Shape(g, rows, cols) && WallInside(rows, cols, v)
  {
    match v
    case East(r, c) => HasWall(At(g, (r, c)), Right)
    case South(r, c) => HasWall(At(g, (r, c)), Bottom)
  }

  lemma BrokenWallsMember(g: seq<seq<Cell>>, rows: int, cols: int, v: Wall)
    requires Shape(g, rows, cols)
    ensures v in BrokenWalls(g, rows, cols) <==> WallInside(rows, cols, v) && !Standing(g, rows, cols, v)
  {
    if WallInside(rows, cols, v) {
      assert At(g, (v.r, v.c)) == g[v.r][v.c];
    }
  }

  /** Knocking down the wall between `p` and `q` lowers the flag of that wall and of no other. */
  lemma StandingAfterBreak(g: seq<seq<Cell>>, rows: int, cols: int, p: Coord, q: Coord, v: Wall)
    requires Shape(g, rows, cols) && InGrid(g, p) && InGrid(g, q) && Adjacent(p, q)
    requires WallInside(rows, cols, v)
    ensures Shape(BrokenWall(g, p.0, p.1, q.0, q.1), rows, cols)
    ensures Standing(BrokenWall(g, p.0, p.1, q.0, q.1), rows, cols, v) ==
            (Standing(g, rows, cols, v) && v != WallBetween(p, q))
  {
    var d := Direction(p, q);
    StepAdjacent(p, d);
  }

  /** Knocking down a standing wall adds exactly that wall to the broken ones. */
  lemma BrokenWallsGrow(g: seq<seq<Cell>>, rows: int, cols: int, p: Coord, q: Coord)
    requires Shape(g, rows, cols) && InGrid(g, p) && InGrid(g, q) && Adjacent(p, q)
    requires HasWall(At(g, p), Direction(p, q)) && HasWall(At(g, q), Direction(q, p))
    ensures WallBetween(p, q) !in BrokenWalls(g, rows, cols)
    ensures BrokenWalls(BrokenWall(g, p.0, p.1, q.0, q.1), rows, cols) ==
            BrokenWalls(g, rows, cols) + {WallBetween(p, q)}
  {
    var h := BrokenWall(g, p.0, p.1, q.0, q.1);
    var w := WallBetween(p, q);
    StepAdjacent(p, Direction(p, q));
    assert WallInside(rows, cols, w) && Standing(g, rows, cols, w);
    BrokenWallsMember(g, rows, cols, w);
    assert Shape(h, rows, cols);
    forall v
      ensures v in BrokenWalls(h, rows, cols) <==> v in BrokenWalls(g, rows, cols) + {w}
    {
      BrokenWallsMember(g, rows, cols, v);
      BrokenWallsMember(h, rows, cols, v);
      if WallInside(rows, cols, v) {
        StandingAfterBreak(g, rows, cols, p, q, v);
      }
    }
  }

  /** Every coordinate of a rows x cols grid. */
  function AllCoords(rows: int, cols: int): set<Coord>
  {
    set r, c | 0 <= r < rows && 0 <= c < cols :: (r, c)
  }

  function RowCoords(r: int, cols: int): set<Coord>
  {
    set c | 0 <= c < cols :: (r, c)
  }

  lemma {:induction false} RowCoordsCard(r: int, cols: nat)
    ensures |RowCoords(r, cols)| == cols
  {
    if cols > 0 {
      RowCoordsCard(r, cols - 1);
      assert RowCoords(r, cols) == RowCoords(r, cols - 1) + {(r, cols - 1)};
    }
  }

  /** A rows x cols grid has rows * cols cells. */
  lemma {:induction false} AllCoordsCard(rows: nat, cols: nat)
    ensures |AllCoords(rows, cols)| == rows * cols
  {
    if rows > 0 {
      AllCoordsCard(rows - 1, cols);
      RowCoordsCard(rows - 1, cols);
      AllCoordsLastRow(rows, cols);
      assert rows * cols == (rows - 1) * cols + cols;
    }
  }

  lemma AllCoordsLastRow(rows: int, cols: int)
    requires rows > 0
    ensures AllCoords(rows, cols) == AllCoords(rows - 1, cols) + RowCoords(rows - 1, cols)
    ensures |AllCoords(rows, cols)| == |AllCoords(rows - 1, cols)| + |RowCoords(rows - 1, cols)|
  {
    assert AllCoords(rows, cols) == AllCoords(rows - 1, cols) + RowCoords(rows - 1, cols);
    assert AllCoords(rows - 1, cols) !! RowCoords(rows - 1, cols);
  }

  /** How many values Python's `range(start, stop, CellSize)` produces: none when
      `start` is already at or past `stop`; otherwise the last value produced,
      start + (n - 1) * CellSize, is below `stop` and the next one would not be. */
  function RangeCount(start: int, stop: int): (n: nat)
    ensures n == 0 <==> stop <= start
    ensures n > 0 ==> start + (n - 1) * CellSize < stop <= start + n * CellSize
    decreases stop - start
  {
    if start < stop then 1 + RangeCount(start + CellSize, stop) else 0
  }

  /** The cells the headless branch of `create` lays out, one row per value of
      range(y, rows * 20, 20) and one cell per value of range(x, cols * 20, 20): every
      cell is a new 20 x 20 square of the given colour whose top-left corner lies at or
      after (x, y) and before (cols * 20, rows * 20). */
  function HeadlessGrid(x: int, y: int, rows: int, cols: int, color: string): (g: seq<seq<Cell>>)
    ensures |g| == RangeCount(y, rows * CellSize)
    ensures forall i :: 0 <= i < |g| ==> |g[i]| == RangeCount(x, cols * CellSize)
    ensures forall p :: InGrid(g, p) ==>
      x <= At(g, p).x1 < cols * CellSize && y <= At(g, p).y1 < rows * CellSize &&
      At(g, p).x2 == At(g, p).x1 + CellSize && At(g, p).y2 == At(g, p).y1 + CellSize &&
      At(g, p).color == color && !At(g, p).visited &&
      forall s :: HasWall(At(g, p), s)
  {
    seq(RangeCount(y, rows * CellSize), i =>
      seq(RangeCount(x, cols * CellSize), j =>
        NewCell(x + j * CellSize, y + i * CellSize,
                x + j * CellSize + CellSize, y + i * CellSize + CellSize, color)))
  }

  /** The cell at (r, c) covers the 20 x 20 square whose top-left corner is (20 c, 20 r). */
  ghost predicate StandardSquares(g: seq<seq<Cell>>)
  {
    forall p :: InGrid(g, p) ==>
      At(g, p).x1 == p.1 * CellSize && At(g, p).y1 == p.0 * CellSize &&
      At(g, p).x2 == At(g, p).x1 + CellSize && At(g, p).y2 == At(g, p).y1 + CellSize
  }

  /** With no offset, `create` builds `rows` rows of `cols` cells, each a fresh cell with
      all four walls in the square of its position. */
  lemma {:induction false} HeadlessGridShape(rows: int, cols: int, color: string)
    requires rows >= 0 && cols >= 0
    ensures var g := HeadlessGrid(0, 0, rows, cols, color);
      Shape(g, rows, cols) && Fresh(g) && StandardSquares(g) &&
      forall p, s :: InGrid(g, p) ==> HasWall(At(g, p), s) && At(g, p).color == color
  {
    RangeCountOffset(0, rows);
    RangeCountOffset(0, cols);
  }

  /** With an offset, the headless layout loses offset / 20 rows (or columns): its
      ranges start at the offset but still stop at rows * 20. */
  lemma {:induction false} RangeCountOffset(start: int, n: int)
    requires 0 <= start <= n * CellSize
    ensures RangeCount(start, n * CellSize) == n - start / CellSize
  {
    var m := n - start / CellSize;
    var count := RangeCount(start, n * CellSize);
    assert start + (m - 1) * CellSize < n * CellSize;
    assert m >= 0 && !(start + m * CellSize < n * CellSize);
  }

  /** On a grid laid out by `create`, the test `draw_move` makes agrees with the walls:
      a move to a neighbour is refused exactly when the mover's facing wall stands,
      and a move to a cell in another row and another column is always refused. */
  lemma MoveCheckMatchesWalls(g: seq<seq<Cell>>, p: Coord, q: Coord)
    requires StandardSquares(g) && InGrid(g, p) && InGrid(g, q)
    ensures Adjacent(p, q) ==>
              CheckMove(At(g, p), At(g, q)) ==
                (if HasWall(At(g, p), Direction(p, q)) then Fail(WallInTheWay) else Pass)
    ensures p.0 != q.0 && p.1 != q.1 ==> CheckMove(At(g, p), At(g, q)) == Fail(NotAdjacent)
  {
    var a := Center(At(g, p));
    var b := Center(At(g, q));
    assert a.x == (p.1 * CellSize) as real + 10.0 && a.y == (p.0 * CellSize) as real + 10.0;
    assert b.x == (q.1 * CellSize) as real + 10.0 && b.y == (q.0 * CellSize) as real + 10.0;
  }

  /** The grid with the cell at `p` marked visited. */
  function MarkVisited(g: seq<seq<Cell>>, p: Coord): (h: seq<seq<Cell>>)
    requires InGrid(g, p)
    ensures SameShape(g, h)
    ensures At(h, p) == At(g, p).(visited := true)
    ensures forall q :: InGrid(g, q) && q != p ==> At(h, q) == At(g, q)
  {
    Put(g, p, At(g, p).(visited := true))
  }

  lemma FreshAgrees(g: seq<seq<Cell>>)
    requires Fresh(g)
    ensures WallsAgree(g)
  {
    forall p, s | InGrid(g, p) && InGrid(g, Step(p, s))
      ensures HasWall(At(g, Step(p, s)), Opposite(s))
    {
      StepAdjacent(p, s);
    }
  }

  lemma FreshHasNoBrokenWalls(g: seq<seq<Cell>>, rows: int, cols: int)
    requires Shape(g, rows, cols) && Fresh(g)
    ensures BrokenWalls(g, rows, cols) == {}
  {
    forall r: int, c: int | 0 <= r < rows && 0 <= c < cols
      ensures c < cols - 1 ==> g[r][c].hasRightWall
      ensures r < rows - 1 ==> g[r][c].hasBottomWall
    {
      assert Step((r, c), Right) == (r, c + 1) && Step((r, c), Bottom) == (r + 1, c);
      assert c < cols - 1 ==> HasWall(At(g, (r, c)), Right);
      assert r < rows - 1 ==> HasWall(At(g, (r, c)), Bottom);
    }
  }
}
