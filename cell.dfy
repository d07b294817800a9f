/** Cells of the maze: the record each grid position holds, its centre, and the
    check a move between two cells must pass before it is drawn. */
module Cells {

  /** The exceptions the maze raises, one constructor per message. */
  datatype Error =
    | NotAdjacent      // "Can only move to adjacent cells"
    | WallInTheWay     // "Wall in the way"
    | OutOfBounds      // "Cells must be in bounds"
    | NoCells          // "Maze must have cells"

  /** Either the operation went through, or it raised the given error. */
  datatype Outcome = Pass | Fail(error: Error)

  /** A point on the canvas; centres are exact halves, so coordinates are reals. */
  datatype Point = Point(x: real, y: real)

  /** The four sides of a cell, in the order the maze lists neighbours: up, down, left, right. */
  datatype Side = Top | Bottom | Left | Right

  function Opposite(s: Side): (o: Side)
    ensures o != s
  {
    match s
    case Top => Bottom
    case Bottom => Top
    case Left => Right
    case Right => Left
  }

  /** One cell: four wall flags, the corners (x1, y1) and (x2, y2) of its square,
      its fill colour and the visited mark used while the maze is carved. */
  datatype Cell = Cell(
    hasLeftWall: bool,
    hasRightWall: bool,
    hasTopWall: bool,
    hasBottomWall: bool,
    x1: int, y1: int, x2: int, y2: int,
    color: string,
    visited: bool)

  /** A freshly built cell: every wall standing, not visited. */
  function NewCell(x1: int, y1: int, x2: int, y2: int, color: string): (c: Cell)
    ensures c.hasLeftWall && c.hasRightWall && c.hasTopWall && c.hasBottomWall
    ensures !c.visited
    ensures c.x1 == x1 && c.y1 == y1 && c.x2 == x2 && c.y2 == y2 && c.color == color
  {
    Cell(true, true, true, true, x1, y1, x2, y2, color, false)
  }

  function HasWall(c: Cell, s: Side): bool
  {
    match s
    case Top => c.hasTopWall
    case Bottom => c.hasBottomWall
    case Left => c.hasLeftWall
    case Right => c.hasRightWall
  }

  /** The cell with the wall on side `s` knocked down and everything else kept. */
  function ClearWall(c: Cell, s: Side): (d: Cell)
    ensures !HasWall(d, s)
    ensures forall t :: t != s ==> HasWall(d, t) == HasWall(c, t)
    ensures d.visited == c.visited && SameSquareAndColor(c, d)
  {
    match s
    case Top => c.(hasTopWall := false)
    case Bottom => c.(hasBottomWall := false)
    case Left => c.(hasLeftWall := false)
    case Right => c.(hasRightWall := false)
  }

  /** Two cells occupy the same square on the canvas and have the same colour. */
  predicate SameSquareAndColor(c: Cell, d: Cell)
  {
    c.x1 == d.x1 && c.y1 == d.y1 && c.x2 == d.x2 && c.y2 == d.y2 && c.color == d.color
  }

  /** The centre of the cell's square. */
  function Center(c: Cell): (p: Point)
    ensures p.x - c.x1 as real == c.x2 as real - p.x
    ensures p.y - c.y1 as real == c.y2 as real - p.y
  {
    Point((c.x1 + c.x2) as real / 2.0, (c.y1 + c.y2) as real / 2.0)
  }

  /** The validation `draw_move` performs before drawing a move from `from` to `to`:
      centres that differ on both axes are rejected, and so is a move toward a side
      of `from` that still has its wall. Canvas y grows downwards, so a target with a
      smaller centre y lies above. */
  function CheckMove(from: Cell, to: Cell): (r: Outcome)
    ensures r == Fail(NotAdjacent) <==>
              Center(to).x != Center(from).x && Center(to).y != Center(from).y
    ensures r != Fail(OutOfBounds) && r != Fail(NoCells)
    ensures r == Pass <==>
              (Center(to).x == Center(from).x || Center(to).y == Center(from).y) &&
              (Toward(from, to, Top) ==> !from.hasTopWall) &&
              (Toward(from, to, Bottom) ==> !from.hasBottomWall) &&
              (Toward(from, to, Left) ==> !from.hasLeftWall) &&
              (Toward(from, to, Right) ==> !from.hasRightWall)
  {
    var xDiff := Center(to).x - Center(from).x;
    var yDiff := Center(to).y - Center(from).y;
    if xDiff != 0.0 && yDiff != 0.0 then Fail(NotAdjacent)
    else if xDiff == 0.0 then
      if yDiff < 0.0 && from.hasTopWall then Fail(WallInTheWay)
      else if yDiff > 0.0 && from.hasBottomWall then Fail(WallInTheWay)
      else Pass
    else
      if xDiff < 0.0 && from.hasLeftWall then Fail(WallInTheWay)
      else if xDiff > 0.0 && from.hasRightWall then Fail(WallInTheWay)
      else Pass
  }

  /** Seen from `from`, the centre of `to` lies beyond side `s`. */
  predicate Toward(from: Cell, to: Cell, s: Side)
  {
    var a := Center(from);
    var b := Center(to);
    match s
    case Top => b.y < a.y
    case Bottom => b.y > a.y
    case Left => b.x < a.x
    case Right => b.x > a.x
  }
}
