/** What the breadth-first carve keeps true from one step to the next, stated over the
    grid as a value, and the facts that each of its steps preserves it. */
module Carve {
  import opened Cells
  import opened Grid

  /** The bookkeeping of a carve in progress over a rows x cols grid `g`, started from
      `g0`: `order` lists every cell ever enqueued, the first `head` of them dequeued;
      `queue` is the rest; `seen` is the set of visited cells; `paths` gives an open walk
      from the top-left cell to every enqueued cell. When the carve started from a fresh
      grid, every visited cell has been enqueued, no wall of an unvisited cell has come
      down, and exactly one wall has come down per enqueued cell after the first. */
  ghost predicate Carving(g0: seq<seq<Cell>>, g: seq<seq<Cell>>, rows: int, cols: int,
                          queue: seq<Coord>, order: seq<Coord>, head: int,
                          seen: set<Coord>, paths: map<Coord, seq<Coord>>)
  {
    Shape(g, rows, cols) && CarvedFrom(g0, g) &&
    QueueOf(rows, cols, queue, order, head) &&
    SeenMatches(g, rows, cols, order, head, seen) &&
    PathsReach(g, order, paths) &&
    (Fresh(g0) ==> FreshCarving(g, rows, cols, order, seen))
  }

  /** `queue` is the unprocessed tail of `order`, which starts at the top-left cell and
      holds distinct in-bounds cells. */
  ghost predicate QueueOf(rows: int, cols: int, queue: seq<Coord>, order: seq<Coord>, head: int)
  {
    0 <= head <= |order| && queue == order[head..] && |order| > 0 && order[0] == (0, 0) &&
    (forall k :: 0 <= k < |order| ==> InBounds(rows, cols, order[k])) &&
    Distinct(order)
  }

  /** `seen` is the set of visited cells, and holds every enqueued cell except the
      top-left one before it is first dequeued. */
  ghost predicate SeenMatches(g: seq<seq<Cell>>, rows: int, cols: int, order: seq<Coord>, head: int,
                              seen: set<Coord>)
    requires Shape(g, rows, cols)
  {
    (forall p :: p in seen <==> InBounds(rows, cols, p) && At(g, p).visited) &&
    (forall k :: 0 <= k < |order| ==> order[k] in seen || (k == 0 && head == 0))
  }

  ghost predicate PathsReach(g: seq<seq<Cell>>, order: seq<Coord>, paths: map<Coord, seq<Coord>>)
  {
    forall k :: 0 <= k < |order| ==> order[k] in paths && PathFromStart(g, paths[order[k]], order[k])
  }

  /** Started from a fresh grid: every visited cell has been enqueued, no wall of an
      unvisited cell has come down, and one wall has come down per enqueued cell after
      the first. */
  ghost predicate FreshCarving(g: seq<seq<Cell>>, rows: int, cols: int, order: seq<Coord>, seen: set<Coord>)
    requires Shape(g, rows, cols)
  {
    (forall p :: p in seen ==> p in order) &&
    (forall p, s {:trigger Step(p, s)} :: InBounds(rows, cols, p) && p !in seen && InBounds(rows, cols, Step(p, s)) ==>
       HasWall(At(g, p), s)) &&
    |BrokenWalls(g, rows, cols)| == |order| - 1
  }

  /** Every in-bounds neighbour of the first `done` enqueued cells has been visited. */
  ghost predicate Explored(rows: int, cols: int, order: seq<Coord>, done: int, seen: set<Coord>)
    requires 0 <= done <= |order|
  {
    forall k, s :: 0 <= k < done && InBounds(rows, cols, Step(order[k], s)) ==> Step(order[k], s) in seen
  }

  /** The visited cells of a grid. */
  function VisitedSet(g: seq<seq<Cell>>, rows: int, cols: int): set<Coord>
    requires Shape(g, rows, cols)
  {
    set r, c | 0 <= r < rows && 0 <= c < cols && g[r][c].visited :: (r, c)
  }

  /** A walk through the grid that never crosses a standing wall. */
  predicate IsOpenPath(g: seq<seq<Cell>>, path: seq<Coord>)
  {
    |path| > 0 &&
    (forall i :: 0 <= i < |path| ==> InGrid(g, path[i])) &&
    (forall i :: 0 <= i < |path| - 1 ==> Open(g, path[i], path[i + 1]))
  }

  /** The elements of a sequence, as a set. */
  function Elems<T>(s: seq<T>): set<T>
  {
    set x | x in s
  }

  predicate Distinct<T(==)>(s: seq<T>)
  {
    forall i, j :: 0 <= i < j < |s| ==> s[i] != s[j]
  }

  lemma DistinctAppend<T>(s: seq<T>, x: T)
    requires Distinct(s) && x !in s
    ensures Distinct(s + [x])
  {
  }

  lemma {:induction false} DistinctCard<T>(s: seq<T>)
    requires Distinct(s)
    ensures |Elems(s)| == |s|
  {
    if s != [] {
      var t := s[..|s| - 1];
      assert Distinct(t);
      DistinctCard(t);
      assert Elems(s) == Elems(t) + {s[|s| - 1]};
      assert s[|s| - 1] !in Elems(t);
    }
  }

  /** A set of cells that holds the top-left corner and is closed under moving to an
      in-bounds neighbour holds every cell: the grid is connected. */
  lemma ClosedSetCoversGrid(rows: int, cols: int, seen: set<Coord>)
    requires (0, 0) in seen
    requires forall p, s :: p in seen && InBounds(rows, cols, Step(p, s)) ==> Step(p, s) in seen
    ensures forall p :: InBounds(rows, cols, p) ==> p in seen
  {
    forall p | InBounds(rows, cols, p)
      ensures p in seen
    {
      ReachAlongRow(rows, cols, seen, p.0, p.1);
    }
  }

  lemma {:induction false} ReachDownFirstColumn(rows: int, cols: int, seen: set<Coord>, r: int)
    requires (0, 0) in seen
    requires forall p, s :: p in seen && InBounds(rows, cols, Step(p, s)) ==> Step(p, s) in seen
    requires 0 <= r < rows && 0 < cols
    ensures (r, 0) in seen
  {
    if r > 0 {
      ReachDownFirstColumn(rows, cols, seen, r - 1);
      assert Step((r - 1, 0), Bottom) == (r, 0);
    }
  }

  lemma {:induction false} ReachAlongRow(rows: int, cols: int, seen: set<Coord>, r: int, c: int)
    requires (0, 0) in seen
    requires forall p, s :: p in seen && InBounds(rows, cols, Step(p, s)) ==> Step(p, s) in seen
    requires 0 <= r < rows && 0 <= c < cols
    ensures (r, c) in seen
  {
    if c == 0 {
      ReachDownFirstColumn(rows, cols, seen, r);
    } else {
      ReachAlongRow(rows, cols, seen, r, c - 1);
      assert Step((r, c - 1), Right) == (r, c);
    }
  }

  /** `g` can be reached from `g0` by knocking down interior walls and marking cells:
      same shape, same squares, no wall raised, no outer wall touched, and walls that
      were recorded alike on both sides still are. */
  ghost predicate CarvedFrom(g0: seq<seq<Cell>>, g: seq<seq<Cell>>)
  {
    SameShape(g0, g) &&
    (forall p :: InGrid(g0, p) ==> SameSquareAndColor(At(g0, p), At(g, p))) &&
    (forall p, s :: InGrid(g0, p) && HasWall(At(g, p), s) ==> HasWall(At(g0, p), s)) &&
    (forall p, s {:trigger Step(p, s)} :: InGrid(g0, p) && !InGrid(g0, Step(p, s)) ==>
       HasWall(At(g, p), s) == HasWall(At(g0, p), s)) &&
    (WallsAgree(g0) ==> WallsAgree(g))
  }

  /** A carve leaves the left wall of the top-left cell and the right wall of the last
      cell as they were: both face out of the grid. */
  lemma CarveKeepsEdges(g0: seq<seq<Cell>>, g: seq<seq<Cell>>)
    requires CarvedFrom(g0, g) && |g0| > 0 && |g0[0]| > 0 && |g0[|g0| - 1]| > 0
    ensures InGrid(g, (0, 0)) && InGrid(g, LastCell(g)) && LastCell(g) == LastCell(g0)
    ensures HasWall(At(g, (0, 0)), Left) == HasWall(At(g0, (0, 0)), Left)
    ensures HasWall(At(g, LastCell(g)), Right) == HasWall(At(g0, LastCell(g0)), Right)
  {
    assert !InGrid(g0, Step((0, 0), Left));
    assert !InGrid(g0, Step(LastCell(g0), Right));
  }

  /** After the entrance and exit are opened on a rows x cols grid, any carve leaves
      them open. */
  lemma CarveKeepsEntranceAndExit(g0: seq<seq<Cell>>, g: seq<seq<Cell>>, rows: int, cols: int)
    requires Shape(g0, rows, cols) && rows > 0 && cols > 0
    requires CarvedFrom(EntranceAndExit(g0), g)
    ensures InGrid(g, (0, 0)) && InGrid(g, (rows - 1, cols - 1))
    ensures !At(g, (0, 0)).hasLeftWall && !At(g, (rows - 1, cols - 1)).hasRightWall
  {
    var h := EntranceAndExit(g0);
    EntranceAndExitEffects(g0);
    CarveKeepsEdges(h, g);
    assert LastCell(g0) == (rows - 1, cols - 1);
  }

  lemma CarvedFromTrans(g0: seq<seq<Cell>>, g1: seq<seq<Cell>>, g2: seq<seq<Cell>>)
    requires CarvedFrom(g0, g1) && CarvedFrom(g1, g2)
    ensures CarvedFrom(g0, g2)
  {
    assert forall p :: InGrid(g0, p) ==> InGrid(g1, p);
    assert forall p :: InGrid(g1, p) ==> InGrid(g0, p);
  }

  /** Knocking down one wall is a carving step. */
  lemma BreakCarves(g: seq<seq<Cell>>, p: Coord, q: Coord)
    requires InGrid(g, p) && InGrid(g, q)
    ensures CarvedFrom(g, BrokenWall(g, p.0, p.1, q.0, q.1))
  {
    BrokenWallEffects(g, p, q);
    if Adjacent(p, q) {
      BrokenWallFlags(g, p, q);
    }
  }

  /** An open walk stays open while walls only come down. */
  lemma OpenPathSurvives(g: seq<seq<Cell>>, h: seq<seq<Cell>>, path: seq<Coord>)
    requires CarvedFrom(g, h) && IsOpenPath(g, path)
    ensures IsOpenPath(h, path)
  {
    forall i | 0 <= i < |path| - 1
      ensures Open(h, path[i], path[i + 1])
    {
      assert Open(g, path[i], path[i + 1]);
    }
  }

  lemma ExtendOpenPath(g: seq<seq<Cell>>, path: seq<Coord>, q: Coord)
    requires IsOpenPath(g, path) && Open(g, path[|path| - 1], q)
    ensures IsOpenPath(g, path + [q])
  {
  }

  lemma DiffShrinks(all: set<Coord>, seen: set<Coord>, p: Coord)
    ensures |all - (seen + {p})| <= |all - seen|
    ensures p in all && p !in seen ==> |all - (seen + {p})| == |all - seen| - 1
  {
    if p in all && p !in seen {
      assert all - seen == (all - (seen + {p})) + {p};
    } else {
      assert all - (seen + {p}) == all - seen;
    }
  }

  lemma CarvedFromRefl(g: seq<seq<Cell>>)
    ensures CarvedFrom(g, g)
  {
  }

  /** An open walk from the top-left cell to `p`. */
  predicate PathFromStart(g: seq<seq<Cell>>, path: seq<Coord>, p: Coord)
  {
    IsOpenPath(g, path) && path[0] == (0, 0) && path[|path| - 1] == p
  }

  /** The state right after the top-left cell has been enqueued. */
  lemma StartCarving(g: seq<seq<Cell>>, rows: int, cols: int, queue: seq<Coord>, order: seq<Coord>,
                     seen: set<Coord>, paths: map<Coord, seq<Coord>>)
    requires Shape(g, rows, cols) && rows > 0 && cols > 0
    requires queue == [(0, 0)] && order == [(0, 0)] && seen == VisitedSet(g, rows, cols)
    requires paths == map[(0, 0) := [(0, 0)]]
    ensures Carving(g, g, rows, cols, queue, order, 0, seen, paths)
    ensures Explored(rows, cols, order, 0, seen)
  {
    CarvedFromRefl(g);
    forall p
      ensures p in seen <==> InBounds(rows, cols, p) && At(g, p).visited
    {
      if InBounds(rows, cols, p) && At(g, p).visited {
        assert g[p.0][p.1].visited;
      }
    }
    if Fresh(g) {
      FreshHasNoBrokenWalls(g, rows, cols);
    }
  }

  /** Dequeuing the cell at the head of the queue and marking it visited. */
  lemma PopStep(g0: seq<seq<Cell>>, g: seq<seq<Cell>>, rows: int, cols: int,
                queue: seq<Coord>, order: seq<Coord>, head: int,
                seen: set<Coord>, paths: map<Coord, seq<Coord>>,
                h: seq<seq<Cell>>, queue': seq<Coord>, head': int, seen': set<Coord>)
    requires Carving(g0, g, rows, cols, queue, order, head, seen, paths)
    requires Explored(rows, cols, order, head, seen)
    requires queue != [] && InGrid(g, queue[0])
    requires h == MarkVisited(g, queue[0]) && queue' == queue[1..] && head' == head + 1
    requires seen' == seen + {queue[0]}
    ensures Carving(g0, h, rows, cols, queue', order, head', seen', paths)
    ensures Explored(rows, cols, order, head, seen') && order[head] == queue[0]
  {
    var p := queue[0];
    MarkGrid(g, rows, cols, p);
    CarvedFromTrans(g0, g, h);
    PopQueue(rows, cols, queue, order, head, queue', head');
    PopSeen(g, h, rows, cols, order, head, seen, p);
    PopPaths(g, h, order, paths);
    ExploredMonotone(rows, cols, order, head, seen, seen');
    if Fresh(g0) {
      PopFresh(g, h, rows, cols, order, seen, p);
    }
  }

  /** Marking `p` visited: a carving step that marks exactly `p` and changes no wall. */
  lemma MarkGrid(g: seq<seq<Cell>>, rows: int, cols: int, p: Coord)
    requires Shape(g, rows, cols) && InBounds(rows, cols, p)
    ensures var h := MarkVisited(g, p);
      Shape(h, rows, cols) && CarvedFrom(g, h) &&
      BrokenWalls(h, rows, cols) == BrokenWalls(g, rows, cols) &&
      (forall o :: InBounds(rows, cols, o) ==> At(h, o).visited == (At(g, o).visited || o == p)) &&
      (forall o, s :: InBounds(rows, cols, o) ==> HasWall(At(h, o), s) == HasWall(At(g, o), s))
  {
    var h := MarkVisited(g, p);
    forall o, s | InGrid(g, o)
      ensures HasWall(At(h, o), s) == HasWall(At(g, o), s) && SameSquareAndColor(At(g, o), At(h, o))
    {
    }
    forall r: int, c: int | 0 <= r < rows && 0 <= c < cols
      ensures HasWall(At(h, (r, c)), Right) == HasWall(At(g, (r, c)), Right)
      ensures HasWall(At(h, (r, c)), Bottom) == HasWall(At(g, (r, c)), Bottom)
    {
    }
  }

  lemma PopQueue(rows: int, cols: int, queue: seq<Coord>, order: seq<Coord>, head: int,
                 queue': seq<Coord>, head': int)
    requires QueueOf(rows, cols, queue, order, head) && queue != []
    requires queue' == queue[1..] && head' == head + 1
    ensures QueueOf(rows, cols, queue', order, head') && order[head] == queue[0]
  {
  }

  lemma PopSeen(g: seq<seq<Cell>>, h: seq<seq<Cell>>, rows: int, cols: int,
                order: seq<Coord>, head: int, seen: set<Coord>, p: Coord)
    requires Shape(g, rows, cols) && Shape(h, rows, cols) && InBounds(rows, cols, p)
    requires 0 <= head < |order| && order[head] == p && order[0] == (0, 0)
    requires SeenMatches(g, rows, cols, order, head, seen)
    requires forall o :: InBounds(rows, cols, o) ==> At(h, o).visited == (At(g, o).visited || o == p)
    ensures SeenMatches(h, rows, cols, order, head + 1, seen + {p})
  {
  }

  lemma PopPaths(g: seq<seq<Cell>>, h: seq<seq<Cell>>, order: seq<Coord>, paths: map<Coord, seq<Coord>>)
    requires CarvedFrom(g, h) && PathsReach(g, order, paths)
    ensures PathsReach(h, order, paths)
  {
    forall k | 0 <= k < |order|
      ensures PathFromStart(h, paths[order[k]], order[k])
    {
      OpenPathSurvives(g, h, paths[order[k]]);
    }
  }

  lemma ExploredMonotone(rows: int, cols: int, order: seq<Coord>, done: int, seen: set<Coord>, seen': set<Coord>)
    requires 0 <= done <= |order| && Explored(rows, cols, order, done, seen) && seen <= seen'
    ensures Explored(rows, cols, order, done, seen')
  {
  }

  /** Marking an enqueued cell visited keeps the fresh-carve bookkeeping. */
  lemma PopFresh(g: seq<seq<Cell>>, h: seq<seq<Cell>>, rows: int, cols: int, order: seq<Coord>,
                 seen: set<Coord>, p: Coord)
    requires Shape(g, rows, cols) && Shape(h, rows, cols) && FreshCarving(g, rows, cols, order, seen)
    requires p in order
    requires BrokenWalls(h, rows, cols) == BrokenWalls(g, rows, cols)
    requires forall o, s :: InBounds(rows, cols, o) ==> HasWall(At(h, o), s) == HasWall(At(g, o), s)
    ensures FreshCarving(h, rows, cols, order, seen + {p})
  {
  }

  /** Finding the unvisited neighbour `q` of the cell `p` being processed: knock down
      the wall between them, mark `q` visited, enqueue it, and record the walk to it. */
  lemma DiscoverStep(g0: seq<seq<Cell>>, g: seq<seq<Cell>>, rows: int, cols: int,
                     queue: seq<Coord>, order: seq<Coord>, head: int,
                     seen: set<Coord>, paths: map<Coord, seq<Coord>>, p: Coord, q: Coord)
    requires Carving(g0, g, rows, cols, queue, order, head, seen, paths)
    requires 1 <= head && order[head - 1] == p
    requires Explored(rows, cols, order, head - 1, seen)
    requires InBounds(rows, cols, q) && Adjacent(p, q) && !At(g, q).visited
    ensures var h := MarkVisited(BrokenWall(g, p.0, p.1, q.0, q.1), q);
      Carving(g0, h, rows, cols, queue + [q], order + [q], head, seen + {q},
              paths[q := paths[p] + [q]]) &&
      Explored(rows, cols, order + [q], head - 1, seen + {q})
  {
    var h := MarkVisited(BrokenWall(g, p.0, p.1, q.0, q.1), q);
    UnvisitedNotEnqueued(g, rows, cols, order, head, seen, q);
    DiscoverGrid(g, rows, cols, p, q);
    CarvedFromTrans(g0, g, h);
    DiscoverQueue(rows, cols, queue, order, head, q);
    DiscoverSeen(g, h, rows, cols, order, head, seen, q);
    DiscoverPaths(g, h, order, paths, p, q);
    ExploredGrows(rows, cols, order, head - 1, seen, q);
    if Fresh(g0) {
      FreshAgrees(g0);
      DiscoverFresh(g, rows, cols, order, seen, p, q);
    }
  }

  /** A cell not yet visited has not been enqueued, once the top-left cell is dequeued. */
  lemma UnvisitedNotEnqueued(g: seq<seq<Cell>>, rows: int, cols: int, order: seq<Coord>, head: int,
                             seen: set<Coord>, q: Coord)
    requires Shape(g, rows, cols) && SeenMatches(g, rows, cols, order, head, seen)
    requires 1 <= head && InBounds(rows, cols, q) && !At(g, q).visited
    ensures q !in order && q !in seen
  {
  }

  /** What one discovery does to the grid: a carving step that leaves the wall between
      `p` and `q` open and marks exactly `q` visited. */
  lemma DiscoverGrid(g: seq<seq<Cell>>, rows: int, cols: int, p: Coord, q: Coord)
    requires Shape(g, rows, cols) && InBounds(rows, cols, p) && InBounds(rows, cols, q) && Adjacent(p, q)
    ensures var h := MarkVisited(BrokenWall(g, p.0, p.1, q.0, q.1), q);
      Shape(h, rows, cols) && CarvedFrom(g, h) && Open(h, p, q) &&
      (forall o :: InBounds(rows, cols, o) ==> At(h, o).visited == (At(g, o).visited || o == q))
  {
    var g1 := BrokenWall(g, p.0, p.1, q.0, q.1);
    var h := MarkVisited(g1, q);
    BreakCarves(g, p, q);
    MarkGrid(g1, rows, cols, q);
    CarvedFromTrans(g, g1, h);
    DiscoverOpens(g, rows, cols, p, q);
    DiscoverVisited(g, rows, cols, p, q);
  }

  lemma DiscoverOpens(g: seq<seq<Cell>>, rows: int, cols: int, p: Coord, q: Coord)
    requires Shape(g, rows, cols) && InBounds(rows, cols, p) && InBounds(rows, cols, q) && Adjacent(p, q)
    ensures Open(MarkVisited(BrokenWall(g, p.0, p.1, q.0, q.1), q), p, q)
  {
    var g1 := BrokenWall(g, p.0, p.1, q.0, q.1);
    var h := MarkVisited(g1, q);
    BreakCarves(g, p, q);
    MarkGrid(g1, rows, cols, q);
    BrokenWallEffects(g, p, q);
    assert HasWall(At(h, p), Direction(p, q)) == HasWall(At(g1, p), Direction(p, q));
    assert HasWall(At(h, q), Direction(q, p)) == HasWall(At(g1, q), Direction(q, p));
  }

  lemma DiscoverVisited(g: seq<seq<Cell>>, rows: int, cols: int, p: Coord, q: Coord)
    requires Shape(g, rows, cols) && InBounds(rows, cols, p) && InBounds(rows, cols, q)
    ensures var h := MarkVisited(BrokenWall(g, p.0, p.1, q.0, q.1), q);
      Shape(h, rows, cols) &&
      forall o :: InBounds(rows, cols, o) ==> At(h, o).visited == (At(g, o).visited || o == q)
  {
    BreakKeepsCells(g, p, q);
  }

  lemma DiscoverQueue(rows: int, cols: int, queue: seq<Coord>, order: seq<Coord>, head: int, q: Coord)
    requires QueueOf(rows, cols, queue, order, head) && InBounds(rows, cols, q) && q !in order
    ensures QueueOf(rows, cols, queue + [q], order + [q], head)
  {
    DistinctAppend(order, q);
    assert (order + [q])[head..] == order[head..] + [q];
  }

  lemma DiscoverSeen(g: seq<seq<Cell>>, h: seq<seq<Cell>>, rows: int, cols: int,
                     order: seq<Coord>, head: int, seen: set<Coord>, q: Coord)
    requires Shape(g, rows, cols) && Shape(h, rows, cols) && InBounds(rows, cols, q)
    requires SeenMatches(g, rows, cols, order, head, seen)
    requires forall o :: InBounds(rows, cols, o) ==> At(h, o).visited == (At(g, o).visited || o == q)
    ensures SeenMatches(h, rows, cols, order + [q], head, seen + {q})
  {
  }

  lemma DiscoverPaths(g: seq<seq<Cell>>, h: seq<seq<Cell>>, order: seq<Coord>,
                      paths: map<Coord, seq<Coord>>, p: Coord, q: Coord)
    requires CarvedFrom(g, h) && PathsReach(g, order, paths)
    requires p in order && q !in order && Open(h, p, q)
    ensures PathsReach(h, order + [q], paths[q := paths[p] + [q]])
  {
    var order', paths' := order + [q], paths[q := paths[p] + [q]];
    forall k | 0 <= k < |order|
      ensures PathFromStart(h, paths[order[k]], order[k])
    {
      OpenPathSurvives(g, h, paths[order[k]]);
    }
    var i :| 0 <= i < |order| && order[i] == p;
    ExtendOpenPath(h, paths[p], q);
    forall k | 0 <= k < |order'|
      ensures order'[k] in paths' && PathFromStart(h, paths'[order'[k]], order'[k])
    {
      if k < |order| {
        assert order'[k] == order[k] != q;
      }
    }
  }

  lemma ExploredGrows(rows: int, cols: int, order: seq<Coord>, done: int, seen: set<Coord>, q: Coord)
    requires 0 <= done <= |order| && Explored(rows, cols, order, done, seen)
    ensures Explored(rows, cols, order + [q], done, seen + {q})
  {
    forall k, s | 0 <= k < done && InBounds(rows, cols, Step((order + [q])[k], s))
      ensures Step((order + [q])[k], s) in seen + {q}
    {
      assert (order + [q])[k] == order[k];
    }
  }

  /** On a carve from a fresh grid, discovering `q` from `p` knocks down a wall that was
      standing, so the count of broken walls keeps pace with the enqueued cells. */
  lemma DiscoverFresh(g: seq<seq<Cell>>, rows: int, cols: int, order: seq<Coord>, seen: set<Coord>,
                      p: Coord, q: Coord)
    requires Shape(g, rows, cols) && FreshCarving(g, rows, cols, order, seen) && WallsAgree(g)
    requires InBounds(rows, cols, p) && InBounds(rows, cols, q) && Adjacent(p, q)
    requires p in seen && q !in seen && q !in order
    ensures var h := MarkVisited(BrokenWall(g, p.0, p.1, q.0, q.1), q);
      Shape(h, rows, cols) && FreshCarving(h, rows, cols, order + [q], seen + {q})
  {
    DiscoverCount(g, rows, cols, order, seen, p, q);
    DiscoverKeepsOthers(g, rows, cols, p, q);
  }

  /** The wall between `p` and an unvisited `q` was standing on both sides, so knocking it
      down adds exactly that wall to the broken ones. */
  lemma DiscoverCount(g: seq<seq<Cell>>, rows: int, cols: int, order: seq<Coord>, seen: set<Coord>,
                      p: Coord, q: Coord)
    requires Shape(g, rows, cols) && FreshCarving(g, rows, cols, order, seen) && WallsAgree(g)
    requires InBounds(rows, cols, p) && InBounds(rows, cols, q) && Adjacent(p, q) && q !in seen
    ensures var h := MarkVisited(BrokenWall(g, p.0, p.1, q.0, q.1), q);
      Shape(h, rows, cols) && |BrokenWalls(h, rows, cols)| == |BrokenWalls(g, rows, cols)| + 1
  {
    var g1 := BrokenWall(g, p.0, p.1, q.0, q.1);
    var d := Direction(p, q);
    StepAdjacent(p, d);
    assert Step(q, Direction(q, p)) == p;
    assert HasWall(At(g, q), Direction(q, p));
    assert HasWall(At(g, p), d);
    BrokenWallsGrow(g, rows, cols, p, q);
    MarkGrid(g1, rows, cols, q);
  }

  /** One discovery leaves the walls of every cell other than `p` and `q` as they were. */
  lemma DiscoverKeepsOthers(g: seq<seq<Cell>>, rows: int, cols: int, p: Coord, q: Coord)
    requires Shape(g, rows, cols) && InBounds(rows, cols, p) && InBounds(rows, cols, q)
    ensures var h := MarkVisited(BrokenWall(g, p.0, p.1, q.0, q.1), q);
      Shape(h, rows, cols) &&
      forall o, s :: InBounds(rows, cols, o) && o != p && o != q ==> HasWall(At(h, o), s) == HasWall(At(g, o), s)
  {
  }

  /** The cells of `ns`, in order, that lie in `g` and are not visited there: the
      neighbours the inner loop of `break_walls_bfs` enqueues. */
  function Unvisited(g: seq<seq<Cell>>, ns: seq<Coord>): (us: seq<Coord>)
    ensures forall q :: q in us <==> q in ns && InGrid(g, q) && !At(g, q).visited
    ensures |us| <= |ns|
  {
    if ns == [] then []
    else
      var q := ns[|ns| - 1];
      assert ns == ns[..|ns| - 1] + [q];
      Unvisited(g, ns[..|ns| - 1]) + (if InGrid(g, q) && !At(g, q).visited then [q] else [])
  }

  /** `g` after the inner loop of `break_walls_bfs` has, for each cell `q` of `us` in
      turn, knocked down the wall between `p` and `q` and marked `q` visited. */
  function Discovered(g: seq<seq<Cell>>, p: Coord, us: seq<Coord>): (h: seq<seq<Cell>>)
    requires InGrid(g, p) && forall q :: q in us ==> InGrid(g, q)
    ensures SameShape(g, h)
    decreases |us|
  {
    if us == [] then g
    else
      var q := us[|us| - 1];
      assert us == us[..|us| - 1] + [q];
      var h := Discovered(g, p, us[..|us| - 1]);
      assert InGrid(g, q);
      assert InGrid(h, q) && InGrid(h, p);
      MarkVisited(BrokenWall(h, p.0, p.1, q.0, q.1), q)
  }

  /** The inner loop marks exactly the discovered cells visited, and leaves every cell
      other than the dequeued one and the discovered ones as it was. */
  lemma {:induction false} DiscoveredCells(g: seq<seq<Cell>>, p: Coord, us: seq<Coord>)
    requires InGrid(g, p) && forall q :: q in us ==> InGrid(g, q)
    ensures var h := Discovered(g, p, us);
      (forall o :: InGrid(g, o) ==> At(h, o).visited == (At(g, o).visited || o in us)) &&
      (forall o :: InGrid(g, o) && o != p && o !in us ==> At(h, o) == At(g, o))
  {
    if us != [] {
      var t, q := us[..|us| - 1], us[|us| - 1];
      assert us == t + [q];
      DiscoveredCells(g, p, t);
      var h := Discovered(g, p, t);
      assert InGrid(g, q);
      BreakKeepsCells(h, p, q);
      var h1 := BrokenWall(h, p.0, p.1, q.0, q.1);
      forall o | InGrid(g, o)
        ensures At(MarkVisited(h1, q), o).visited == (At(g, o).visited || o in us)
        ensures o != p && o !in us ==> At(MarkVisited(h1, q), o) == At(g, o)
      {
        assert o in us <==> o in t || o == q;
      }
    }
  }

  /** Knocking down the wall between `p` and `q` marks no cell and changes no cell but
      those two. */
  lemma BreakKeepsCells(g: seq<seq<Cell>>, p: Coord, q: Coord)
    requires InGrid(g, p) && InGrid(g, q)
    ensures var h := BrokenWall(g, p.0, p.1, q.0, q.1);
      forall o :: InGrid(g, o) ==>
        At(h, o).visited == At(g, o).visited && (o != p && o != q ==> At(h, o) == At(g, o))
  {
    var h := BrokenWall(g, p.0, p.1, q.0, q.1);
    forall o | InGrid(g, o)
      ensures At(h, o).visited == At(g, o).visited
      ensures o != p && o != q ==> At(h, o) == At(g, o)
    {
      if Adjacent(p, q) && (o == p || o == q) {
        assert o == p ==> At(h, o) == ClearWall(At(g, p), Direction(p, q));
      }
    }
  }

  /** Looking at the `i`-th cell of `ns` adds it to the cells found exactly when it is
      in the grid and unvisited. */
  lemma UnvisitedSnoc(g: seq<seq<Cell>>, ns: seq<Coord>, i: int)
    requires 0 <= i < |ns|
    ensures var q := ns[i];
      Unvisited(g, ns[..i + 1]) == Unvisited(g, ns[..i]) + (if InGrid(g, q) && !At(g, q).visited then [q] else [])
  {
    assert ns[..i + 1][..i] == ns[..i];
  }

  /** In a list without repeats, the `i`-th cell is not among those found before it. */
  lemma NotFoundYet(g: seq<seq<Cell>>, ns: seq<Coord>, i: int)
    requires Distinct(ns) && 0 <= i < |ns|
    ensures ns[i] !in Unvisited(g, ns[..i])
  {
  }

  /** Discovering one more cell is one more break and one more mark. */
  lemma DiscoveredSnoc(g: seq<seq<Cell>>, p: Coord, us: seq<Coord>, q: Coord)
    requires InGrid(g, p) && InGrid(g, q) && forall o :: o in us ==> InGrid(g, o)
    ensures forall o :: o in us + [q] ==> InGrid(g, o)
    ensures Discovered(g, p, us + [q]) == MarkVisited(BrokenWall(Discovered(g, p, us), p.0, p.1, q.0, q.1), q)
  {
    assert (us + [q])[..|us|] == us;
  }

  /** The inner loop of `break_walls_bfs` after looking at the first `i` cells of `ns`,
      started on grid `g` with the queue `queue0` and the enqueue log `order0`: the cells
      it found are appended to both, and the grid is the one `Discovered` gives. */
  ghost predicate InnerLoop(g: seq<seq<Cell>>, p: Coord, ns: seq<Coord>, i: int,
                            queue0: seq<Coord>, order0: seq<Coord>,
                            queue: seq<Coord>, order: seq<Coord>, h: seq<seq<Cell>>)
    requires InGrid(g, p) && 0 <= i <= |ns|
  {
    var found := Unvisited(g, ns[..i]);
    queue == queue0 + found && order == order0 + found && h == Discovered(g, p, found)
  }

  /** Everything the inner loop keeps after looking at the first `i` neighbours `ns` of
      the dequeued cell `p`, started on grid `g` with `queue0`, `order0` and `seen0`: the
      carve's bookkeeping holds for the current state (grid `h`), `p` is the last cell
      dequeued, every earlier dequeued cell is explored, the first `i` neighbours are
      visited, the measure of work left has not grown, and the state is the one
      `InnerLoop` gives. */
  ghost predicate Visiting(g0: seq<seq<Cell>>, g: seq<seq<Cell>>, rows: int, cols: int, p: Coord,
                           ns: seq<Coord>, i: int, queue0: seq<Coord>, order0: seq<Coord>,
                           seen0: set<Coord>, all: set<Coord>, h: seq<seq<Cell>>,
                           queue: seq<Coord>, order: seq<Coord>, head: int,
                           seen: set<Coord>, paths: map<Coord, seq<Coord>>)
    requires InGrid(g, p) && 0 <= i <= |ns|
  {
    Carving(g0, h, rows, cols, queue, order, head, seen, paths) &&
    1 <= head <= |order| && order[head - 1] == p &&
    Explored(rows, cols, order, head - 1, seen) &&
    PrefixSeen(ns, i, seen) &&
    2 * |all - seen| + |queue| <= 2 * |all - seen0| + |queue0| &&
    InnerLoop(g, p, ns, i, queue0, order0, queue, order, h)
  }

  /** Before the inner loop looks at any neighbour, `Visiting` holds of the state on entry. */
  lemma VisitingStart(g0: seq<seq<Cell>>, g: seq<seq<Cell>>, rows: int, cols: int, p: Coord,
                      ns: seq<Coord>, queue0: seq<Coord>, order0: seq<Coord>, head: int,
                      seen0: set<Coord>, paths0: map<Coord, seq<Coord>>, all: set<Coord>)
    requires Carving(g0, g, rows, cols, queue0, order0, head, seen0, paths0)
    requires 1 <= head <= |order0| && order0[head - 1] == p && InGrid(g, p)
    requires Explored(rows, cols, order0, head - 1, seen0)
    ensures Visiting(g0, g, rows, cols, p, ns, 0, queue0, order0, seen0, all,
                     g, queue0, order0, head, seen0, paths0)
  {
    assert ns[..0] == [];
    assert queue0 + [] == queue0 && order0 + [] == order0;
  }

  /** Once the inner loop has looked at every neighbour of `p`, the queue, the enqueue log
      and the grid are those `Unvisited` and `Discovered` give, the bookkeeping holds, and
      `p` is explored. */
  lemma VisitingDone(g0: seq<seq<Cell>>, g: seq<seq<Cell>>, rows: int, cols: int, p: Coord,
                     ns: seq<Coord>, queue0: seq<Coord>, order0: seq<Coord>,
                     seen0: set<Coord>, all: set<Coord>, h: seq<seq<Cell>>,
                     queue: seq<Coord>, order: seq<Coord>, head: int,
                     seen: set<Coord>, paths: map<Coord, seq<Coord>>)
    requires InGrid(g, p)
    requires multiset(ns) == multiset(Neighbors(rows, cols, p.0, p.1))
    requires Visiting(g0, g, rows, cols, p, ns, |ns|, queue0, order0, seen0, all,
                      h, queue, order, head, seen, paths)
    ensures Carving(g0, h, rows, cols, queue, order, head, seen, paths)
    ensures Explored(rows, cols, order, head, seen)
    ensures 2 * |all - seen| + |queue| <= 2 * |all - seen0| + |queue0|
    ensures order == order0 + Unvisited(g, ns)
    ensures queue == queue0 + Unvisited(g, ns)
    ensures h == Discovered(g, p, Unvisited(g, ns))
  {
    assert ns[..|ns|] == ns;
    NeighborsDone(rows, cols, order, head, seen, ns);
  }

  /** The next neighbour is visited in the current grid exactly when it was on entry. */
  lemma InnerLoopVisited(g: seq<seq<Cell>>, p: Coord, ns: seq<Coord>, i: int,
                         queue0: seq<Coord>, order0: seq<Coord>,
                         queue: seq<Coord>, order: seq<Coord>, h: seq<seq<Cell>>)
    requires InGrid(g, p) && Distinct(ns) && 0 <= i < |ns| && InGrid(g, ns[i])
    requires InnerLoop(g, p, ns, i, queue0, order0, queue, order, h)
    ensures InGrid(h, ns[i]) && At(h, ns[i]).visited == At(g, ns[i]).visited
  {
    NotFoundYet(g, ns, i);
    DiscoveredCells(g, p, Unvisited(g, ns[..i]));
  }

  /** Passing over a neighbour that was visited on entry. */
  lemma InnerLoopSkip(g: seq<seq<Cell>>, p: Coord, ns: seq<Coord>, i: int,
                      queue0: seq<Coord>, order0: seq<Coord>,
                      queue: seq<Coord>, order: seq<Coord>, h: seq<seq<Cell>>)
    requires InGrid(g, p) && 0 <= i < |ns| && InGrid(g, ns[i]) && At(g, ns[i]).visited
    requires InnerLoop(g, p, ns, i, queue0, order0, queue, order, h)
    ensures InnerLoop(g, p, ns, i + 1, queue0, order0, queue, order, h)
  {
    var found := Unvisited(g, ns[..i]);
    UnvisitedSnoc(g, ns, i);
    assert Unvisited(g, ns[..i + 1]) == found + [];
    assert found + [] == found;
  }

  /** Finding a neighbour that was unvisited on entry: knock down the wall to it, mark
      it visited and append it to the queue and the log. */
  lemma InnerLoopFind(g: seq<seq<Cell>>, p: Coord, ns: seq<Coord>, i: int,
                      queue0: seq<Coord>, order0: seq<Coord>,
                      queue: seq<Coord>, order: seq<Coord>, h: seq<seq<Cell>>,
                      queue': seq<Coord>, order': seq<Coord>, h': seq<seq<Cell>>)
    requires InGrid(g, p) && 0 <= i < |ns| && InGrid(g, ns[i]) && !At(g, ns[i]).visited
    requires InnerLoop(g, p, ns, i, queue0, order0, queue, order, h)
    requires queue' == queue + [ns[i]] && order' == order + [ns[i]]
    requires InGrid(h, ns[i]) && h' == MarkVisited(BrokenWall(h, p.0, p.1, ns[i].0, ns[i].1), ns[i])
    ensures InnerLoop(g, p, ns, i + 1, queue0, order0, queue', order', h')
  {
    var found := Unvisited(g, ns[..i]);
    UnvisitedSnoc(g, ns, i);
    DiscoveredSnoc(g, p, found, ns[i]);
    AppendAssoc(queue0, found, [ns[i]]);
    AppendAssoc(order0, found, [ns[i]]);
  }

  lemma AppendAssoc<T>(a: seq<T>, b: seq<T>, c: seq<T>)
    ensures (a + b) + c == a + (b + c)
  {
  }

  /** Two sequences holding the same elements, counted with multiplicity: if one has no
      repeats, neither has the other. */
  lemma PermutationDistinct<T>(a: seq<T>, b: seq<T>)
    requires multiset(a) == multiset(b) && Distinct(b)
    ensures Distinct(a)
  {
    forall i, j | 0 <= i < j < |a|
      ensures a[i] != a[j]
    {
      CountAtMostOnce(b, a[i]);
      CountPair(a, i, j);
    }
  }

  lemma CountPair<T>(a: seq<T>, i: int, j: int)
    requires 0 <= i < j < |a|
    ensures multiset(a)[a[i]] >= 1 + (if a[j] == a[i] then 1 else 0)
  {
    assert a == a[..i] + [a[i]] + a[i + 1..j] + [a[j]] + a[j + 1..];
  }

  lemma {:induction false} CountAtMostOnce<T>(b: seq<T>, x: T)
    requires Distinct(b)
    ensures multiset(b)[x] <= 1
  {
    if b != [] {
      var t := b[..|b| - 1];
      assert b == t + [b[|b| - 1]];
      assert Distinct(t);
      CountAtMostOnce(t, x);
      if b[|b| - 1] == x {
        assert x !in t;
      }
    }
  }

  /** A shuffled neighbour list has no repeats and names in-bounds neighbours only. */
  lemma ShuffledNeighbors(rows: int, cols: int, p: Coord, neighbors: seq<Coord>)
    requires InBounds(rows, cols, p)
    requires multiset(neighbors) == multiset(Neighbors(rows, cols, p.0, p.1))
    ensures Distinct(neighbors)
    ensures forall q :: q in neighbors ==> InBounds(rows, cols, q) && Adjacent(p, q)
  {
    var ns := Neighbors(rows, cols, p.0, p.1);
    assert Distinct(ns) by {
      forall i, j | 0 <= i < j < |ns|
        ensures ns[i] != ns[j]
      {
        assert Rank(Direction(p, ns[i])) < Rank(Direction(p, ns[j]));
      }
    }
    PermutationDistinct(neighbors, ns);
    forall q | q in neighbors
      ensures InBounds(rows, cols, q) && Adjacent(p, q)
    {
      assert q in multiset(ns);
    }
  }

  /** The first `i` cells of `ns` are all in `seen`. */
  ghost predicate PrefixSeen(ns: seq<Coord>, i: int, seen: set<Coord>)
  {
    forall j :: 0 <= j < i && j < |ns| ==> ns[j] in seen
  }

  lemma PrefixSeenStep(ns: seq<Coord>, i: int, seen: set<Coord>, seen': set<Coord>)
    requires 0 <= i < |ns| && PrefixSeen(ns, i, seen) && seen <= seen' && ns[i] in seen'
    ensures PrefixSeen(ns, i + 1, seen')
  {
  }

  /** A visited cell of a carve in progress is in `seen`. */
  lemma VisitedSeen(g: seq<seq<Cell>>, rows: int, cols: int, order: seq<Coord>, head: int,
                    seen: set<Coord>, q: Coord)
    requires Shape(g, rows, cols) && SeenMatches(g, rows, cols, order, head, seen)
    requires InBounds(rows, cols, q) && At(g, q).visited
    ensures q in seen
  {
  }

  /** After every neighbour of the dequeued cell has been looked at, that cell is explored. */
  lemma NeighborsDone(rows: int, cols: int, order: seq<Coord>, head: int, seen: set<Coord>,
                      neighbors: seq<Coord>)
    requires 1 <= head <= |order| && InBounds(rows, cols, order[head - 1])
    requires Explored(rows, cols, order, head - 1, seen)
    requires multiset(neighbors) == multiset(Neighbors(rows, cols, order[head - 1].0, order[head - 1].1))
    requires PrefixSeen(neighbors, |neighbors|, seen)
    ensures Explored(rows, cols, order, head, seen)
  {
    var p := order[head - 1];
    forall s | InBounds(rows, cols, Step(p, s))
      ensures Step(p, s) in seen
    {
      StepAdjacent(p, s);
      assert Step(p, s) in Neighbors(rows, cols, p.0, p.1);
      assert Step(p, s) in multiset(neighbors);
    }
  }

  /** When the queue runs dry on a carve that started from a fresh grid, every cell has
      been visited and enqueued exactly once, rows * cols - 1 walls have come down, and
      an open walk leads from the top-left cell to every cell. */
  lemma CarveComplete(g0: seq<seq<Cell>>, g: seq<seq<Cell>>, rows: int, cols: int, queue: seq<Coord>,
                      order: seq<Coord>, head: int, seen: set<Coord>, paths: map<Coord, seq<Coord>>)
    requires Carving(g0, g, rows, cols, queue, order, head, seen, paths)
    requires Explored(rows, cols, order, head, seen)
    requires queue == []
    ensures CarvedFrom(g0, g)
    ensures Distinct(order) && forall k :: 0 <= k < |order| ==> InGrid(g, order[k])
    ensures Fresh(g0) ==>
              (forall p :: InGrid(g, p) ==> At(g, p).visited) &&
              Elems(order) == AllCoords(rows, cols) && |order| == rows * cols &&
              |BrokenWalls(g, rows, cols)| == rows * cols - 1 &&
              forall p :: InGrid(g, p) ==> exists path :: PathFromStart(g, path, p)
  {
    assert head == |order|;
    if Fresh(g0) {
      assert rows > 0 && cols > 0 by {
        assert InBounds(rows, cols, order[0]);
      }
      AllSeen(rows, cols, order, seen);
      AllEnqueued(rows, cols, order, seen);
      DistinctCard(order);
      AllCoordsCard(rows, cols);
      AllVisited(g, rows, cols, order, seen);
      AllReached(g, rows, cols, order, paths);
    }
  }

  /** Once every enqueued cell is explored, the visited cells are closed under stepping to
      a neighbour, so they cover the grid. */
  lemma AllSeen(rows: int, cols: int, order: seq<Coord>, seen: set<Coord>)
    requires |order| > 0 && order[0] == (0, 0) && (0, 0) in seen
    requires forall p :: p in seen ==> p in order
    requires Explored(rows, cols, order, |order|, seen)
    ensures forall p :: InBounds(rows, cols, p) ==> p in seen
  {
    forall p, s | p in seen && InBounds(rows, cols, Step(p, s))
      ensures Step(p, s) in seen
    {
      var k :| 0 <= k < |order| && order[k] == p;
    }
    ClosedSetCoversGrid(rows, cols, seen);
  }

  lemma AllEnqueued(rows: int, cols: int, order: seq<Coord>, seen: set<Coord>)
    requires forall p :: p in seen ==> p in order
    requires forall k :: 0 <= k < |order| ==> InBounds(rows, cols, order[k])
    requires forall p :: InBounds(rows, cols, p) ==> p in seen
    ensures Elems(order) == AllCoords(rows, cols)
  {
  }

  lemma AllVisited(g: seq<seq<Cell>>, rows: int, cols: int, order: seq<Coord>, seen: set<Coord>)
    requires Shape(g, rows, cols) && SeenMatches(g, rows, cols, order, |order|, seen)
    requires forall p :: InBounds(rows, cols, p) ==> p in seen
    ensures forall p :: InGrid(g, p) ==> At(g, p).visited
  {
  }

  lemma AllReached(g: seq<seq<Cell>>, rows: int, cols: int, order: seq<Coord>, paths: map<Coord, seq<Coord>>)
    requires Shape(g, rows, cols) && PathsReach(g, order, paths)
    requires forall p :: InBounds(rows, cols, p) ==> p in order
    ensures forall p :: InGrid(g, p) ==> exists path :: PathFromStart(g, path, p)
  {
    forall p | InGrid(g, p)
      ensures exists path :: PathFromStart(g, path, p)
    {
      assert InBounds(rows, cols, p) && p in order;
      var k :| 0 <= k < |order| && order[k] == p;
      assert PathFromStart(g, paths[order[k]], p);
    }
  }
}
