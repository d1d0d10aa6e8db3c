/**
  The maze abstraction both solvers share: a rectangular grid of characters
  ('S' start, 'E' end, '#' wall, '.' open), (row, column) coordinates, the
  four moves Right, Left, Down, Up in that fixed order, the bounds and wall
  checks, and the row-major scan that locates the start and end cells.
 */
module Grid {
  import opened Wrappers

  /** A cell coordinate, the source's `(r, c)` tuple. */
  datatype Pos = Pos(r: int, c: int)

  /** The maze as a list of rows of characters. */
  type Maze = seq<seq<char>>

  const StartMark := 'S'
  const EndMark := 'E'
  const WallMark := '#'

  /**
    The column count is taken from the length of the first row and the other
    rows are never checked, so a usable maze has at least one row and rows of
    equal length.
   */
  predicate Rectangular(m: Maze) {
    |m| > 0 && forall i :: 0 <= i < |m| ==> |m[i]| == |m[0]|
  }

  /** Both coordinates lie within the grid: the row below the row count, the column below the column count. */
  predicate InBounds(m: Maze, p: Pos) {
    0 <= p.r < |m| && 0 <= p.c < |m[0]|
  }

  function At(m: Maze, p: Pos): char
    requires Rectangular(m) && InBounds(m, p)
  {
    m[p.r][p.c]
  }

  /** In bounds and not a wall: the cells a move may enter. */
  predicate Passable(m: Maze, p: Pos)
    requires Rectangular(m)
  {
    InBounds(m, p) && At(m, p) != WallMark
  }

  /** The cell exists and holds 'E'. */
  predicate IsEnd(m: Maze, p: Pos)
    requires Rectangular(m)
  {
    InBounds(m, p) && At(m, p) == EndMark
  }

  // ---------------------------------------------------------------------------
  // Moves

  /** An index into the move table: 0 Right, 1 Left, 2 Down, 3 Up. */
  type Action = k: nat | k < 4

  /** The row and column offsets of the four moves, in the order Right, Left, Down, Up. */
  const Deltas: seq<(int, int)> := [(0, 1), (0, -1), (1, 0), (-1, 0)]

  /** The cell that move `a` leads to from `p`, whether or not it exists. */
  function Step(p: Pos, a: Action): Pos {
    Pos(p.r + Deltas[a].0, p.c + Deltas[a].1)
  }

  /** Four-neighbours: cells at Manhattan distance one. */
  predicate Adjacent(p: Pos, q: Pos) {
    (p.r == q.r && (p.c - q.c == 1 || q.c - p.c == 1)) ||
    (p.c == q.c && (p.r - q.r == 1 || q.r - p.r == 1))
  }

  /** The four moves reach exactly the four-neighbours, each by one move. */
  lemma StepsAreNeighbours(p: Pos, q: Pos)
    ensures Adjacent(p, q) <==> exists a: Action :: Step(p, a) == q
  {
    if Adjacent(p, q) {
      var a: Action :=
        if q.c == p.c + 1 then 0 else if q.c == p.c - 1 then 1
        else if q.r == p.r + 1 then 2 else 3;
      assert Step(p, a) == q;
    }
  }

  /** Distinct moves lead to distinct cells. */
  lemma StepsDistinct(p: Pos, a: Action, b: Action)
    ensures Step(p, a) == Step(p, b) <==> a == b
  {
  }

  // ---------------------------------------------------------------------------
  // Walks and paths

  /** A sequence of passable cells, each a four-neighbour of the one before. */
  ghost predicate IsWalk(m: Maze, p: seq<Pos>)
    requires Rectangular(m)
  {
    (forall i :: 0 <= i < |p| ==> Passable(m, p[i])) &&
    (forall i :: 0 <= i < |p| - 1 ==> Adjacent(p[i], p[i + 1]))
  }

  /** A walk from `s` to `e`, both ends included. */
  ghost predicate IsPath(m: Maze, p: seq<Pos>, s: Pos, e: Pos)
    requires Rectangular(m)
  {
    |p| > 0 && p[0] == s && p[|p| - 1] == e && IsWalk(m, p)
  }

  function Elems<T>(s: seq<T>): set<T> {
    set x | x in s
  }

  // ---------------------------------------------------------------------------
  // The set of all cells, and its size

  ghost function Cells(m: Maze): set<Pos>
    requires Rectangular(m)
  {
    Block(|m|, |m[0]|)
  }

  ghost function Block(rows: nat, cols: nat): set<Pos> {
    set r: int, c: int | 0 <= r < rows && 0 <= c < cols :: Pos(r, c)
  }

  ghost function RowOf(r: int, cols: nat): set<Pos> {
    set c: int | 0 <= c < cols :: Pos(r, c)
  }

  lemma {:induction false} RowOfSize(r: int, cols: nat)
    ensures |RowOf(r, cols)| == cols
  {
    if cols == 0 {
      assert RowOf(r, cols) == {};
    } else {
      RowOfSize(r, cols - 1);
      assert RowOf(r, cols) == RowOf(r, cols - 1) + {Pos(r, cols - 1)};
    }
  }

  lemma {:induction false} BlockSize(rows: nat, cols: nat)
    ensures |Block(rows, cols)| == rows * cols
  {
    if rows == 0 {
      assert Block(rows, cols) == {};
    } else {
      BlockSize(rows - 1, cols);
      RowOfSize(rows - 1, cols);
      assert Block(rows, cols) == Block(rows - 1, cols) + RowOf(rows - 1, cols);
      assert Block(rows - 1, cols) !! RowOf(rows - 1, cols);
      assert (rows - 1) * cols + cols == rows * cols;
    }
  }

  /** A maze has exactly rows * cols cells, and every passable cell is one of them. */
  lemma CellsSize(m: Maze)
    requires Rectangular(m)
    ensures |Cells(m)| == |m| * |m[0]|
    ensures forall p :: Passable(m, p) ==> p in Cells(m)
  {
    BlockSize(|m|, |m[0]|);
    forall p | Passable(m, p) ensures p in Cells(m) {
      assert p == Pos(p.r, p.c);
    }
  }

  /** A subset of a finite set is no larger than it. */
  lemma SubsetSize<T>(a: set<T>, b: set<T>)
    requires a <= b
    ensures |a| <= |b|
  {
    assert b == a + (b - a);
  }

  // ---------------------------------------------------------------------------
  // Locating the start and the end (bfs.py:13-27, q.py:24-34)

  /** Strict row-major order: the order in which the nested scan visits cells. */
  predicate Before(p: Pos, q: Pos) {
    p.r < q.r || (p.r == q.r && p.c < q.c)
  }

  /**
    Among the cells scanned before `bound`, `o` is the last one holding `ch`,
    or None when none of them does.
   */
  ghost predicate LastBefore(m: Maze, ch: char, o: Option<Pos>, bound: Pos)
    requires Rectangular(m)
  {
    match o
    case None =>
      forall q :: InBounds(m, q) && Before(q, bound) ==> At(m, q) != ch
    case Some(p) =>
      InBounds(m, p) && Before(p, bound) && At(m, p) == ch &&
      forall q :: InBounds(m, q) && Before(q, bound) && At(m, q) == ch ==> !Before(p, q)
  }

  /** `o` is the last cell of the whole maze, in row-major order, that holds `ch`; None when no cell does. */
  ghost predicate LastOccurrence(m: Maze, ch: char, o: Option<Pos>)
    requires Rectangular(m)
  {
    LastBefore(m, ch, o, Pos(|m|, 0))
  }

  /**
    The scan of bfs.py:19-24 / q.py:26-31: every cell in row-major order,
    remembering the latest 'S' and the latest 'E'.
   */
  method FindEndpoints(m: Maze) returns (start: Option<Pos>, end: Option<Pos>)
    requires Rectangular(m)
    ensures LastOccurrence(m, StartMark, start)
    ensures LastOccurrence(m, EndMark, end)
  {
    start, end := None, None;
    var rows, cols := |m|, |m[0]|;
    for r := 0 to rows
      invariant LastBefore(m, StartMark, start, Pos(r, 0))
      invariant LastBefore(m, EndMark, end, Pos(r, 0))
    {
      for c := 0 to cols
        invariant LastBefore(m, StartMark, start, Pos(r, c))
        invariant LastBefore(m, EndMark, end, Pos(r, c))
      {
        ScanCell(m, StartMark, start, r, c);
        ScanCell(m, EndMark, end, r, c);
        if m[r][c] == StartMark {
          start := Some(Pos(r, c));
        } else if m[r][c] == EndMark {
          end := Some(Pos(r, c));
        }
      }
      ScanRow(m, StartMark, start, r);
      ScanRow(m, EndMark, end, r);
    }
  }

  /** Scanning cell (r, c) makes it the latest occurrence when it holds `ch`, and changes nothing otherwise. */
  lemma ScanCell(m: Maze, ch: char, o: Option<Pos>, r: nat, c: nat)
    requires Rectangular(m) && r < |m| && c < |m[0]| && LastBefore(m, ch, o, Pos(r, c))
    ensures m[r][c] == ch ==> LastBefore(m, ch, Some(Pos(r, c)), Pos(r, c + 1))
    ensures m[r][c] != ch ==> LastBefore(m, ch, o, Pos(r, c + 1))
  {
  }

  /** Past the last column of row r, the scan has covered exactly the rows up to r. */
  lemma ScanRow(m: Maze, ch: char, o: Option<Pos>, r: nat)
    requires Rectangular(m) && r < |m| && LastBefore(m, ch, o, Pos(r, |m[0]|))
    ensures LastBefore(m, ch, o, Pos(r + 1, 0))
  {
  }

  /** The scan's answer is determined: two last occurrences are the same cell. */
  lemma LastOccurrenceUnique(m: Maze, ch: char, o1: Option<Pos>, o2: Option<Pos>)
    requires Rectangular(m)
    requires LastOccurrence(m, ch, o1) && LastOccurrence(m, ch, o2)
    ensures o1 == o2
  {
  }
}
