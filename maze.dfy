/** The maze: a grid of characters, 'X' for a wall and ' ' for a path, with tiles
    20 pixels on a side. Every query treats a position outside the grid as wall. */
module Maze {
  import opened JavaInt
  import opened Awt

  /** Edge of one tile in pixels (the source comment says 32; the field holds 20). */
  const TileSize: int := 20

  const GameRows: nat := 40
  const GameCols: nat := 60

  /** The layout's top and bottom rows: wall all along. */
  const BorderRow: string := seq(GameCols, _ => 'X')

  /** Every other row: wall at both ends, path in between. */
  const InnerRow: string := ['X'] + seq(GameCols - 2, _ => ' ') + ['X']

  /** The game's 40 rows of 60 characters, exactly as listed in `Maze.mazeData`. */
  const MazeData: seq<string> := [BorderRow] + seq(GameRows - 2, _ => InnerRow) + [BorderRow]

  /** The number of rows (`getRows`, which the game calls but `Maze` does not define). */
  function Rows(grid: seq<string>): nat {
    |grid|
  }

  /** The number of columns (`getCols`, likewise missing): the length of the first row. */
  function Cols(grid: seq<string>): nat {
    if grid == [] then 0 else |grid[0]|
  }

  /** Every row as long as the first. */
  predicate Rectangular(grid: seq<string>) {
    forall r | 0 <= r < |grid| :: |grid[r]| == Cols(grid)
  }

  /** A tile index the row it names has a character for. */
  predicate InBounds(grid: seq<string>, row: int, col: int) {
    0 <= row < |grid| && 0 <= col < |grid[row]|
  }

  /** `isWallTile(row, col)`: out of bounds is wall; inside, exactly the 'X' cells. */
  function IsWallTile(grid: seq<string>, row: int, col: int): (wall: bool)
    ensures !InBounds(grid, row, col) ==> wall
    ensures InBounds(grid, row, col) ==> (wall <==> grid[row][col] == 'X')
  {
    if row < 0 || col < 0 || row >= |grid| || col >= |grid[row]| then true
    else grid[row][col] == 'X'
  }

  /** `isWall(x, y)` on pixels, with Java's truncating `/`. Non-negative pixels fall in the
      tile their floor names; a pixel at or beyond -20 on either axis is outside, hence wall. */
  function IsWall(grid: seq<string>, x: int, y: int): (wall: bool)
    ensures x >= 0 && y >= 0 ==> wall == IsWallTile(grid, y / TileSize, x / TileSize)
    ensures x <= -TileSize || y <= -TileSize ==> wall
  {
    IsWallTile(grid, Div(y, TileSize), Div(x, TileSize))
  }

  /** Truncation sends the 19 pixels left of (or above) the grid to tile 0 rather than
      outside: the closed-world default only starts at -20. */
  lemma {:induction false} NegativeSliverIsTileZero(grid: seq<string>, x: int, y: int)
    requires -TileSize < x < 0 && 0 <= y
    ensures IsWall(grid, x, y) == IsWall(grid, 0, y)
    ensures IsWall(grid, y, x) == IsWall(grid, y, 0)
  {
    assert Div(x, TileSize) == 0;
  }

  /** The game's layout: 40 rows of 60 characters, 'X' on the border and ' ' inside. */
  lemma MazeDataShape()
    ensures |MazeData| == GameRows && Rectangular(MazeData) && Cols(MazeData) == GameCols
    ensures forall r, c | 0 <= r < GameRows && 0 <= c < GameCols ::
      MazeData[r][c] == if r == 0 || r == GameRows - 1 || c == 0 || c == GameCols - 1 then 'X' else ' '
  {
    forall r | 0 <= r < GameRows ensures MazeData[r] == if r == 0 || r == GameRows - 1 then BorderRow else InnerRow {
    }
  }

  /** On the game's layout a tile is wall exactly on the border or outside the grid. */
  lemma {:induction false} GameWallTiles(row: int, col: int)
    ensures IsWallTile(MazeData, row, col) <==> row <= 0 || row >= GameRows - 1 || col <= 0 || col >= GameCols - 1
  {
    MazeDataShape();
  }

  /** `isWall(a, b)` called with tile indices, as Grave and Soul do: the indices are read
      as pixels, so on the game's layout every index below 20 lands on the border. */
  lemma {:induction false} SwappedCallOnGameMaze(a: int, b: int)
    requires 0 <= a && 0 <= b
    ensures IsWall(MazeData, a, b) <==> a < TileSize || b < TileSize || a >= (GameCols - 1) * TileSize || b >= (GameRows - 1) * TileSize
  {
    GameWallTiles(b / TileSize, a / TileSize);
  }

  // ------------------------------------------------------------ scanning the cells

  /** `p` is the pixel corner `(c * 20, r * 20)` of a cell holding `ch`, with r < m and
      c < n (the bounds of a scan still in progress). */
  predicate IsCornerWithin(grid: seq<string>, ch: char, p: Point, m: int, n: int) {
    p.x >= 0 && p.y >= 0 && p.x % TileSize == 0 && p.y % TileSize == 0 &&
    p.y / TileSize < m && p.x / TileSize < n &&
    InBounds(grid, p.y / TileSize, p.x / TileSize) && grid[p.y / TileSize][p.x / TileSize] == ch
  }

  /** A pixel corner of a cell holding `ch` anywhere in the grid. */
  predicate IsCorner(grid: seq<string>, ch: char, p: Point) {
    p.x >= 0 && p.y >= 0 && p.x % TileSize == 0 && p.y % TileSize == 0 &&
    InBounds(grid, p.y / TileSize, p.x / TileSize) && grid[p.y / TileSize][p.x / TileSize] == ch
  }

  /** The corners of the cells of row r among its first n characters that hold `ch`,
      left to right. */
  function RowCorners(grid: seq<string>, ch: char, r: nat, n: nat): (ps: seq<Point>)
    requires r < |grid| && n <= |grid[r]|
    ensures forall p :: p in ps <==> p.y == r * TileSize && IsCornerWithin(grid, ch, p, r + 1, n)
  {
    if n == 0 then []
    else
      var c := n - 1;
      var rest := RowCorners(grid, ch, r, c);
      assert Point(c * TileSize, r * TileSize).x / TileSize == c;
      rest + (if grid[r][c] == ch then [Point(c * TileSize, r * TileSize)] else [])
  }

  /** Strictly increasing in x. */
  predicate LeftToRight(ps: seq<Point>) {
    forall i, j | 0 <= i < j < |ps| :: ps[i].x < ps[j].x
  }

  /** A row's corners come left to right, so none repeats. */
  lemma {:induction false} RowCornersLeftToRight(grid: seq<string>, ch: char, r: nat, n: nat)
    requires r < |grid| && n <= |grid[r]|
    ensures LeftToRight(RowCorners(grid, ch, r, n))
  {
    if n > 0 {
      var c := n - 1;
      var rest := RowCorners(grid, ch, r, c);
      RowCornersLeftToRight(grid, ch, r, c);
      forall i | 0 <= i < |rest| ensures rest[i].x < c * TileSize {
        assert rest[i] in rest;
        LeftOfColumn(rest[i].x, c);
      }
      var ps := RowCorners(grid, ch, r, n);
      assert ps == rest + (if grid[r][c] == ch then [Point(c * TileSize, r * TileSize)] else []);
      forall i, j | 0 <= i < j < |ps| ensures ps[i].x < ps[j].x {
        assert ps[i] == rest[i];
        if j == |rest| {
          assert rest[i].x < c * TileSize;
          assert ps[j].x == c * TileSize;
        } else {
          assert ps[j] == rest[j];
        }
      }
    }
  }

  /** A multiple of the tile size in a column left of `c` lies left of that column. */
  lemma LeftOfColumn(x: int, c: nat)
    requires x >= 0 && x % TileSize == 0 && x / TileSize < c
    ensures x < c * TileSize
  {
  }

  /** The corners of the cells holding `ch` in the first m rows, row by row, each row left
      to right: the order in which Grave and Soul collect their candidates. */
  function CornersBefore(grid: seq<string>, ch: char, m: nat): (ps: seq<Point>)
    requires m <= |grid|
    ensures forall p :: p in ps <==> IsCornerWithin(grid, ch, p, m, p.x / TileSize + 1)
    ensures forall i | 0 <= i < |ps| :: ps[i].y < m * TileSize
  {
    if m == 0 then []
    else
      var r := m - 1;
      var rest := CornersBefore(grid, ch, r);
      var row := RowCorners(grid, ch, r, |grid[r]|);
      assert forall p | p in row :: p.y / TileSize == r;
      rest + row
  }

  /** Every cell corner holding `ch`, in scan order. */
  function Corners(grid: seq<string>, ch: char): (ps: seq<Point>)
    ensures forall p :: p in ps <==> IsCorner(grid, ch, p)
  {
    CornersBefore(grid, ch, |grid|)
  }

  /** The nested scan `for r ... for c ... if (mazeData[r].charAt(c) == ch) add(new Point(c * ts, r * ts))`. */
  method CollectCorners(grid: seq<string>, ch: char) returns (ps: seq<Point>)
    ensures ps == Corners(grid, ch)
  {
    ps := [];
    for r := 0 to |grid|
      invariant ps == CornersBefore(grid, ch, r)
    {
      for c := 0 to |grid[r]|
        invariant ps == CornersBefore(grid, ch, r) + RowCorners(grid, ch, r, c)
      {
        if grid[r][c] == ch {
          ps := ps + [Point(c * TileSize, r * TileSize)];
        }
      }
    }
  }

  lemma {:induction false} NoCellsInRow(grid: seq<string>, ch: char, r: nat, n: nat)
    requires r < |grid| && n <= |grid[r]|
    requires forall c | 0 <= c < n :: grid[r][c] != ch
    ensures RowCorners(grid, ch, r, n) == []
  {
    if n > 0 {
      NoCellsInRow(grid, ch, r, n - 1);
    }
  }

  /** A character no cell holds has no corners. */
  lemma {:induction false} NoCellsNoCorners(grid: seq<string>, ch: char, m: nat)
    requires m <= |grid|
    requires forall r, c | 0 <= r < m && 0 <= c < |grid[r]| :: grid[r][c] != ch
    ensures CornersBefore(grid, ch, m) == []
  {
    if m > 0 {
      NoCellsNoCorners(grid, ch, m - 1);
      NoCellsInRow(grid, ch, m - 1, |grid[m - 1]|);
    }
  }

  /** The game's layout has no 'G' cells, so no grave candidate exists on it. */
  lemma GameMazeHasNoGraveCells()
    ensures Corners(MazeData, 'G') == []
  {
    MazeDataShape();
    NoCellsNoCorners(MazeData, 'G', |MazeData|);
  }
}
