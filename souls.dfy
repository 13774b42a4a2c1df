/** Souls: the `Soul` object with its position, the placement of one soul per grave colour
    (`generateSouls`) over an already shuffled list of free cell corners, and `respawn`. */
module Souls {
  import opened JavaInt
  import opened Wrappers
  import opened Awt
  import opened Maze
  import opened Graves

  const SoulSize: int := 50

  /** The grid character of a free cell. */
  const FreeCell: char := ' '

  /** How many tiles the wall scan covers per axis: `SIZE / tileSize + 1`. */
  const Span: int := SoulSize / TileSize + 1

  /** The 50-by-50 box of a soul whose top-left corner is `p`. */
  function Box(p: Point): Rect {
    Rect(p.x, p.y, SoulSize, SoulSize)
  }

  class Soul {
    var x: int
    var y: int
    const color: Color

    constructor (x: int, y: int, color: Color)
      ensures this.x == x && this.y == y && this.color == color
    {
      this.x, this.y, this.color := x, y, color;
    }

    function Position(): Point
      reads this
    {
      Point(x, y)
    }

    /** `getBounds`. */
    function Bounds(): (r: Rect)
      reads this
      ensures r == Box(Position())
    {
      Rect(x, y, SoulSize, SoulSize)
    }

    /** `setPosition`: moves the soul and keeps its colour. */
    method SetPosition(x: int, y: int)
      modifies this
      ensures this.x == x && this.y == y
    {
      this.x, this.y := x, y;
    }
  }

  // ------------------------------------------------------------ generateSouls

  /** A soul chosen by `generateSouls` before it becomes an object: its corner and colour. */
  datatype Spot = Spot(x: int, y: int, color: Color)

  function SpotPoint(s: Spot): Point {
    Point(s.x, s.y)
  }

  function SpotPoints(spots: seq<Spot>): (ps: seq<Point>)
    ensures |ps| == |spots| && forall k | 0 <= k < |spots| :: ps[k] == SpotPoint(spots[k])
  {
    if spots == [] then [] else SpotPoints(spots[..|spots| - 1]) + [SpotPoint(spots[|spots| - 1])]
  }

  /** The box at `p` meets the bounds of a soul already chosen. */
  predicate HitsSoul(spots: seq<Spot>, p: Point) {
    exists k | 0 <= k < |spots| :: Intersects(Box(SpotPoint(spots[k])), Box(p))
  }

  /** The box at `p` meets the bounds of a grave. */
  predicate HitsGrave(graves: seq<Grave>, p: Point) {
    exists k | 0 <= k < |graves| :: Intersects(Graves.Bounds(graves[k]), Box(p))
  }

  /** The wall test as written: over the 3-by-3 tile indices from the corner's tile,
      `maze.isWall(rowIdx, colIdx)`, the indices passed where `isWall` expects pixels. */
  predicate OnWall(grid: seq<string>, p: Point) {
    exists r, c | TileRow(p) <= r < TileRow(p) + Span && TileCol(p) <= c < TileCol(p) + Span ::
      IsWall(grid, r, c)
  }

  /** A candidate corner is taken when it overlaps no chosen soul, no grave and no wall. */
  predicate Fits(grid: seq<string>, graves: seq<Grave>, spots: seq<Spot>, p: Point) {
    !HitsSoul(spots, p) && !HitsGrave(graves, p) && !OnWall(grid, p)
  }

  /** The loop over the souls chosen so far. */
  method OverlapsSoul(spots: seq<Spot>, p: Point) returns (overlap: bool)
    ensures overlap <==> HitsSoul(spots, p)
  {
    var rect := Box(p);
    overlap := false;
    for k := 0 to |spots|
      invariant forall j | 0 <= j < k :: !Intersects(Box(SpotPoint(spots[j])), rect)
    {
      if Intersects(Box(SpotPoint(spots[k])), rect) {
        return true;
      }
    }
  }

  /** The loop over all the graves. */
  method OverlapsGrave(graves: seq<Grave>, p: Point) returns (overlap: bool)
    ensures overlap <==> HitsGrave(graves, p)
  {
    var rect := Box(p);
    overlap := false;
    for k := 0 to |graves|
      invariant forall j | 0 <= j < k :: !Intersects(Graves.Bounds(graves[j]), rect)
    {
      if Intersects(Graves.Bounds(graves[k]), rect) {
        return true;
      }
    }
  }

  /** The nested `onWall` scan, leaving both loops at the first wall. */
  method WallUnder(grid: seq<string>, p: Point) returns (onWall: bool)
    ensures onWall <==> OnWall(grid, p)
  {
    var col, row := Div(p.x, TileSize), Div(p.y, TileSize);
    onWall := false;
    var rowIdx := row;
    while rowIdx < row + Span
      invariant row <= rowIdx <= row + Span
      invariant onWall ==> IsWall(grid, rowIdx, col) || exists c | col <= c < col + Span :: IsWall(grid, rowIdx, c)
      invariant !onWall ==> forall r, c | row <= r < rowIdx && col <= c < col + Span :: !IsWall(grid, r, c)
      invariant onWall ==> rowIdx < row + Span
    {
      var colIdx := col;
      while colIdx < col + Span
        invariant col <= colIdx <= col + Span
        invariant !onWall
        invariant forall c | col <= c < colIdx :: !IsWall(grid, rowIdx, c)
      {
        if IsWall(grid, rowIdx, colIdx) {
          onWall := true;
          break;
        }
        colIdx := colIdx + 1;
      }
      if onWall {
        break;
      }
      rowIdx := rowIdx + 1;
    }
  }

  /** The inner loop of `generateSouls` for one grave: the index of the first candidate
      that fits, if any. */
  method FindSpot(grid: seq<string>, graves: seq<Grave>, spots: seq<Spot>, tiles: seq<Point>)
    returns (found: Option<nat>)
    ensures found.Some? ==> found.value < |tiles| && Fits(grid, graves, spots, tiles[found.value])
    ensures found.Some? ==> forall j | 0 <= j < found.value :: !Fits(grid, graves, spots, tiles[j])
    ensures found.None? ==> forall j | 0 <= j < |tiles| :: !Fits(grid, graves, spots, tiles[j])
  {
    for i := 0 to |tiles|
      invariant forall j | 0 <= j < i :: !Fits(grid, graves, spots, tiles[j])
    {
      var p := tiles[i];
      var overlap := OverlapsSoul(spots, p);
      if !overlap {
        overlap := OverlapsGrave(graves, p);
      }
      var onWall := WallUnder(grid, p);
      if !overlap && !onWall {
        return Some(i);
      }
    }
    return None;
  }

  /** What the souls chosen so far satisfy: the k-th soul takes the colour of the k-th
      grave, and each soul misses every grave, every wall and every soul chosen before it. */
  ghost predicate Chosen(grid: seq<string>, graves: seq<Grave>, spots: seq<Spot>) {
    && |spots| <= |graves|
    && (forall k | 0 <= k < |spots| :: spots[k].color == graves[k].color)
    && (forall j, k | 0 <= j < k < |spots| :: !Intersects(Box(SpotPoint(spots[j])), Box(SpotPoint(spots[k]))))
    && (forall k | 0 <= k < |spots| :: !HitsGrave(graves, SpotPoint(spots[k])) && !OnWall(grid, SpotPoint(spots[k])))
  }

  /** Adding a soul that fits, with the next grave's colour, keeps `Chosen`. */
  lemma AddSpot(grid: seq<string>, graves: seq<Grave>, spots: seq<Spot>, p: Point)
    requires Chosen(grid, graves, spots) && |spots| < |graves|
    requires Fits(grid, graves, spots, p)
    ensures Chosen(grid, graves, spots + [Spot(p.x, p.y, graves[|spots|].color)])
  {
    var spots' := spots + [Spot(p.x, p.y, graves[|spots|].color)];
    forall j, k | 0 <= j < k < |spots'| ensures !Intersects(Box(SpotPoint(spots'[j])), Box(SpotPoint(spots'[k]))) {
      if k == |spots| {
        assert spots'[j] == spots[j];
      }
    }
  }

  /** Taking candidate `i` out of the list and making it a soul keeps the candidates and
      the souls together a permutation of the starting candidates. */
  lemma MoveCandidate(spots: seq<Spot>, remaining: seq<Point>, i: nat, c: Color, tiles: seq<Point>)
    requires i < |remaining|
    requires multiset(remaining) + multiset(SpotPoints(spots)) == multiset(tiles)
    ensures multiset(remaining[..i] + remaining[i + 1..]) +
            multiset(SpotPoints(spots + [Spot(remaining[i].x, remaining[i].y, c)])) == multiset(tiles)
  {
    RemoveAt(remaining, i);
    SpotPointsSnoc(spots, Spot(remaining[i].x, remaining[i].y, c));
  }

  /** Removing the entry at `i` removes exactly that entry. */
  lemma RemoveAt(xs: seq<Point>, i: nat)
    requires i < |xs|
    ensures multiset(xs[..i] + xs[i + 1..]) + multiset{xs[i]} == multiset(xs)
  {
    assert xs == xs[..i] + [xs[i]] + xs[i + 1..];
  }

  lemma SpotPointsSnoc(spots: seq<Spot>, s: Spot)
    ensures SpotPoints(spots + [s]) == SpotPoints(spots) + [SpotPoint(s)]
  {
    assert (spots + [s])[..|spots|] == spots;
  }

  /** `generateSouls` up to the creation of the objects: for each grave in order, take the
      first remaining candidate that fits, remove it from the candidates and give it the
      grave's colour; a grave with no fitting candidate gets no soul. Since candidates only
      leave the list and souls only join, once a grave is left without a soul so is every
      later one: the souls go to a prefix of the graves. */
  method PlaceSouls(grid: seq<string>, graves: seq<Grave>, tiles: seq<Point>)
    returns (spots: seq<Spot>, remaining: seq<Point>)
    requires multiset(tiles) == multiset(Corners(grid, FreeCell))
    ensures Chosen(grid, graves, spots)
    ensures multiset(remaining) + multiset(SpotPoints(spots)) == multiset(tiles)
    ensures forall k | 0 <= k < |spots| :: IsCorner(grid, FreeCell, SpotPoint(spots[k]))
    ensures |spots| < |graves| ==> forall p | p in remaining :: !Fits(grid, graves, spots, p)
  {
    spots, remaining := [], tiles;
    for g := 0 to |graves|
      invariant Chosen(grid, graves, spots) && |spots| <= g
      invariant multiset(remaining) + multiset(SpotPoints(spots)) == multiset(tiles)
      invariant |spots| < g ==> forall p | p in remaining :: !Fits(grid, graves, spots, p)
    {
      var found := FindSpot(grid, graves, spots, remaining);
      if found.Some? {
        var i := found.value;
        var p := remaining[i];
        assert p in remaining;
        assert |spots| == g;
        AddSpot(grid, graves, spots, p);
        MoveCandidate(spots, remaining, i, graves[g].color, tiles);
        remaining := remaining[..i] + remaining[i + 1..];
        spots := spots + [Spot(p.x, p.y, graves[g].color)];
      } else {
        forall q | q in remaining ensures !Fits(grid, graves, spots, q) {
          var j :| 0 <= j < |remaining| && remaining[j] == q;
        }
      }
    }
    forall k | 0 <= k < |spots| ensures IsCorner(grid, FreeCell, SpotPoint(spots[k])) {
      assert SpotPoint(spots[k]) in multiset(SpotPoints(spots));
      assert SpotPoint(spots[k]) in multiset(tiles);
    }
  }

  /** One `new Soul(p.x, p.y, color)` per chosen spot, in order. */
  method MakeSouls(spots: seq<Spot>) returns (souls: seq<Soul>)
    ensures |souls| == |spots|
    ensures forall k | 0 <= k < |souls| :: fresh(souls[k])
    ensures forall k | 0 <= k < |souls| ::
      souls[k].x == spots[k].x && souls[k].y == spots[k].y && souls[k].color == spots[k].color
    ensures forall j, k | 0 <= j < k < |souls| :: souls[j] != souls[k]
  {
    souls := [];
    for k := 0 to |spots|
      invariant |souls| == k
      invariant forall j | 0 <= j < k :: fresh(souls[j])
      invariant forall j | 0 <= j < k :: souls[j].x == spots[j].x && souls[j].y == spots[j].y
      invariant forall j | 0 <= j < k :: souls[j].color == spots[j].color
      invariant forall i, j | 0 <= i < j < k :: souls[i] != souls[j]
    {
      var soul := new Soul(spots[k].x, spots[k].y, spots[k].color);
      ghost var before := souls;
      souls := souls + [soul];
      assert souls[k] == soul && forall j | 0 <= j < k :: souls[j] == before[j];
    }
  }

  /** `generateSouls(maze, graves)` after the shuffle: the souls chosen by `PlaceSouls`, as
      new objects. Every candidate ends up either unused or under exactly one soul, and
      the souls stop short of one per grave only when no unused candidate fits. */
  method GenerateSouls(grid: seq<string>, graves: seq<Grave>, tiles: seq<Point>)
    returns (souls: seq<Soul>, ghost spots: seq<Spot>, ghost remaining: seq<Point>)
    requires multiset(tiles) == multiset(Corners(grid, FreeCell))
    ensures Chosen(grid, graves, spots) && |souls| == |spots|
    ensures multiset(remaining) + multiset(SpotPoints(spots)) == multiset(tiles)
    ensures forall k | 0 <= k < |spots| :: IsCorner(grid, FreeCell, SpotPoint(spots[k]))
    ensures |spots| < |graves| ==> forall p | p in remaining :: !Fits(grid, graves, spots, p)
    ensures forall k | 0 <= k < |souls| :: fresh(souls[k])
    ensures forall k | 0 <= k < |souls| ::
      souls[k].x == spots[k].x && souls[k].y == spots[k].y && souls[k].color == spots[k].color
    ensures forall j, k | 0 <= j < k < |souls| :: souls[j] != souls[k]
  {
    var chosen, left := PlaceSouls(grid, graves, tiles);
    spots, remaining := chosen, left;
    souls := MakeSouls(chosen);
  }

  /** Souls chosen apart have corners at least a soul's width apart on some axis, so as
      drawn they do not overlap. */
  lemma ChosenSoulsApart(grid: seq<string>, graves: seq<Grave>, spots: seq<Spot>, j: nat, k: nat)
    requires Chosen(grid, graves, spots) && j < k < |spots|
    requires NoOverflow(Box(SpotPoint(spots[j]))) && NoOverflow(Box(SpotPoint(spots[k])))
    ensures Abs(spots[j].x - spots[k].x) >= SoulSize || Abs(spots[j].y - spots[k].y) >= SoulSize
  {
    SquaresIntersect(SpotPoint(spots[j]), SpotPoint(spots[k]), SoulSize);
  }

  // ------------------------------------------------------------ respawn

  /** The shuffled candidates from the first on: the index of the first one whose
      swapped `isWall(row, col)` test passes, or `|tiles|` when none does. */
  function FirstFree(grid: seq<string>, tiles: seq<Point>): (i: nat)
    ensures i <= |tiles|
    ensures forall j | 0 <= j < i :: Skipped(grid, tiles[j])
    ensures i < |tiles| ==> !Skipped(grid, tiles[i])
  {
    if tiles == [] then 0
    else if !Skipped(grid, tiles[0]) then 0
    else 1 + FirstFree(grid, tiles[1..])
  }

  /** Where `respawn` puts the soul: nowhere when there is no free cell, otherwise the
      first candidate that passes the test, or the first candidate when none does. */
  function RespawnSpot(grid: seq<string>, tiles: seq<Point>): (spot: Option<Point>)
    ensures spot.None? <==> tiles == []
    ensures spot.Some? ==> spot.value in tiles
    ensures spot.Some? && (exists p | p in tiles :: !Skipped(grid, p)) ==> !Skipped(grid, spot.value)
  {
    if tiles == [] then None
    else
      var i := FirstFree(grid, tiles);
      if i < |tiles| then Some(tiles[i]) else Some(tiles[0])
  }

  /** `respawn(soul, maze)` after the shuffle. The free cells are scanned over
      `getRows()` by `getCols()`, so the grid is rectangular. */
  method Respawn(soul: Soul, grid: seq<string>, tiles: seq<Point>)
    requires Rectangular(grid)
    requires multiset(tiles) == multiset(Corners(grid, FreeCell))
    modifies soul
    ensures tiles == [] ==> soul.x == old(soul.x) && soul.y == old(soul.y)
    ensures RespawnSpot(grid, tiles).Some? ==> soul.Position() == RespawnSpot(grid, tiles).value
  {
    if tiles == [] {
      return;
    }
    for i := 0 to |tiles|
      invariant forall j | 0 <= j < i :: Skipped(grid, tiles[j])
    {
      var p := tiles[i];
      var row, col := Div(p.y, TileSize), Div(p.x, TileSize);
      if !IsWall(grid, row, col) {
        assert FirstFree(grid, tiles) == i by { FirstFreeIsFirst(grid, tiles, i); }
        soul.SetPosition(p.x, p.y);
        return;
      }
    }
    FirstFreeIsFirst(grid, tiles, |tiles|);
    var p := tiles[0];
    soul.SetPosition(p.x, p.y);
  }

  /** `FirstFree` is the index a left-to-right search stops at. */
  lemma {:induction false} FirstFreeIsFirst(grid: seq<string>, tiles: seq<Point>, i: nat)
    requires i <= |tiles| && forall j | 0 <= j < i :: Skipped(grid, tiles[j])
    requires i < |tiles| ==> !Skipped(grid, tiles[i])
    ensures FirstFree(grid, tiles) == i
  {
    if tiles != [] && i > 0 {
      FirstFreeIsFirst(grid, tiles[1..], i - 1);
    }
  }

  /** On the game's layout the swapped test only passes for cells whose row and column
      indices are both at least 20, and such cells exist, so a respawned soul always
      lands in the lower-right part of the maze. */
  lemma RespawnOnGameMaze(tiles: seq<Point>)
    requires multiset(tiles) == multiset(Corners(MazeData, FreeCell))
    ensures RespawnSpot(MazeData, tiles).Some?
    ensures RespawnSpot(MazeData, tiles).value.x >= TileSize * TileSize
    ensures RespawnSpot(MazeData, tiles).value.y >= TileSize * TileSize
  {
    MazeDataShape();
    var q := Point(TileSize * TileSize, TileSize * TileSize);
    assert IsCorner(MazeData, FreeCell, q);
    assert q in tiles by { assert q in multiset(tiles); }
    SwappedCallOnGameMaze(TileSize, TileSize);
    assert !Skipped(MazeData, q);
    var p := RespawnSpot(MazeData, tiles).value;
    assert p in multiset(tiles);
    assert IsCorner(MazeData, FreeCell, p);
    SwappedCallOnGameMaze(p.y / TileSize, p.x / TileSize);
  }
}
