/** Grave placement: the selection loop of `Grave.generateGraves` over an already shuffled
    list of 'G' cell corners and an already shuffled list of the six colours, and the
    grave's 50-pixel bounding box. */
module Graves {
  import opened JavaInt
  import opened Awt
  import opened Maze

  const GraveSize: int := 50

  /** The grid character marking a grave cell. */
  const GraveCell: char := 'G'

  /** A grave never moves, so it is a value: its top-left pixel and its colour. */
  datatype Grave = Grave(x: int, y: int, color: Color)

  function Position(g: Grave): Point {
    Point(g.x, g.y)
  }

  /** `getBounds`: the 50-by-50 box with the grave's corner at the top left. */
  function Bounds(g: Grave): (r: Rect)
    ensures r.x == g.x && r.y == g.y && r.width == GraveSize && r.height == GraveSize
  {
    Rect(g.x, g.y, GraveSize, GraveSize)
  }

  /** `p.y / maze.tileSize` and `p.x / maze.tileSize`. */
  function TileRow(p: Point): int {
    Div(p.y, TileSize)
  }

  function TileCol(p: Point): int {
    Div(p.x, TileSize)
  }

  /** The spacing test: at most two tiles away from grave `g` in both directions. */
  predicate TooClose(p: Point, g: Grave) {
    Abs(TileRow(p) - TileRow(Position(g))) <= 2 && Abs(TileCol(p) - TileCol(Position(g))) <= 2
  }

  /** Some grave of `graves` is too close to `p`. */
  predicate NearAny(p: Point, graves: seq<Grave>) {
    exists k | 0 <= k < |graves| :: TooClose(p, graves[k])
  }

  /** The skip test as written: `maze.isWall(row, col)`, the tile indices passed where
      `isWall` expects pixels. */
  predicate Skipped(grid: seq<string>, p: Point) {
    IsWall(grid, TileRow(p), TileCol(p))
  }

  /** The `tooClose` loop over the graves chosen so far. */
  method AnyTooClose(graves: seq<Grave>, p: Point) returns (tooClose: bool)
    ensures tooClose <==> NearAny(p, graves)
  {
    tooClose := false;
    for k := 0 to |graves|
      invariant !tooClose
      invariant forall j | 0 <= j < k :: !TooClose(p, graves[j])
    {
      var gr, gc := Div(graves[k].y, TileSize), Div(graves[k].x, TileSize);
      var dr, dc := Abs(TileRow(p) - gr), Abs(TileCol(p) - gc);
      if dr <= 2 && dc <= 2 {
        tooClose := true;
        return;
      }
    }
  }

  /** A permutation of the six distinct colours has no repeated colour. */
  lemma ShuffledColorsDistinct(colors: seq<Color>)
    requires multiset(colors) == multiset(AllColors)
    ensures |colors| == |AllColors|
    ensures forall i, j | 0 <= i < j < |colors| :: colors[i] != colors[j]
  {
    assert |colors| == |multiset(colors)| == |multiset(AllColors)| == |AllColors|;
    forall i, j | 0 <= i < j < |colors| ensures colors[i] != colors[j] {
      if colors[i] == colors[j] {
        ColorOnce(colors[i]);
        TwoCopies(colors, i, j);
        assert false;
      }
    }
  }

  lemma ColorOnce(c: Color)
    ensures multiset(AllColors)[c] <= 1
  {
  }

  /** A value at two positions occurs at least twice. */
  lemma TwoCopies(s: seq<Color>, i: nat, j: nat)
    requires i < j < |s| && s[i] == s[j]
    ensures multiset(s)[s[i]] >= 2
  {
    assert s == s[..i] + [s[i]] + s[i + 1..j] + [s[j]] + s[j + 1..];
  }

  /** What the graves chosen from the first `bound` candidates satisfy: the k-th grave
      takes the k-th colour and the position of candidate `picks[k]`, the picks rise,
      no chosen position fails the swapped wall test, and each grave keeps its distance
      from the graves chosen before it. */
  ghost predicate Placed(grid: seq<string>, tiles: seq<Point>, colors: seq<Color>,
                         graves: seq<Grave>, picks: seq<nat>, bound: nat)
  {
    && |graves| <= |colors| && |picks| == |graves| && bound <= |tiles|
    && (forall k | 0 <= k < |graves| :: graves[k].color == colors[k])
    && (forall k | 0 <= k < |picks| :: picks[k] < bound && tiles[picks[k]] == Position(graves[k]))
    && (forall j, k | 0 <= j < k < |picks| :: picks[j] < picks[k])
    && (forall k | 0 <= k < |graves| :: !Skipped(grid, Position(graves[k])))
    && (forall j, k | 0 <= j < k < |graves| :: !TooClose(Position(graves[k]), graves[j]))
  }

  /** Every one of the first `bound` candidates was rejected or is now too close. */
  ghost predicate Saturated(grid: seq<string>, tiles: seq<Point>, graves: seq<Grave>, bound: nat)
    requires bound <= |tiles|
  {
    forall j | 0 <= j < bound :: Skipped(grid, tiles[j]) || NearAny(tiles[j], graves)
  }

  lemma SkipCandidate(grid: seq<string>, tiles: seq<Point>, colors: seq<Color>,
                      graves: seq<Grave>, picks: seq<nat>, i: nat)
    requires Placed(grid, tiles, colors, graves, picks, i) && i < |tiles|
    ensures Placed(grid, tiles, colors, graves, picks, i + 1)
    ensures Saturated(grid, tiles, graves, i) && (Skipped(grid, tiles[i]) || NearAny(tiles[i], graves))
            ==> Saturated(grid, tiles, graves, i + 1)
  {
  }

  lemma TakeCandidate(grid: seq<string>, tiles: seq<Point>, colors: seq<Color>,
                      graves: seq<Grave>, picks: seq<nat>, i: nat)
    requires Placed(grid, tiles, colors, graves, picks, i) && i < |tiles| && |graves| < |colors|
    requires !Skipped(grid, tiles[i]) && !NearAny(tiles[i], graves)
    ensures var g := Grave(tiles[i].x, tiles[i].y, colors[|graves|]);
      && Placed(grid, tiles, colors, graves + [g], picks + [i], i + 1)
      && (Saturated(grid, tiles, graves, i) ==> Saturated(grid, tiles, graves + [g], i + 1))
  {
    TakeKeepsPlaced(grid, tiles, colors, graves, picks, i);
    TakeKeepsSaturated(grid, tiles, graves, i, Grave(tiles[i].x, tiles[i].y, colors[|graves|]));
  }

  lemma TakeKeepsPlaced(grid: seq<string>, tiles: seq<Point>, colors: seq<Color>,
                        graves: seq<Grave>, picks: seq<nat>, i: nat)
    requires Placed(grid, tiles, colors, graves, picks, i) && i < |tiles| && |graves| < |colors|
    requires !Skipped(grid, tiles[i]) && !NearAny(tiles[i], graves)
    ensures Placed(grid, tiles, colors, graves + [Grave(tiles[i].x, tiles[i].y, colors[|graves|])], picks + [i], i + 1)
  {
    var g := Grave(tiles[i].x, tiles[i].y, colors[|graves|]);
    var graves' := graves + [g];
    forall j, k | 0 <= j < k < |graves'| ensures !TooClose(Position(graves'[k]), graves'[j]) {
      if k == |graves| {
        assert graves'[j] == graves[j];
      }
    }
  }

  /** A grave placed on candidate `i` rules that candidate out, and candidates already
      too close to a grave stay so. */
  lemma TakeKeepsSaturated(grid: seq<string>, tiles: seq<Point>, graves: seq<Grave>, i: nat, g: Grave)
    requires i < |tiles| && Position(g) == tiles[i]
    ensures Saturated(grid, tiles, graves, i) ==> Saturated(grid, tiles, graves + [g], i + 1)
  {
    var graves' := graves + [g];
    assert TooClose(tiles[i], g);
    assert NearAny(tiles[i], graves') by { assert graves'[|graves|] == g; }
    if Saturated(grid, tiles, graves, i) {
      forall j | 0 <= j < i + 1 ensures Skipped(grid, tiles[j]) || NearAny(tiles[j], graves') {
        if j < i && !Skipped(grid, tiles[j]) {
          var k :| 0 <= k < |graves| && TooClose(tiles[j], graves[k]);
          assert graves'[k] == graves[k];
        }
      }
    }
  }

  /** One pass of the candidate loop: the swapped wall test, the `tooClose` scan and,
      while a colour is left, the addition of a grave on candidate `i`. */
  method ConsiderCandidate(grid: seq<string>, tiles: seq<Point>, colors: seq<Color>,
                           graves: seq<Grave>, ghost picks: seq<nat>, i: nat)
    returns (graves': seq<Grave>, ghost picks': seq<nat>)
    requires Placed(grid, tiles, colors, graves, picks, i) && i < |tiles|
    ensures Placed(grid, tiles, colors, graves', picks', i + 1)
    ensures graves' == graves || (|graves| < |colors| && graves' == graves + [Grave(tiles[i].x, tiles[i].y, colors[|graves|])])
    ensures graves' != graves <==>
      !Skipped(grid, tiles[i]) && !NearAny(tiles[i], graves) && |graves| < |colors|
    ensures Saturated(grid, tiles, graves, i) && |graves'| < |colors| ==> Saturated(grid, tiles, graves', i + 1)
  {
    var p := tiles[i];
    var col, row := Div(p.x, TileSize), Div(p.y, TileSize);
    if IsWall(grid, row, col) {
      SkipCandidate(grid, tiles, colors, graves, picks, i);
      return graves, picks;
    }
    var tooClose := AnyTooClose(graves, p);
    if tooClose || |graves| >= |colors| {
      SkipCandidate(grid, tiles, colors, graves, picks, i);
      return graves, picks;
    }
    TakeCandidate(grid, tiles, colors, graves, picks, i);
    graves', picks' := graves + [Grave(p.x, p.y, colors[|graves|])], picks + [i];
  }

  /** `generateGraves(maze, count)` after the two shuffles: walk the candidate corners in
      order while fewer than `count` graves exist; skip a candidate the swapped `isWall`
      test rejects or that lies within two tiles of a chosen grave; otherwise, while a
      colour is left, add a grave with the next colour. */
  method GenerateGraves(grid: seq<string>, count: int, tiles: seq<Point>, colors: seq<Color>)
    returns (graves: seq<Grave>, ghost picks: seq<nat>)
    requires multiset(tiles) == multiset(Corners(grid, GraveCell))
    requires multiset(colors) == multiset(AllColors)
    ensures |graves| <= |AllColors| && |graves| <= |tiles| && (|graves| <= count || graves == [])
    ensures forall k | 0 <= k < |graves| :: graves[k].color == colors[k]
    ensures forall j, k | 0 <= j < k < |graves| :: graves[j].color != graves[k].color
    ensures forall k | 0 <= k < |graves| ::
      IsCorner(grid, GraveCell, Position(graves[k])) && !Skipped(grid, Position(graves[k]))
    ensures forall j, k | 0 <= j < k < |graves| :: !TooClose(Position(graves[k]), graves[j])
    ensures |picks| == |graves|
    ensures forall k | 0 <= k < |picks| :: picks[k] < |tiles| && tiles[picks[k]] == Position(graves[k])
    ensures forall j, k | 0 <= j < k < |picks| :: picks[j] < picks[k]
    ensures |graves| < count && |graves| < |AllColors| ==>
      forall p | p in tiles :: Skipped(grid, p) || NearAny(p, graves)
  {
    graves, picks := [], [];
    var i := 0;
    while i < |tiles| && |graves| < count
      invariant Placed(grid, tiles, colors, graves, picks, i)
      invariant |graves| <= count || graves == []
      invariant |graves| < count && |graves| < |colors| ==> Saturated(grid, tiles, graves, i)
      decreases |tiles| - i
    {
      graves, picks := ConsiderCandidate(grid, tiles, colors, graves, picks, i);
      i := i + 1;
    }
    PlacedOutcome(grid, tiles, colors, graves, picks, i);
  }

  /** A strictly rising sequence of indices below `n` has at most `n` entries. */
  lemma {:induction false} RisingIndicesBelow(picks: seq<nat>, n: nat)
    requires forall k | 0 <= k < |picks| :: picks[k] < n
    requires forall j, k | 0 <= j < k < |picks| :: picks[j] < picks[k]
    ensures |picks| <= n
  {
    if picks != [] {
      var last := picks[|picks| - 1];
      RisingIndicesBelow(picks[..|picks| - 1], last);
    }
  }

  /** The loop's invariants, once the candidates are exhausted or `count` is reached, give
      what `GenerateGraves` promises. */
  lemma PlacedOutcome(grid: seq<string>, tiles: seq<Point>, colors: seq<Color>,
                      graves: seq<Grave>, picks: seq<nat>, i: nat)
    requires multiset(tiles) == multiset(Corners(grid, GraveCell))
    requires multiset(colors) == multiset(AllColors)
    requires Placed(grid, tiles, colors, graves, picks, i)
    ensures |graves| <= |tiles| && |graves| <= |AllColors|
    ensures forall j, k | 0 <= j < k < |graves| :: graves[j].color != graves[k].color
    ensures forall k | 0 <= k < |graves| :: IsCorner(grid, GraveCell, Position(graves[k]))
    ensures i == |tiles| && Saturated(grid, tiles, graves, i) ==>
      forall p | p in tiles :: Skipped(grid, p) || NearAny(p, graves)
  {
    ShuffledColorsDistinct(colors);
    RisingIndicesBelow(picks, |tiles|);
    forall k | 0 <= k < |graves| ensures IsCorner(grid, GraveCell, Position(graves[k])) {
      assert Position(graves[k]) in multiset(tiles) by { assert tiles[picks[k]] == Position(graves[k]); }
    }
    if i == |tiles| && Saturated(grid, tiles, graves, i) {
      forall p | p in tiles ensures Skipped(grid, p) || NearAny(p, graves) {
        var j :| 0 <= j < |tiles| && tiles[j] == p;
      }
    }
  }

  /** Graves chosen on cell corners and more than two tiles apart in some direction have
      disjoint bounding boxes. */
  lemma SpacedGravesDoNotOverlap(grid: seq<string>, a: Grave, b: Grave)
    requires IsCorner(grid, GraveCell, Position(a)) && IsCorner(grid, GraveCell, Position(b))
    requires !TooClose(Position(a), b)
    requires NoOverflow(Bounds(a)) && NoOverflow(Bounds(b))
    ensures !Intersects(Bounds(a), Bounds(b))
  {
    var ra, ca, rb, cb := a.y / TileSize, a.x / TileSize, b.y / TileSize, b.x / TileSize;
    assert a.y == ra * TileSize && a.x == ca * TileSize && b.y == rb * TileSize && b.x == cb * TileSize;
    assert TileRow(Position(a)) == ra && TileCol(Position(a)) == ca;
    assert TileRow(Position(b)) == rb && TileCol(Position(b)) == cb;
  }

  /** On the game's own layout there are no 'G' cells, so no grave is ever placed. */
  lemma NoGravesOnGameMaze(tiles: seq<Point>, graves: seq<Grave>)
    requires multiset(tiles) == multiset(Corners(MazeData, GraveCell))
    requires |graves| <= |tiles|
    ensures tiles == [] && graves == []
  {
    GameMazeHasNoGraveCells();
    assert multiset(tiles) == multiset{};
    assert |tiles| == |multiset(tiles)| == 0;
  }
}
