/** The ghost object: when it replans its route to the player, how it walks the cursor
    along the route, the wall test under its box, and contact with the player. The
    ghost's position and velocity are doubles in the game and exact reals here. */
module Ghosts {
  import opened JavaInt
  import opened Awt
  import opened Maze
  import opened GhostPath
  import opened Players

  const GhostSize: int := 20
  const Speed: real := 1.8
  const SteerStrength: real := 0.1

  /** The margin by which the wall test shrinks the ghost's box on every side. */
  const SafeDistance: int := 1

  /** The longest a route is followed, in milliseconds, before it is replanned. */
  const PathUpdateInterval: int := 400

  /** How close, in pixels, the ghost must come to a route tile's corner to move on. */
  const ArriveDistance: real := 2.0

  // ------------------------------------------------------------ tiles

  /** The ghost's tile: `(int) ((y + size / 2) / tileSize)`, a truncation of a double. */
  function GhostTile(x: real, y: real): Tile {
    Tile(Trunc((y + (GhostSize / 2) as real) / TileSize as real),
         Trunc((x + (GhostSize / 2) as real) / TileSize as real))
  }

  /** The player's tile as the ghost computes it: `(player.y + player.size / 2) / tileSize`
      in int arithmetic, which truncates. */
  function PlayerTile(px: int, py: int): Tile {
    Tile(Div(py + PlayerSize / 2, TileSize), Div(px + PlayerSize / 2, TileSize))
  }

  // ------------------------------------------------------------ isColliding

  /** The first and last tile index the wall test scans on one axis for a box at `v`:
      both edges pulled in by the margin, truncated to int, then divided by the tile size
      in int arithmetic. */
  function ScanFirst(v: real): int {
    Div(Trunc(v + SafeDistance as real), TileSize)
  }

  function ScanLast(v: real): int {
    Div(Trunc(v + (GhostSize - 1 - SafeDistance) as real), TileSize)
  }

  /** Some wall tile lies under the ghost's shrunken box at (nx, ny). */
  predicate Colliding(grid: seq<string>, nx: real, ny: real) {
    exists r, c | ScanFirst(ny) <= r <= ScanLast(ny) && ScanFirst(nx) <= c <= ScanLast(nx) ::
      IsWallTile(grid, r, c)
  }

  /** `isColliding(newX, newY)`: the nested scan that stops at the first wall tile. */
  method IsColliding(grid: seq<string>, nx: real, ny: real) returns (hit: bool)
    ensures hit <==> Colliding(grid, nx, ny)
  {
    var left, right := Trunc(nx + SafeDistance as real), Trunc(nx + (GhostSize - 1 - SafeDistance) as real);
    var top, bottom := Trunc(ny + SafeDistance as real), Trunc(ny + (GhostSize - 1 - SafeDistance) as real);
    var row := Div(top, TileSize);
    while row <= Div(bottom, TileSize)
      invariant forall r, c | Div(top, TileSize) <= r < row && Div(left, TileSize) <= c <= Div(right, TileSize) ::
        !IsWallTile(grid, r, c)
      decreases Div(bottom, TileSize) - row
    {
      var col := Div(left, TileSize);
      while col <= Div(right, TileSize)
        invariant forall c | Div(left, TileSize) <= c < col :: !IsWallTile(grid, row, c)
        decreases Div(right, TileSize) - col
      {
        if IsWallTile(grid, row, col) {
          return true;
        }
        col := col + 1;
      }
      row := row + 1;
    }
    return false;
  }

  /** Truncating a real and then dividing by the tile size in int arithmetic is truncating
      the real quotient. */
  lemma TruncThenDiv(w: real)
    ensures Div(Trunc(w), TileSize) == Trunc(w / TileSize as real)
  {
    var t := Trunc(w);
    var q := Div(t, TileSize);
    if w >= 0.0 {
      assert q as real * TileSize as real <= t as real;
      assert t as real + 1.0 <= q as real * TileSize as real + TileSize as real;
      assert q as real <= w / TileSize as real < q as real + 1.0;
    } else {
      assert q as real * TileSize as real - TileSize as real <= t as real - 1.0;
      assert t as real <= q as real * TileSize as real;
      assert q as real - 1.0 < w / TileSize as real <= q as real;
    }
  }

  /** Truncation toward zero is monotone. */
  lemma TruncMonotone(a: real, b: real)
    requires a <= b
    ensures Trunc(a) <= Trunc(b)
  {
  }

  /** The ghost's own tile is among the tiles its wall test scans, on both axes. */
  lemma CentreTileInScan(v: real)
    ensures ScanFirst(v) <= Trunc((v + (GhostSize / 2) as real) / TileSize as real) <= ScanLast(v)
  {
    TruncThenDiv(v + SafeDistance as real);
    TruncThenDiv(v + (GhostSize - 1 - SafeDistance) as real);
    TruncMonotone((v + SafeDistance as real) / TileSize as real, (v + (GhostSize / 2) as real) / TileSize as real);
    TruncMonotone((v + (GhostSize / 2) as real) / TileSize as real, (v + (GhostSize - 1 - SafeDistance) as real) / TileSize as real);
  }

  /** A ghost whose box is clear of walls stands on an open tile of its own: the tile the
      route planner starts from is never a wall. */
  lemma ClearGhostTileIsOpen(grid: seq<string>, x: real, y: real)
    requires !Colliding(grid, x, y)
    ensures !IsWallTile(grid, GhostTile(x, y).row, GhostTile(x, y).col)
  {
    CentreTileInScan(x);
    CentreTileInScan(y);
  }

  // ------------------------------------------------------------ following the route

  /** The ghost's position and velocity. */
  datatype Motion = Motion(x: real, y: real, vx: real, vy: real)

  /** The pixel corner the ghost steers to for route tile `t`:
      `t * tileSize + (tileSize - size) / 2.0` on each axis. */
  function TargetX(t: Tile): real {
    (t.col * TileSize) as real + (TileSize - GhostSize) as real / 2.0
  }

  function TargetY(t: Tile): real {
    (t.row * TileSize) as real + (TileSize - GhostSize) as real / 2.0
  }

  /** The squared distance from the ghost to the corner of route tile `t`. */
  function DistanceSquared(m: Motion, t: Tile): (d2: real)
    ensures d2 >= 0.0
  {
    (TargetX(t) - m.x) * (TargetX(t) - m.x) + (TargetY(t) - m.y) * (TargetY(t) - m.y)
  }

  /** The ghost is close enough to route tile `t` to move its cursor on: `dist < 2`, with
      `Math.sqrt` given as `sqrt`. */
  predicate Arrived(m: Motion, t: Tile, sqrt: real -> real) {
    sqrt(DistanceSquared(m, t)) < ArriveDistance
  }

  /** With a true square root, arriving means being less than 2 pixels away, which is a
      squared distance below 4. */
  lemma ArrivedIffNear(m: Motion, t: Tile, sqrt: real -> real)
    requires sqrt(DistanceSquared(m, t)) >= 0.0
    requires sqrt(DistanceSquared(m, t)) * sqrt(DistanceSquared(m, t)) == DistanceSquared(m, t)
    ensures Arrived(m, t, sqrt) <==> DistanceSquared(m, t) < ArriveDistance * ArriveDistance
  {
    var d2, s := DistanceSquared(m, t), sqrt(DistanceSquared(m, t));
    assert ArriveDistance * ArriveDistance == 4.0;
    if s < 2.0 {
      calc {
        d2;
      ==
        s * s;
      <= { assert s * (2.0 - s) >= 0.0; }
        2.0 * s;
      <
        4.0;
      }
    } else {
      calc {
        d2;
      ==
        s * s;
      >= { assert s * (s - 2.0) >= 0.0; }
        2.0 * s;
      >=
        4.0;
      }
    }
  }

  /** Smooth steering: the velocity moves a tenth of the way toward the unit vector to
      the target scaled by the ghost's speed; the position does not change yet. */
  function Steered(m: Motion, t: Tile, dist: real): (r: Motion)
    requires dist != 0.0
    ensures r.x == m.x && r.y == m.y
  {
    var ux, uy := (TargetX(t) - m.x) / dist, (TargetY(t) - m.y) / dist;
    Motion(m.x, m.y, m.vx + (ux * Speed - m.vx) * SteerStrength, m.vy + (uy * Speed - m.vy) * SteerStrength)
  }

  /** The x half of the commit: x takes `x + vx` unless the box there hits a wall, in
      which case vx drops to 0. */
  function CommitX(grid: seq<string>, m: Motion): (r: Motion)
    ensures r.y == m.y && r.vy == m.vy
    ensures (r.x == m.x + m.vx && r.vx == m.vx && !Colliding(grid, r.x, r.y)) ||
            (r.x == m.x && r.vx == 0.0 && Colliding(grid, m.x + m.vx, m.y))
  {
    if !Colliding(grid, m.x + m.vx, m.y) then m.(x := m.x + m.vx) else m.(vx := 0.0)
  }

  /** The y half, taken at the x the first half left. */
  function CommitY(grid: seq<string>, m: Motion): (r: Motion)
    ensures r.x == m.x && r.vx == m.vx
    ensures (r.y == m.y + m.vy && r.vy == m.vy && !Colliding(grid, r.x, r.y)) ||
            (r.y == m.y && r.vy == 0.0 && Colliding(grid, m.x, m.y + m.vy))
  {
    if !Colliding(grid, m.x, m.y + m.vy) then m.(y := m.y + m.vy) else m.(vy := 0.0)
  }

  /** The per-axis commit, x first and then y. A ghost clear of walls stays clear. */
  function Commit(grid: seq<string>, m: Motion): (r: Motion)
    ensures !Colliding(grid, m.x, m.y) ==> !Colliding(grid, r.x, r.y)
  {
    CommitY(grid, CommitX(grid, m))
  }

  /** One tick toward route tile `t` when not yet arrived: steer, then commit. */
  function Pursue(grid: seq<string>, m: Motion, t: Tile, sqrt: real -> real): (r: Motion)
    requires !Arrived(m, t, sqrt)
    ensures !Colliding(grid, m.x, m.y) ==> !Colliding(grid, r.x, r.y)
  {
    Commit(grid, Steered(m, t, sqrt(DistanceSquared(m, t))))
  }

  /** The replanning rule: no route, the cursor past its end, or the route older than
      the interval (strictly). */
  predicate NeedsPlan(path: seq<Tile>, pathIndex: int, lastPathTime: int, now: int) {
    path == [] || pathIndex >= |path| || now - lastPathTime > PathUpdateInterval
  }

  /** What `computePath` promises of the route it stores. */
  ghost predicate PlannedRoute(grid: seq<string>, start: Tile, goal: Tile, path: seq<Tile>) {
    && IsWalk(grid, start, path)
    && (path != [] ==> End(start, path) == goal)
    && (path == [] <==> goal == start || !Reachable(grid, start, goal))
    && (forall q | IsWalk(grid, start, q) && End(start, q) == goal :: |path| <= |q|)
  }

  // ------------------------------------------------------------ the ghost object

  class Ghost {
    var x: real
    var y: real
    var vx: real
    var vy: real
    var path: seq<Tile>
    var pathIndex: int
    var lastPathTime: int
    const grid: seq<string>

    constructor (x: int, y: int, grid: seq<string>)
      ensures this.x == x as real && this.y == y as real && this.grid == grid
      ensures vx == 0.0 && vy == 0.0 && path == [] && pathIndex == 0 && lastPathTime == 0
      ensures Valid()
    {
      this.x, this.y, this.grid := x as real, y as real, grid;
      vx, vy, path, pathIndex, lastPathTime := 0.0, 0.0, [], 0, 0;
    }

    /** The cursor is never negative: it starts at 0 and only moves forward. */
    predicate Valid()
      reads this
    {
      pathIndex >= 0
    }

    function State(): Motion
      reads this
    {
      Motion(x, y, vx, vy)
    }

    /** `collidesWith(p)`: the 20-by-20 box at the truncated position against the
        player's box, by `Rectangle.intersects`; boxes that only touch are not in contact. */
    function CollidesWith(p: Player): (b: bool)
      reads this, p
      ensures NoOverflow(Rect(Trunc(x), Trunc(y), GhostSize, GhostSize)) && NoOverflow(p.Bounds()) ==>
        (b <==> p.x - GhostSize < Trunc(x) < p.x + PlayerSize && p.y - GhostSize < Trunc(y) < p.y + PlayerSize)
    {
      Intersects(Rect(Trunc(x), Trunc(y), GhostSize, GhostSize), p.Bounds())
    }

    /** `update(player)` at time `now`: replan from the ghost's tile to the player's when
        `NeedsPlan` holds, resetting the cursor and the plan time; then, while the cursor is
        on the route, either move the cursor on (when arrived) or steer and commit. The
        route planner indexes its `visited` array with the ghost's tile, so a replan needs
        that tile inside the grid. */
    method Update(player: Player, now: int, sqrt: real -> real)
      requires Valid()
      requires NeedsPlan(path, pathIndex, lastPathTime, now) ==> InGrid(grid, GhostTile(x, y))
      modifies this
      ensures Valid()
      ensures var plan := NeedsPlan(old(path), old(pathIndex), old(lastPathTime), now);
        && (plan ==>
              lastPathTime == now &&
              PlannedRoute(grid, GhostTile(old(x), old(y)), PlayerTile(player.x, player.y), path))
        && (!plan ==> path == old(path) && lastPathTime == old(lastPathTime))
      ensures var i := if NeedsPlan(old(path), old(pathIndex), old(lastPathTime), now) then 0 else old(pathIndex);
        if path != [] && 0 <= i < |path| then
          if Arrived(old(State()), path[i], sqrt) then pathIndex == i + 1 && State() == old(State())
          else pathIndex == i && State() == Pursue(grid, old(State()), path[i], sqrt)
        else pathIndex == i && State() == old(State())
    {
      var ghostTile := GhostTile(x, y);
      var playerTile := PlayerTile(player.x, player.y);
      if path == [] || pathIndex >= |path| || now - lastPathTime > PathUpdateInterval {
        path := ComputePath(grid, ghostTile, playerTile);
        pathIndex := 0;
        lastPathTime := now;
      }
      if path != [] && pathIndex < |path| {
        Follow(sqrt);
      }
    }

    /** The following half of `update`, with the cursor on the route. */
    method Follow(sqrt: real -> real)
      requires 0 <= pathIndex < |path|
      modifies this
      ensures path == old(path) && lastPathTime == old(lastPathTime)
      ensures Arrived(old(State()), path[old(pathIndex)], sqrt) ==>
        pathIndex == old(pathIndex) + 1 && State() == old(State())
      ensures !Arrived(old(State()), path[old(pathIndex)], sqrt) ==>
        pathIndex == old(pathIndex) && State() == Pursue(grid, old(State()), path[old(pathIndex)], sqrt)
    {
      var next := path[pathIndex];
      var targetX, targetY := TargetX(next), TargetY(next);
      var dx, dy := targetX - x, targetY - y;
      assert dx * dx + dy * dy == DistanceSquared(State(), next);
      var dist := sqrt(dx * dx + dy * dy);
      if dist < ArriveDistance {
        pathIndex := pathIndex + 1;
      } else {
        Steer(next, dist);
        CommitMove();
      }
    }

    /** The smoothing of the velocity toward route tile `next` at distance `dist`. */
    method Steer(next: Tile, dist: real)
      requires dist != 0.0
      modifies this
      ensures State() == Steered(old(State()), next, dist)
      ensures path == old(path) && pathIndex == old(pathIndex) && lastPathTime == old(lastPathTime)
    {
      var dx, dy := TargetX(next) - x, TargetY(next) - y;
      dx := dx / dist;
      dy := dy / dist;
      vx := vx + (dx * Speed - vx) * SteerStrength;
      vy := vy + (dy * Speed - vy) * SteerStrength;
    }

    /** `if (!isColliding(newX, y)) x = newX; else vx = 0;` and the same for y at the new x. */
    method CommitMove()
      modifies this
      ensures State() == Commit(grid, old(State()))
      ensures path == old(path) && pathIndex == old(pathIndex) && lastPathTime == old(lastPathTime)
    {
      CommitAxisX();
      CommitAxisY();
    }

    method CommitAxisX()
      modifies this
      ensures State() == CommitX(grid, old(State()))
      ensures path == old(path) && pathIndex == old(pathIndex) && lastPathTime == old(lastPathTime)
    {
      ghost var m := State();
      var newX := x + vx;
      var blocked := IsColliding(grid, newX, y);
      if !blocked { x := newX; } else { vx := 0.0; }
      assert State() == if !blocked then m.(x := newX) else m.(vx := 0.0);
    }

    method CommitAxisY()
      modifies this
      ensures State() == CommitY(grid, old(State()))
      ensures path == old(path) && pathIndex == old(pathIndex) && lastPathTime == old(lastPathTime)
    {
      ghost var m := State();
      var newY := y + vy;
      var blocked := IsColliding(grid, x, newY);
      if !blocked { y := newY; } else { vy := 0.0; }
      assert State() == if !blocked then m.(y := newY) else m.(vy := 0.0);
    }
  }
}
