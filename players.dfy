/** The player: movement that keeps a 2-pixel gap from every wall tile, the
    bleed-and-immunity hit counter, and the soul the player carries. */
module Players {
  import opened Awt
  import opened Maze
  import opened Souls

  const NormalSpeed: int := 4
  const SlowSpeed: int := 2
  const PlayerSize: int := 60

  /** The solid gap kept between the player's box and any wall. */
  const Gap: int := 2

  /** How long, in milliseconds, a bleeding player is immune to a second hit. */
  const ImmuneDuration: int := 5000

  /** Where `reset` puts the player. */
  const StartX: int := 640
  const StartY: int := 420

  // ------------------------------------------------------------ canMove

  /** The tile range `canMove` scans for a box at (nx, ny): the box grown by the gap on
      every side, converted with `Math.floor`, which on a positive divisor is Dafny's `/`. */
  function FirstCol(nx: int): int { (nx - Gap) / TileSize }
  function LastCol(nx: int): int { (nx + PlayerSize + Gap - 1) / TileSize }
  function FirstRow(ny: int): int { (ny - Gap) / TileSize }
  function LastRow(ny: int): int { (ny + PlayerSize + Gap - 1) / TileSize }

  /** The player's box at (nx, ny), grown by the gap, touches no wall tile. */
  predicate Free(grid: seq<string>, nx: int, ny: int) {
    forall r, c | FirstRow(ny) <= r <= LastRow(ny) && FirstCol(nx) <= c <= LastCol(nx) ::
      !IsWallTile(grid, r, c)
  }

  /** `canMove(newX, newY)`: the nested scan that stops at the first wall tile. */
  method CanMove(grid: seq<string>, nx: int, ny: int) returns (ok: bool)
    ensures ok <==> Free(grid, nx, ny)
  {
    var left, right := nx - Gap, nx + PlayerSize + Gap - 1;
    var top, bottom := ny - Gap, ny + PlayerSize + Gap - 1;
    var leftCol, rightCol := left / TileSize, right / TileSize;
    var topRow, bottomRow := top / TileSize, bottom / TileSize;
    var row := topRow;
    while row <= bottomRow
      invariant topRow <= row <= bottomRow + 1
      invariant forall r, c | topRow <= r < row && leftCol <= c <= rightCol :: !IsWallTile(grid, r, c)
    {
      var col := leftCol;
      while col <= rightCol
        invariant leftCol <= col <= rightCol + 1
        invariant forall c | leftCol <= c < col :: !IsWallTile(grid, row, c)
      {
        if IsWallTile(grid, row, col) {
          return false;
        }
        col := col + 1;
      }
      row := row + 1;
    }
    return true;
  }

  /** On the game's layout a position is free exactly when the player's box, with its gap,
      stays inside the border: 22 to 1118 across and 22 to 718 down. */
  lemma {:induction false} FreeOnGameMaze(nx: int, ny: int)
    ensures Free(MazeData, nx, ny) <==>
      Gap + TileSize <= nx <= (GameCols - 1) * TileSize - PlayerSize - Gap &&
      Gap + TileSize <= ny <= (GameRows - 1) * TileSize - PlayerSize - Gap
  {
    var inside := Gap + TileSize <= nx <= (GameCols - 1) * TileSize - PlayerSize - Gap &&
                  Gap + TileSize <= ny <= (GameRows - 1) * TileSize - PlayerSize - Gap;
    if inside {
      forall r, c | FirstRow(ny) <= r <= LastRow(ny) && FirstCol(nx) <= c <= LastCol(nx)
        ensures !IsWallTile(MazeData, r, c)
      {
        GameWallTiles(r, c);
      }
    } else {
      var r, c := FirstRow(ny), FirstCol(nx);
      if nx > (GameCols - 1) * TileSize - PlayerSize - Gap {
        c := LastCol(nx);
      }
      if ny > (GameRows - 1) * TileSize - PlayerSize - Gap {
        r := LastRow(ny);
      }
      GameWallTiles(r, c);
      assert IsWallTile(MazeData, r, c);
    }
  }

  /** The restart position is free on the game's layout. */
  lemma StartIsFree()
    ensures Free(MazeData, StartX, StartY)
  {
    FreeOnGameMaze(StartX, StartY);
  }

  // ------------------------------------------------------------ update

  /** The step one axis takes: `-speed` for the negative key, `+speed` for the positive
      one, both applied, so opposite keys cancel. */
  function Step(negative: bool, positive: bool, speed: int): (d: int)
    ensures d == -speed || d == 0 || d == speed
    ensures negative == positive ==> d == 0
    ensures negative && !positive ==> d == -speed
    ensures positive && !negative ==> d == speed
  {
    (if negative then -speed else 0) + (if positive then speed else 0)
  }

  /** The position after one `update` from `p` with steps (dx, dy): first x moves when the
      new x is free at the old y, then y moves when the new y is free at the new x. */
  function Move(grid: seq<string>, p: Point, dx: int, dy: int): (q: Point)
    ensures q.x == p.x || (q.x == p.x + dx && Free(grid, q.x, p.y))
    ensures q.y == p.y || (q.y == p.y + dy && Free(grid, q.x, q.y))
    ensures Free(grid, p.x, p.y) ==> Free(grid, q.x, q.y)
  {
    var x := if Free(grid, p.x + dx, p.y) then p.x + dx else p.x;
    var y := if Free(grid, x, p.y + dy) then p.y + dy else p.y;
    Point(x, y)
  }

  /** One axis of `update`: step the coordinate by the two keys and commit the step when
      `canMove` allows the box there. */
  method StepAxis(grid: seq<string>, x: int, y: int, negative: bool, positive: bool, speed: int, horizontal: bool)
    returns (v: int)
    ensures var d := Step(negative, positive, speed);
      if horizontal then v == (if Free(grid, x + d, y) then x + d else x)
      else v == (if Free(grid, x, y + d) then y + d else y)
  {
    v := if horizontal then x else y;
    var next := v;
    if negative { next := next - speed; }
    if positive { next := next + speed; }
    var ok;
    if horizontal {
      ok := CanMove(grid, next, y);
    } else {
      ok := CanMove(grid, x, next);
    }
    if ok { v := next; }
  }

  /** The movement half of `update`: x first, then y at the new x. */
  method MoveAxes(grid: seq<string>, x: int, y: int, left: bool, right: bool, up: bool, down: bool, speed: int)
    returns (x': int, y': int)
    ensures Point(x', y') == Move(grid, Point(x, y), Step(left, right, speed), Step(up, down, speed))
  {
    x' := StepAxis(grid, x, y, left, right, speed, true);
    y' := StepAxis(grid, x', y, up, down, speed, false);
  }

  /** A player that is free and moves with the keys released stays where it is. */
  lemma {:induction false} NoKeysNoMove(grid: seq<string>, p: Point, speed: int)
    requires Free(grid, p.x, p.y)
    ensures Move(grid, p, Step(false, false, speed), Step(false, false, speed)) == p
  {
  }

  // ------------------------------------------------------------ the hit counter

  /** The fields `collideWithGhost` reads and writes. */
  datatype HitState = HitState(hitCount: int, bleedStartTime: int, speed: int)

  /** `collideWithGhost(now)`: the first hit starts bleeding and slows the player; a hit
      while bleeding kills only once the immunity has run out; a dead player stays dead. */
  function Collide(s: HitState, now: int): (t: HitState)
    ensures s.hitCount == 0 ==> t == HitState(1, now, SlowSpeed)
    ensures s.hitCount == 1 && now - s.bleedStartTime >= ImmuneDuration ==> t == s.(hitCount := 2)
    ensures t.hitCount != s.hitCount + 1 ==> t == s
  {
    if s.hitCount == 0 then HitState(1, now, SlowSpeed)
    else if s.hitCount == 1 then
      if now - s.bleedStartTime >= ImmuneDuration then s.(hitCount := 2) else s
    else s
  }

  /** `canBeHit(now)`: true exactly when a collision at `now` would count. */
  function CanBeHit(s: HitState, now: int): (b: bool)
    ensures b <==> Collide(s, now).hitCount == s.hitCount + 1
    ensures !b ==> Collide(s, now) == s
  {
    if s.hitCount == 0 then true
    else if s.hitCount == 1 then now - s.bleedStartTime >= ImmuneDuration
    else false
  }

  /** `isBleeding()`: hit once. A bleeding player is not dead, and the next hit counts
      once the immunity has run out. */
  predicate IsBleeding(s: HitState): (b: bool)
    ensures b <==> s.hitCount == 1
    ensures b ==> !IsDead(s)
    ensures b ==> forall now | now - s.bleedStartTime >= ImmuneDuration :: CanBeHit(s, now)
  {
    s.hitCount == 1
  }

  /** `isDead()`: hit twice or more. No later collision changes anything. */
  predicate IsDead(s: HitState): (b: bool)
    ensures b <==> s.hitCount >= 2
    ensures b ==> forall now :: Collide(s, now) == s
  {
    s.hitCount >= 2
  }

  /** The first hit makes a healthy player bleed, and a dead player cannot be hit again. */
  lemma HitProgress(s: HitState, now: int)
    ensures !IsBleeding(s) && !IsDead(s) && s.hitCount >= 0 ==> IsBleeding(Collide(s, now))
    ensures IsDead(s) ==> !CanBeHit(s, now) && IsDead(Collide(s, now))
    ensures IsBleeding(s) && now - s.bleedStartTime < ImmuneDuration ==> Collide(s, now) == s
  {
  }

  /** A run of collisions at the given times, in order. */
  function CollideAll(s: HitState, times: seq<int>): HitState
    decreases |times|
  {
    if times == [] then s else CollideAll(Collide(s, times[0]), times[1..])
  }

  /** Along any run of collisions the counter never decreases and never leaves 0..2. */
  lemma {:induction false} HitCountStaysInRange(s: HitState, times: seq<int>)
    requires 0 <= s.hitCount <= 2
    ensures s.hitCount <= CollideAll(s, times).hitCount <= 2
    decreases |times|
  {
    if times != [] {
      HitCountStaysInRange(Collide(s, times[0]), times[1..]);
    }
  }

  /** A bleeding player dies in a run only through a collision at least 5000 ms after
      bleeding began. */
  lemma {:induction false} DeathFromBleeding(s: HitState, times: seq<int>)
    requires s.hitCount == 1
    ensures CollideAll(s, times).hitCount == 2 ==>
      exists j | 0 <= j < |times| :: times[j] - s.bleedStartTime >= ImmuneDuration
    decreases |times|
  {
    if times != [] {
      var t := Collide(s, times[0]);
      if t.hitCount == 1 {
        DeathFromBleeding(t, times[1..]);
        if CollideAll(s, times).hitCount == 2 {
          var j :| 0 <= j < |times[1..]| && times[1..][j] - t.bleedStartTime >= ImmuneDuration;
          assert times[j + 1] - s.bleedStartTime >= ImmuneDuration;
        }
      }
    }
  }

  /** Starting healthy, dying takes two collisions at least 5000 ms apart: the first
      starts the bleeding, the second comes after the immunity. */
  lemma {:induction false} DeathNeedsTwoSpacedHits(s: HitState, times: seq<int>)
    requires s.hitCount == 0
    ensures CollideAll(s, times).hitCount == 2 ==>
      exists i, j | 0 <= i < j < |times| :: times[j] - times[i] >= ImmuneDuration
  {
    if times != [] {
      var t := Collide(s, times[0]);
      DeathFromBleeding(t, times[1..]);
      if CollideAll(s, times).hitCount == 2 {
        var j :| 0 <= j < |times[1..]| && times[1..][j] - t.bleedStartTime >= ImmuneDuration;
        assert times[j + 1] - times[0] >= ImmuneDuration;
      }
    }
  }

  // ------------------------------------------------------------ the player object

  class Player {
    var x: int
    var y: int
    var speed: int
    const grid: seq<string>
    var heldSoul: Soul?
    var hitCount: int
    var bleedStartTime: int
    var up: bool
    var down: bool
    var left: bool
    var right: bool

    constructor (x: int, y: int, grid: seq<string>)
      ensures this.x == x && this.y == y && this.grid == grid
      ensures speed == NormalSpeed && heldSoul == null && hitCount == 0 && bleedStartTime == 0
      ensures !up && !down && !left && !right
    {
      this.x, this.y, this.grid := x, y, grid;
      speed, heldSoul, hitCount, bleedStartTime := NormalSpeed, null, 0, 0;
      up, down, left, right := false, false, false, false;
    }

    function Position(): Point
      reads this
    {
      Point(x, y)
    }

    function Hits(): HitState
      reads this
    {
      HitState(hitCount, bleedStartTime, speed)
    }

    /** `getBounds`: the size-by-size box at the player's corner. */
    function Bounds(): (r: Rect)
      reads this
      ensures r == Rect(x, y, PlayerSize, PlayerSize)
    {
      Rect(x, y, PlayerSize, PlayerSize)
    }

    /** `getTileRow`: the row of the tile under the centre of the player's box. */
    function TileRow(): (row: int)
      reads this
      ensures row * TileSize <= y + PlayerSize / 2 < (row + 1) * TileSize
    {
      (y + PlayerSize / 2) / TileSize
    }

    /** `getTileCol`: the column of the tile under the centre of the player's box. */
    function TileCol(): (col: int)
      reads this
      ensures col * TileSize <= x + PlayerSize / 2 < (col + 1) * TileSize
    {
      (x + PlayerSize / 2) / TileSize
    }

    /** `update(now)`: move along x, then along y, each only where `canMove` allows, and
        restore the normal speed once a bleeding player's immunity has run out. */
    method Update(now: int)
      modifies this
      ensures Position() == Move(grid, old(Position()), Step(old(left), old(right), old(speed)), Step(old(up), old(down), old(speed)))
      ensures speed == if old(hitCount) == 1 && now - old(bleedStartTime) >= ImmuneDuration then NormalSpeed else old(speed)
      ensures hitCount == old(hitCount) && bleedStartTime == old(bleedStartTime) && heldSoul == old(heldSoul)
      ensures up == old(up) && down == old(down) && left == old(left) && right == old(right)
    {
      var nx, ny := MoveAxes(grid, x, y, left, right, up, down, speed);
      x, y := nx, ny;
      if hitCount == 1 {
        if now - bleedStartTime >= ImmuneDuration {
          speed := NormalSpeed;
        }
      }
    }

    /** `collideWithGhost(now)`. */
    method CollideWithGhost(now: int)
      modifies this
      ensures Hits() == Collide(old(Hits()), now)
      ensures x == old(x) && y == old(y) && heldSoul == old(heldSoul)
      ensures up == old(up) && down == old(down) && left == old(left) && right == old(right)
    {
      if hitCount == 0 {
        hitCount := 1;
        speed := SlowSpeed;
        bleedStartTime := now;
      } else if hitCount == 1 {
        if now - bleedStartTime >= ImmuneDuration {
          hitCount := 2;
        }
      }
    }

    /** `reset`: back to the start, healthy, at normal speed, with no key held. The bleed
        start time and the held soul are left as they were. */
    method Reset()
      modifies this
      ensures speed == NormalSpeed && hitCount == 0 && x == StartX && y == StartY
      ensures !up && !down && !left && !right
      ensures bleedStartTime == old(bleedStartTime) && heldSoul == old(heldSoul)
    {
      speed := NormalSpeed;
      hitCount := 0;
      x := StartX;
      y := StartY;
      Stop();
    }

    /** `stop`: releases every direction key. */
    method Stop()
      modifies this
      ensures !up && !down && !left && !right
      ensures x == old(x) && y == old(y) && speed == old(speed) && heldSoul == old(heldSoul)
      ensures hitCount == old(hitCount) && bleedStartTime == old(bleedStartTime)
    {
      up, down, left, right := false, false, false, false;
    }

    /** `pickUpSoul`. */
    method PickUpSoul(soul: Soul?)
      modifies this
      ensures heldSoul == soul
      ensures x == old(x) && y == old(y) && speed == old(speed) && Hits() == old(Hits())
      ensures up == old(up) && down == old(down) && left == old(left) && right == old(right)
    {
      heldSoul := soul;
    }

    /** `dropSoul(x, y)`: puts the held soul down at the given corner and lets go of it;
        with nothing held it does nothing. */
    method DropSoul(px: int, py: int)
      modifies this, heldSoul
      ensures old(heldSoul) != null ==> old(heldSoul).x == px && old(heldSoul).y == py
      ensures heldSoul == null
      ensures x == old(x) && y == old(y) && speed == old(speed) && Hits() == old(Hits())
      ensures up == old(up) && down == old(down) && left == old(left) && right == old(right)
    {
      if heldSoul != null {
        heldSoul.SetPosition(px, py);
        heldSoul := null;
      }
    }

    /** `removeHeldSoul`: lets go of the soul without moving it. */
    method RemoveHeldSoul()
      modifies this
      ensures heldSoul == null
      ensures x == old(x) && y == old(y) && speed == old(speed) && Hits() == old(Hits())
      ensures up == old(up) && down == old(down) && left == old(left) && right == old(right)
    {
      heldSoul := null;
    }
  }
}
