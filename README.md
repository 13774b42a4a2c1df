# SoulMaze game logic in Dafny

SoulMaze is a Swing chase game. The player walks a 40-by-60 tile maze, picks up
souls and brings them to the grave of the same colour. Ghosts hunt the player along
breadth-first routes, and a quiz decides some outcomes. This project models the integer
and grid logic of the game and proves properties about it. Drawing, audio, threads and
files are not modelled.

One Dafny module per source file:

| module | file | what it holds |
|---|---|---|
| `Maze` | `maze.dfy` | The character grid, `isWallTile` and `isWall`, and the game's own layout. It also holds the row-by-row scan that collects the cell corners holding a given character (used by Grave and Soul). |
| `GhostPath` | `ghost_path.dfy` | `Ghost.computePath`: the 4-connected BFS over a `visited` array with a FIFO queue and a parent map, then the rebuild along the parent links. |
| `Ghosts` | `ghost.dfy` | The `Ghost` class: when a route is replanned, the path cursor, the wall test under the shrunken box, the per-axis commit, and `collidesWith`. |
| `Players` | `players.dfy` | The `Player` class: `canMove`, one-axis-at-a-time movement, the hit counter (bleeding, immunity, death) and the held soul. |
| `Graves` | `graves.dfy` | Grave selection in `generateGraves`, and `getBounds`. |
| `Souls` | `souls.dfy` | The `Soul` class, soul placement in `generateSouls`, and `respawn`. |
| `Levels` | `levels.dfy` | `LevelManager`: the level counter capped at 18, the score, and the number of souls and ghosts per level. |
| `Scores` | `scores.dfy` | `ScoreManager`: the `name:score` line format, the descending comparator, the stable sort, saving and the top-N slice. |
| `Questions` | `questions.dfy` | `Question`: `normalize`, the constructor, `fromLine` and `matches`. |
| `JavaInt`, `Awt`, `JavaText`, `Wrappers` | `java_int.dfy`, `awt.dfy`, `java_text.dfy` | The Java behaviour the game relies on: truncating `/`, `(int)` of a double, 32-bit wrap-around, `Rectangle.intersects`, `trim`, ASCII `toLowerCase`, `indexOf`, `split`, `Integer.toString`/`parseInt`, and `Option` for `null`. |

Modelling decisions:

- **Grid.** The grid is a `seq<string>` parameter. `MazeData` is the game's literal
  layout, built as a border of 'X' around ' ' cells; `MazeDataShape` proves it has 40
  rows of 60 columns. The tile edge is 20. The comment beside that field says 32, but
  the field holds 20.
- **Missing grid dimensions.** `Maze` defines no `getRows`/`getCols`, but the ghost
  and the soul respawn call them. The model takes them as `|grid|` and the length of the
  first row (`Maze.Rows`, `Maze.Cols`).
- **Two kinds of division.** Java's int `/` truncates toward zero. It is modelled by
  `JavaInt.Div`, and `(int)` of a double by `JavaInt.Trunc`. They are used by `isWall`,
  the ghost's wall scan and both tile computations. `Player.canMove` and
  `getTileRow`/`getTileCol` use `Math.floor`, which is Dafny's `/` for a positive divisor.
- **Swapped `isWall` arguments.** `isWall` takes pixel coordinates `(x, y)`. Grave
  placement, the soul wall scan and `respawn` pass it tile indices as `(row, col)`.
  The model keeps these calls as written (`Graves.Skipped`, `Souls.OnWall`).
  `Maze.SwappedCallOnGameMaze` states what they compute on the game's layout.
- **Injected inputs.** The clock (`now`) is a parameter. So are the results of
  `Collections.shuffle`: a candidate list and a colour list, each required to be a
  permutation (equal multisets) of the list the method scans. So is `Math.sqrt`, as a
  function `sqrt` used by the ghost.
- **Doubles.** The ghost's position and velocity are exact reals. Floating-point
  rounding is not modelled.
- **Behaviour of the code worth noting.**
  - Contact is plain `Rectangle.intersects`; there is no minimum-overlap threshold.
  - The route planner does not check whether the start tile is a wall.
  - The ghost replans only on an empty path, an exhausted cursor, or an interval of
    more than 400 ms. A change in the player's tile does not trigger a replan.
  - Tile indices come from truncating division, not flooring.
  - The path leaves out the start tile.

## Model

| member | source | states |
|---|---|---|
| `JavaInt.Div` | src/main/Maze.java:65-66 | Java int division by a positive divisor rounds toward zero: quotient bounds for each sign of the dividend. |
| `JavaInt.Rem` | src/main/LevelManager.java:25 | Java `%` satisfies `a == Div(a,d)*d + r`, and `r` takes the sign of `a`. |
| `JavaInt.Wrap` | src/main/LevelManager.java:59 | Storing into an int wraps modulo 2^32 into the int range, and leaves in-range values unchanged. |
| `JavaInt.Trunc` | src/main/Ghost.java:32-33 | `(int)` of a double drops the fraction toward zero, for both signs. |
| `JavaInt.Abs` | src/main/Grave.java:91-92 | `Math.abs` returns `n` or `-n`, and the result is never negative. |
| `Awt.Intersects` | src/main/Ghost.java:142-144 | `Rectangle.intersects` is false for an empty rectangle; without overflow it is exactly strict geometric overlap. |
| `Awt.SquaresIntersect` | src/main/Soul.java:196 | Two s-by-s squares intersect iff their corners are less than s apart on both axes, so squares that only touch do not. |
| `Maze.IsWallTile` | src/main/Maze.java:74-79 | Out of bounds is wall; in bounds, wall iff the cell is 'X'. |
| `Maze.IsWall` | src/main/Maze.java:64-71 | For non-negative pixels this is `isWallTile(y/20, x/20)`; any coordinate at or below -20 is wall. |
| `Maze.NegativeSliverIsTileZero` | src/main/Maze.java:65-67 | Truncation maps pixels in (-20, 0) to tile 0, not out of bounds. |
| `Maze.MazeDataShape` | src/main/Maze.java:8-49 | The layout has 40 rows of 60 columns, 'X' on every border cell and ' ' everywhere else. |
| `Maze.GameWallTiles` | src/main/Maze.java:74-79 | On the game's layout a tile is wall iff it lies on or beyond the border. |
| `Maze.SwappedCallOnGameMaze` | src/main/Maze.java:64-71 | On the game's layout, `isWall(a, b)` with tile indices is true iff an index is below 20 or at least 59·20 (column) or 39·20 (row). |
| `Maze.RowCorners` | src/main/Grave.java:60-64 | The collected corners of one row are exactly the corners of that row's cells holding the character. |
| `Maze.RowCornersLeftToRight` | src/main/Grave.java:60-64 | A row's corners come in strictly increasing x order. |
| `Maze.CornersBefore` | src/main/Grave.java:59-65 | The first m rows contribute exactly the cell corners in those rows. |
| `Maze.Corners` | src/main/Soul.java:176-182 | A point is collected iff it is the pixel corner `(c·20, r·20)` of a cell holding the character. |
| `Maze.CollectCorners` | src/main/Grave.java:59-65 | The nested scan builds exactly `Corners` in row-major order. |
| `Maze.GameMazeHasNoGraveCells` | src/main/Grave.java:59-65 | The game's layout has no 'G' cell, so there are no grave candidates. |
| `GhostPath.Neighbour` | src/main/Ghost.java:89 | Each of the four directions tried gives a 4-adjacent tile. |
| `GhostPath.WalkEndsOpen` | src/main/Ghost.java:99-100 | A non-empty route ends on an open tile. |
| `GhostPath.BlockedGoalUnreachable` | src/main/Ghost.java:99-100 | A goal that is not the start and lies outside the grid or on a wall is unreachable. |
| `GhostPath.ShortestWalkIsSimple` | src/main/Ghost.java:112-115 | A shortest route never contains the start and never repeats a tile. |
| `GhostPath.ExtendOptimal` | src/main/Ghost.java:102-105 | Labelling a new neighbour with the current label plus one keeps every label a lower bound on route length. |
| `GhostPath.Dequeue` | src/main/Ghost.java:91-92 | Polling the FIFO queue gives the smallest label, and the rest spans at most two labels. |
| `GhostPath.AddTile` | src/main/Ghost.java:102-105 | Marking, linking and enqueueing a neighbour keeps the shortest-route tree, the frontier order and the closed set. |
| `GhostPath.ClosedSetContainsAllWalks` | src/main/Ghost.java:91-107 | When the queue runs dry, every route from the start ends on a visited tile. |
| `GhostPath.VisitNeighbour` | src/main/Ghost.java:96-105 | One direction: skips tiles out of bounds, visited or wall; otherwise marks, labels, links and enqueues. |
| `GhostPath.ExpandNeighbours` | src/main/Ghost.java:95-106 | After the four directions, every open neighbour of the polled tile is visited and the queue stays layered. |
| `GhostPath.TracePath` | src/main/Ghost.java:110-115 | The rebuild stops, gives a route from the start to the goal whose length is the goal's BFS label, and is empty iff the goal has no parent. |
| `GhostPath.SearchOutcome` | src/main/Ghost.java:91-115 | Once the search stops, the rebuilt path is empty iff goal == start or the goal is unreachable, and no route is shorter. |
| `GhostPath.Search` | src/main/Ghost.java:86-107 | The BFS loop terminates with the goal visited or every visited tile expanded, and keeps a shortest-route parent tree. |
| `GhostPath.ComputePath` | src/main/Ghost.java:75-116 | The path is a 4-adjacent route over open tiles that leaves out the start and ends at the goal. It is the shortest such route, and it is empty iff goal == start or the goal is unreachable. The start must be in the grid. |
| `Ghosts.IsColliding` | src/main/Ghost.java:118-134 | True iff some wall tile lies in rows `trunc(ny+1)/20 .. trunc(ny+18)/20` and columns `trunc(nx+1)/20 .. trunc(nx+18)/20`. |
| `Ghosts.TruncThenDiv` | src/main/Ghost.java:121-127 | Truncating then int-dividing by 20 equals truncating the real quotient. |
| `Ghosts.CentreTileInScan` | src/main/Ghost.java:32-33 | The ghost's own tile lies inside the range its wall scan covers, on each axis. |
| `Ghosts.ClearGhostTileIsOpen` | src/main/Ghost.java:32-39 | A ghost whose box touches no wall stands on a non-wall tile, so the planner never starts from a wall. |
| `Ghosts.DistanceSquared` | src/main/Ghost.java:50-52 | The squared distance to the node's corner is never negative. |
| `Ghosts.ArrivedIffNear` | src/main/Ghost.java:52-55 | With a true square root, `dist < 2` iff the squared distance is below 4. |
| `Ghosts.Steered` | src/main/Ghost.java:58-61 | Steering changes only the velocity, never the position. |
| `Ghosts.CommitX` | src/main/Ghost.java:67-68 | x takes `x + vx` only where the box is wall-free; otherwise x stays and vx becomes 0. y and vy are untouched. |
| `Ghosts.CommitY` | src/main/Ghost.java:69-70 | y takes `y + vy` only where the box at the new x is wall-free; otherwise y stays and vy becomes 0. |
| `Ghosts.Commit` | src/main/Ghost.java:63-70 | A ghost clear of walls before the per-axis commit is still clear after it. |
| `Ghosts.Pursue` | src/main/Ghost.java:56-71 | A steering tick never moves a wall-free ghost into a wall. |
| `Ghosts.Ghost.constructor` | src/main/Ghost.java:22-26 | Position as given, zero velocity, no path, cursor 0, plan time 0. |
| `Ghosts.Ghost.CollidesWith` | src/main/Ghost.java:141-145 | Contact iff the 20×20 box at the truncated position and the player's 60×60 box overlap strictly on both axes. |
| `Ghosts.Ghost.Update` | src/main/Ghost.java:28-73 | Replans exactly when the path is empty, the cursor is past its end, or more than 400 ms have passed; then the cursor is 0 and the plan time is `now`. Without a replan, the route and the plan time are unchanged. The cursor advances by at most one, and the position does not change on that tick. Otherwise the ghost steers and commits. |
| `Ghosts.Ghost.Follow` | src/main/Ghost.java:44-72 | On arrival the cursor advances and the position stays; otherwise steer then commit. |
| `Ghosts.Ghost.Steer` | src/main/Ghost.java:57-61 | The velocity update toward the node, with nothing else changed. |
| `Ghosts.Ghost.CommitMove` | src/main/Ghost.java:63-70 | The x commit, then the y commit at the new x. |
| `Ghosts.Ghost.CommitAxisX` | src/main/Ghost.java:67-68 | The x half of the commit on the object's fields. |
| `Ghosts.Ghost.CommitAxisY` | src/main/Ghost.java:69-70 | The y half of the commit on the object's fields. |
| `Players.CanMove` | src/main/Player.java:70-96 | False iff some wall tile lies in rows `floor((ny-2)/20) .. floor((ny+61)/20)` and columns `floor((nx-2)/20) .. floor((nx+61)/20)`. |
| `Players.FreeOnGameMaze` | src/main/Player.java:70-96 | On the game's layout a position is free iff 22 ≤ x ≤ 1118 and 22 ≤ y ≤ 718. |
| `Players.StartIsFree` | src/main/Player.java:193-199 | The reset position (640, 420) is free on the game's layout. |
| `Players.Step` | src/main/Player.java:46-51 | Each axis moves by -speed, 0 or +speed, and opposite keys cancel. |
| `Players.Move` | src/main/Player.java:41-52 | x changes only to a free position at the old y; y changes only to a free position at the new x. A free player stays free. |
| `Players.StepAxis` | src/main/Player.java:42-52 | One axis: step by the keys and commit only where `canMove` holds. |
| `Players.MoveAxes` | src/main/Player.java:41-52 | The movement half of `update` computes `Move`. |
| `Players.NoKeysNoMove` | src/main/Player.java:41-52 | With no key held, a free player does not move. |
| `Players.Collide` | src/main/Player.java:160-174 | 0 → 1 with slow speed and the bleed time set to now; 1 → 2 only once 5000 ms have passed; any other call changes nothing. |
| `Players.CanBeHit` | src/main/Player.java:183-190 | True exactly when `collideWithGhost` at the same time would increase the counter. |
| `Players.IsBleeding` | src/main/Player.java:175-177 | `hitCount` is 1; a bleeding player is not dead and can be hit again once the 5000 ms immunity has passed. |
| `Players.IsDead` | src/main/Player.java:179-181 | `hitCount` is at least 2; no later collision changes the hit state. |
| `Players.HitProgress` | src/main/Player.java:160-181 | The first hit makes the player bleed; a dead player cannot be hit and stays dead; a hit during immunity changes nothing. |
| `Players.HitCountStaysInRange` | src/main/Player.java:160-174 | Over any sequence of collisions the counter never decreases and never exceeds 2. |
| `Players.DeathFromBleeding` | src/main/Player.java:168-173 | A bleeding player dies only from a collision at least 5000 ms after the bleeding began. |
| `Players.DeathNeedsTwoSpacedHits` | src/main/Player.java:160-174 | From healthy, death needs two collisions at least 5000 ms apart. |
| `Players.Player.constructor` | src/main/Player.java:35-39 | Position as given, normal speed, no soul, healthy, no key held. |
| `Players.Player.Bounds` | src/main/Player.java:63-65 | The 60×60 box at the player's corner. |
| `Players.Player.TileRow` | src/main/Player.java:152-154 | The row whose band of pixels contains the centre `y + 30`. |
| `Players.Player.TileCol` | src/main/Player.java:156-158 | The column whose band of pixels contains the centre `x + 30`. |
| `Players.Player.Update` | src/main/Player.java:41-61 | The position becomes `Move` of the old one. The speed returns to normal when a bleeding player's immunity has passed. Nothing else changes. |
| `Players.Player.CollideWithGhost` | src/main/Player.java:160-174 | The hit fields become `Collide` of the old ones; position, keys and soul are unchanged. |
| `Players.Player.Reset` | src/main/Player.java:193-199 | Normal speed, healthy, at (640, 420), no key held. |
| `Players.Player.Stop` | src/main/Player.java:147-149 | All four direction flags cleared, nothing else changed. |
| `Players.Player.PickUpSoul` | src/main/Player.java:98-100 | Holds the given soul. |
| `Players.Player.DropSoul` | src/main/Player.java:102-107 | A held soul moves to the given point and is released; with nothing held, nothing changes. |
| `Players.Player.RemoveHeldSoul` | src/main/Player.java:109-111 | Releases the soul without moving it. |
| `Graves.Bounds` | src/main/Grave.java:49-51 | The 50×50 square at the grave's corner. |
| `Graves.AnyTooClose` | src/main/Grave.java:86-98 | True iff some chosen grave is within 2 tiles on both axes. |
| `Graves.ShuffledColorsDistinct` | src/main/Grave.java:71-75 | A permutation of the six colours has six entries, all distinct. |
| `Graves.ConsiderCandidate` | src/main/Grave.java:78-106 | A candidate becomes a grave with the next colour iff it passes the swapped wall test, is not too close, and a colour is left. |
| `Graves.GenerateGraves` | src/main/Grave.java:53-110 | Graves are at most `count`, at most 6, and at most the number of candidates. Grave i has colour i, and colours are distinct. Each grave sits on a 'G' corner that passes the swapped wall test. Any two graves are more than 2 tiles apart on some axis, and candidate order is kept. Stopping short leaves every candidate rejected. |
| `Graves.PlacedOutcome` | src/main/Grave.java:77-109 | After the loop, the chosen graves have distinct colours, sit on 'G' corners, and number at most 6. |
| `Graves.SpacedGravesDoNotOverlap` | src/main/Grave.java:85-98 | Two graves that pass the spacing test have disjoint 50×50 boxes. |
| `Graves.NoGravesOnGameMaze` | src/main/Grave.java:58-65 | On the game's layout there are no candidates and no graves. |
| `Souls.Soul.constructor` | src/main/Soul.java:37-41 | Position and colour as given. |
| `Souls.Soul.Bounds` | src/main/Soul.java:115-117 | The 50×50 box at the soul's corner. |
| `Souls.Soul.SetPosition` | src/main/Soul.java:120 | Moves the soul to the given point. |
| `Souls.SpotPoints` | src/main/Soul.java:228 | The corners of the chosen souls, in order. |
| `Souls.OverlapsSoul` | src/main/Soul.java:194-200 | True iff the candidate box intersects some chosen soul. |
| `Souls.OverlapsGrave` | src/main/Soul.java:203-210 | True iff the candidate box intersects some grave. |
| `Souls.WallUnder` | src/main/Soul.java:212-225 | True iff the swapped `isWall(r, c)` holds for some r, c in the 3×3 block of indices from the corner's tile. |
| `Souls.FindSpot` | src/main/Soul.java:188-232 | Returns the first candidate that fits, or none when no candidate fits. |
| `Souls.AddSpot` | src/main/Soul.java:227-228 | Adding a fitting soul with the next grave's colour keeps the souls pairwise disjoint and clear of graves and walls. |
| `Souls.MoveCandidate` | src/main/Soul.java:228-230 | Removing the used candidate keeps the remaining candidates plus the chosen souls a permutation of the candidates, so no tile is used twice. |
| `Souls.PlaceSouls` | src/main/Soul.java:170-236 | At most one soul per grave, and soul k takes the colour of grave k. No soul overlaps an earlier soul, a grave or a wall. Every soul sits on a ' ' corner, and each candidate is used at most once. |
| `Souls.MakeSouls` | src/main/Soul.java:228 | One fresh, distinct `Soul` object per chosen spot, with its position and colour. |
| `Souls.GenerateSouls` | src/main/Soul.java:170-236 | One new, distinct soul per chosen spot: the k-th takes the k-th grave's colour, no soul meets a grave, a wall or another soul, every candidate is used at most once, and fewer souls than graves only when no unused candidate fits. |
| `Souls.ChosenSoulsApart` | src/main/Soul.java:194-200 | Any two generated souls are at least 50 pixels apart on some axis. |
| `Souls.FirstFree` | src/main/Soul.java:152-159 | The index of the first shuffled cell that passes the swapped wall test, or the list length if none does. |
| `Souls.RespawnSpot` | src/main/Soul.java:148-163 | None iff there is no ' ' cell. Otherwise a candidate cell: one that passes the test whenever any does. |
| `Souls.Respawn` | src/main/Soul.java:131-164 | With no ' ' cell the soul stays; otherwise it moves to `RespawnSpot`. |
| `Souls.FirstFreeIsFirst` | src/main/Soul.java:152-159 | The loop's stopping index is `FirstFree`. |
| `Souls.RespawnOnGameMaze` | src/main/Soul.java:150-158 | On the game's layout a respawned soul always lands at x ≥ 400 and y ≥ 400. |
| `Levels.SoulsFor` | src/main/LevelManager.java:24-26 | For level ≥ 1 the count is `((level-1) mod 6) + 1`, which lies in 1..6. |
| `Levels.SoulsCycle` | src/main/LevelManager.java:24-26 | The soul count repeats every six levels. |
| `Levels.GhostsFor` | src/main/LevelManager.java:31-39 | 1 for levels up to 6, 2 up to 12, 3 beyond; within 1..18 this is `(level-1)/6 + 1`. |
| `Levels.LevelFromBandAndSouls` | src/main/LevelManager.java:6-11 | Ghost band and soul count together determine the level within 1..18. |
| `Levels.Describe` | src/main/LevelManager.java:99 | The text starts with "Level ", and for non-negative numbers reading it back gives the level, the souls and the ghosts it was made from. |
| `Levels.DescriptionReadsBack` | src/main/LevelManager.java:96-100 | "Level %d: %d Souls, %d Ghosts" read back gives all three numbers. |
| `Levels.DescriptionsDiffer` | src/main/LevelManager.java:99 | Different level, soul or ghost counts give different descriptions. |
| `Levels.LevelManager.constructor` | src/main/LevelManager.java:13-19 | Level 1, score 0. |
| `Levels.LevelManager.SoulsPerLevel` | src/main/LevelManager.java:24-26 | Between 1 and 6 in every valid state. |
| `Levels.LevelManager.GhostCount` | src/main/LevelManager.java:31-39 | The ghost band of the current level. |
| `Levels.LevelManager.AddScore` | src/main/LevelManager.java:58-60 | The score grows by the points, with int wrap-around; the level is unchanged. |
| `Levels.LevelManager.IsLevelCompleted` | src/main/LevelManager.java:65-67 | True iff no grave remains. |
| `Levels.LevelManager.NextLevel` | src/main/LevelManager.java:72-76 | One level up below 18, stays at 18; the level stays in 1..18 and the score is unchanged. |
| `Levels.LevelManager.IsGameCompleted` | src/main/LevelManager.java:81-83 | False in every reachable state. |
| `Levels.LevelManager.Reset` | src/main/LevelManager.java:88-91 | Level 1, score 0. |
| `Levels.LevelManager.LevelDescription` | src/main/LevelManager.java:96-100 | In every valid state the description reads back as the current level, `getSoulsPerLevel()` and `getGhostCount()`. |
| `Levels.LevelAfterCaps` | src/main/LevelManager.java:72-76 | After n advances from a fresh start the level is min(n+1, 18). |
| `Scores.CompareTo` | src/main/ScoreManager.java:19-22 | Negative iff this score is higher, zero iff equal, positive iff lower. |
| `Scores.CompareToAntisymmetric` | src/main/ScoreManager.java:19-22 | `compareTo(a, b) == -compareTo(b, a)`. |
| `Scores.Format` | src/main/ScoreManager.java:25-27 | The line is the name followed by ':' and then the score. |
| `Scores.ParseLine` | src/main/ScoreManager.java:60-69 | An entry exactly when `split(":")` gives two pieces and the second parses as an int. The name is the first piece and the score is the parsed value (so "a:007" gives 7). The name has no ':'. |
| `Scores.ParseFormat` | src/main/ScoreManager.java:25-27 | Format then parse returns the same entry whenever the name has no ':'. |
| `Scores.TrailingSeparatorIgnored` | src/main/ScoreManager.java:60-61 | `split` drops the trailing empty piece, so `name:score:` still parses. |
| `Scores.ColonInNameIsLost` | src/main/ScoreManager.java:60-61 | A name holding ':' is written but never read back. |
| `Scores.DescendingByCompare` | src/main/ScoreManager.java:19-22 | Sorted by `compareTo` is the same as non-increasing scores. |
| `Scores.InsertAddsOne` | src/main/ScoreManager.java:36-39 | Inserting adds exactly the new entry. |
| `Scores.InsertKeepsOrder` | src/main/ScoreManager.java:36-39 | Inserting into a sorted list keeps it sorted. |
| `Scores.Sort` | src/main/ScoreManager.java:79 | The result is in non-increasing order and a permutation of the input. |
| `Scores.SortAppend` | src/main/ScoreManager.java:36-39 | Sorting a sorted list with one appended entry inserts that entry. |
| `Scores.SortIsStable` | src/main/ScoreManager.java:79 | Entries with equal scores keep their order. |
| `Scores.SortOfSorted` | src/main/ScoreManager.java:79 | An already sorted list is left unchanged. |
| `Scores.Parsed` | src/main/ScoreManager.java:59-70 | The parsed entries number at most the lines; no name has ':'. |
| `Scores.ParsedFormatAll` | src/main/ScoreManager.java:42-46 | Writing entries then reading them back gives the same entries. |
| `Scores.LoadScores` | src/main/ScoreManager.java:54-81 | The lines that parse, in file order, then stably sorted. |
| `Scores.WriteLines` | src/main/ScoreManager.java:43-45 | One `toString` line per entry, in order. |
| `Scores.SaveScore` | src/main/ScoreManager.java:30-52 | Writes sort(old ++ [new]), whose length is one more than the number of loaded entries. |
| `Scores.SavedScoresReload` | src/main/ScoreManager.java:30-81 | Loading a saved file gives back the saved list, if the new name has no ':'. |
| `Scores.GetTopScores` | src/main/ScoreManager.java:83-86 | The first min(n, size) sorted entries, each scoring at least as much as any left out; requires n ≥ 0. |
| `JavaText.Trim` | src/main/Question.java:48 | The result has no leading or trailing character ≤ ' ' and is the middle of the input. Already-trimmed text is unchanged. |
| `JavaText.ToLower` | src/main/Question.java:48 | Same length; each ASCII upper-case letter is lowered and nothing else changes. |
| `JavaText.IndexOf` | src/main/Question.java:24 | The first occurrence, or -1 when there is none. |
| `JavaText.SplitAll` | src/main/ScoreManager.java:60 | The pieces between separators; none contains the separator. |
| `JavaText.JoinSplitAll` | src/main/ScoreManager.java:60 | Joining the pieces with the separator gives the input back. |
| `JavaText.DropTrailingEmpty` | src/main/ScoreManager.java:60 | A prefix of the pieces that keeps all but the trailing empty ones. |
| `JavaText.Split` | src/main/ScoreManager.java:60 | No piece contains the separator; with no separator the result is the whole string. |
| `JavaText.IntToString` | src/main/ScoreManager.java:26 | Decimal digits, with a leading '-' for negatives. |
| `JavaText.ParseInt` | src/main/ScoreManager.java:64 | Accepts exactly an optional '+' or '-' followed by at least one digit whose value fits an int, and then returns that value (so "007" gives 7 and "+5" gives 5); anything else is rejected. |
| `JavaText.ParseIntToString` | src/main/ScoreManager.java:26 | Every int's decimal text parses back to it. |
| `Questions.Normalize` | src/main/Question.java:47-49 | null gives ""; any other text gives its trimmed form lower-cased, so the result is trimmed and has no upper-case letter. |
| `Questions.NormalizeIdempotent` | src/main/Question.java:47-49 | Normalizing twice is normalizing once. |
| `Questions.NormalizeAll` | src/main/Question.java:14-18 | No more answers than given (nulls are dropped). |
| `Questions.NormalizeAllMembers` | src/main/Question.java:13-18 | A stored answer is exactly the normalized form of some non-null given answer. |
| `Questions.NewQuestion` | src/main/Question.java:11-19 | The prompt is as given, and every stored answer is already normalized. |
| `Questions.MatchesGivenAnswer` | src/main/Question.java:39-45 | An input matches iff it normalizes to the same text as some non-null given answer. |
| `Questions.Matches` | src/main/Question.java:39-45 | True iff the normalized input is among the stored answers. |
| `Questions.MatchEnd` | src/main/Question.java:35 | A match of `\s+or\s+` starts on a blank and spans at least four characters. |
| `Questions.NextMatch` | src/main/Question.java:35 | The leftmost match at or after the given position, or none. |
| `Questions.SplitOrAll` | src/main/Question.java:35 | The pieces between matches of `(?i)\s+or\s+`; no piece holds a match. |
| `Questions.SplitOrSeparators` | src/main/Question.java:35 | The text each match covers is a separator (a `\s` run, "or" in any case, a `\s` run), and the pieces rejoined with these give the text back. |
| `Questions.SplitOr` | src/main/Question.java:35 | With no match, the whole text is the only piece; otherwise the last piece is not empty. No piece holds a match. |
| `Questions.FromLine` | src/main/Question.java:21-37 | With no " - " in the body, the prompt is the body and the only answer is "". Otherwise the prompt is the trimmed text before the first " - ". All answers are normalized. |
| `Questions.BlankMatchesWithoutSeparator` | src/main/Question.java:28-31 | For a line without " - ", a blank or null input matches. |
| `Questions.BodyOfNumberedLine` | src/main/Question.java:23-27 | Everything up to and including the first ") " is stripped. |
| `Questions.SplitOrJoin` | src/main/Question.java:35 | Answers, multi-word ones included, joined by separators in any letter case and with any runs of `\s`, split back into the same answers. |
| `Questions.FromWellFormedLine` | src/main/Question.java:21-37 | `n) prompt - a OR b ...`, with any separators, reads back as that prompt and those answers, lower-cased. |
| `Questions.CityLine` | src/main/Question.java:21-37 | "7) Capital? - New York OR\tNYC" reads back as the prompt "Capital?" and the answers "new york" and "nyc". |

## Left out

- Drawing, sprites, the soul glow animation (`Soul.update`, a float phase), and `Checkpoint`: presentation only.
- Audio (`AudioManager`, `SoundSystem`, `Jumpscare`, `GameOverSequence`): no game logic, and floating-point easing.
- Swing UI (`MainMenu`, `NameInputDialog`, `RankingPanel`, `TransitionPanel`, `GameOverPanel`, `GameMain`) and the `GamePanel` loop with its thread and `sleep`: event-loop shell.
- Score file I/O: the file is modelled as its list of lines. Reading and writing, and the
  messages printed on errors, are left out.
- Random shuffles and the clock: they are parameters, constrained to be permutations of the scanned list.
- `Math.sqrt` is a parameter; floating-point rounding of the ghost's doubles is not modelled (positions and velocities are exact reals).
- `toLowerCase` is modelled over ASCII only (only 'A'..'Z' change), and `split("(?i)\\s+or\\s+")` over the six `\s` characters and ASCII case folding of "or". `trim` follows Java's rule exactly: every char up to ' ' is stripped.
- `JavaText.ParseInt`: only the ASCII digits '0'..'9' are read; `Integer.parseInt` also accepts other Unicode decimal digits.
- `JavaInt.Trunc`: `(int)` of a double is modelled as plain truncation; Java's clamping to the int range and NaN to 0 are not modelled (the ghost's coordinates stay inside the maze).
- `JavaInt.Abs`: always non-negative; `Math.abs(Integer.MIN_VALUE)` is negative in Java, which the pixel differences Grave takes never reach.
- `Scores.GetTopScores`: requires a non-negative count; `subList(0, count)` with a negative count throws in Java, and the exception is not modelled.
- `Players.Player.Update`: player coordinates are unbounded integers, so `int` overflow far outside the maze is not modelled.
- `Ghosts.Ghost.Update`: the route planner needs the ghost's tile inside the grid (the Java code would throw otherwise); the model requires it for a replanning tick.
- `Player.keyPressed`/`keyReleased`: key-code mapping to the four flags is input handling; the flags are modelled as fields.
- `getCurrentLevel`, `getScore`, `getHeldSoul`, `isHoldingSoul`, `getColor`: plain field reads.
