/** The pursuer's route planner (`Ghost.computePath`): a breadth-first search over
    4-connected open tiles, followed by a walk back along the parent links. */
module GhostPath {
  import opened Maze

  /** A tile; the search keeps it as `Point(col, row)`. */
  datatype Tile = Tile(row: int, col: int)

  /** Inside the rows-by-cols area the search allocates `visited` for. */
  predicate InGrid(grid: seq<string>, t: Tile) {
    0 <= t.row < Rows(grid) && 0 <= t.col < Cols(grid)
  }

  /** A tile the search may step onto: inside that area and not a wall. */
  predicate Open(grid: seq<string>, t: Tile) {
    InGrid(grid, t) && !IsWallTile(grid, t.row, t.col)
  }

  /** The four neighbours in the order the search tries them: right, left, down, up. */
  function Neighbour(t: Tile, i: nat): (n: Tile)
    requires i < 4
    ensures Adjacent(t, n)
  {
    if i == 0 then Tile(t.row, t.col + 1)
    else if i == 1 then Tile(t.row, t.col - 1)
    else if i == 2 then Tile(t.row + 1, t.col)
    else Tile(t.row - 1, t.col)
  }

  /** One step apart horizontally or vertically. */
  predicate Adjacent(a: Tile, b: Tile) {
    (a.row == b.row && (a.col + 1 == b.col || a.col - 1 == b.col)) ||
    (a.col == b.col && (a.row + 1 == b.row || a.row - 1 == b.row))
  }

  /** A route leaving `from` (which it does not list): every tile open and each one
      adjacent to the one before. */
  ghost predicate IsWalk(grid: seq<string>, from: Tile, p: seq<Tile>)
    decreases |p|
  {
    p == [] || (Open(grid, p[0]) && Adjacent(from, p[0]) && IsWalk(grid, p[0], p[1..]))
  }

  /** Where a route leaving `from` ends. */
  function End(from: Tile, p: seq<Tile>): (e: Tile)
    ensures p != [] ==> e == p[|p| - 1]
  {
    if p == [] then from else p[|p| - 1]
  }

  /** Some route from `start` arrives at `goal`. */
  ghost predicate Reachable(grid: seq<string>, start: Tile, goal: Tile) {
    exists q :: IsWalk(grid, start, q) && End(start, q) == goal
  }

  // ------------------------------------------------------------ search invariants

  /** Every open tile next to `t` has been visited. */
  ghost predicate NeighboursVisited(grid: seq<string>, t: Tile, dist: map<Tile, nat>) {
    forall n | Adjacent(t, n) && Open(grid, n) :: n in dist
  }

  /** No route reaches a visited tile in fewer steps than its label. */
  ghost predicate Optimal(grid: seq<string>, start: Tile, dist: map<Tile, nat>) {
    forall q | IsWalk(grid, start, q) && End(start, q) in dist :: dist[End(start, q)] <= |q|
  }

  /** The parent links: every visited tile but the start has one, one step closer. */
  ghost predicate ParentTree(grid: seq<string>, start: Tile, dist: map<Tile, nat>, parent: map<Tile, Tile>) {
    parent.Keys == dist.Keys - {start} &&
    forall t | t in parent ::
      parent[t] in dist && dist[t] == dist[parent[t]] + 1 && Adjacent(parent[t], t) && Open(grid, t)
  }

  /** The FIFO queue holds visited tiles in non-decreasing label order, spanning at most
      two consecutive labels. */
  ghost predicate Layered(dist: map<Tile, nat>, queue: seq<Tile>) {
    (forall i | 0 <= i < |queue| :: queue[i] in dist) &&
    forall i, j | 0 <= i <= j < |queue| :: dist[queue[i]] <= dist[queue[j]] <= dist[queue[i]] + 1
  }

  /** `visited[r][c]` is set exactly for the labelled tiles. */
  ghost predicate VisitedMatches(visited: array2<bool>, dist: map<Tile, nat>)
    reads visited
  {
    forall r, c | 0 <= r < visited.Length0 && 0 <= c < visited.Length1 :: visited[r, c] <==> Tile(r, c) in dist
  }

  // ------------------------------------------------------------ lemmas about routes

  /** A route splits at any point into a route and a route leaving where the first ends. */
  lemma {:induction false} WalkAppend(grid: seq<string>, from: Tile, a: seq<Tile>, b: seq<Tile>)
    ensures IsWalk(grid, from, a + b) <==> IsWalk(grid, from, a) && IsWalk(grid, End(from, a), b)
    ensures End(from, a + b) == End(End(from, a), b)
    decreases |a|
  {
    if a == [] {
      assert a + b == b;
    } else {
      WalkAppend(grid, a[0], a[1..], b);
      assert (a + b)[1..] == a[1..] + b;
      assert End(from, a) == End(a[0], a[1..]);
    }
  }

  lemma {:induction false} WalkPrefix(grid: seq<string>, from: Tile, p: seq<Tile>, n: nat)
    requires IsWalk(grid, from, p) && n <= |p|
    ensures IsWalk(grid, from, p[..n])
  {
    WalkAppend(grid, from, p[..n], p[n..]);
    assert p[..n] + p[n..] == p;
  }

  /** What remains of a route after its i-th tile is a route leaving that tile. */
  lemma {:induction false} WalkSuffix(grid: seq<string>, from: Tile, p: seq<Tile>, i: nat)
    requires IsWalk(grid, from, p) && i < |p|
    ensures IsWalk(grid, p[i], p[i + 1..]) && End(p[i], p[i + 1..]) == End(from, p)
  {
    WalkAppend(grid, from, p[..i + 1], p[i + 1..]);
    assert p[..i + 1] + p[i + 1..] == p;
  }

  /** A route that visits a tile twice can skip the loop in between. */
  lemma {:induction false} WalkSplice(grid: seq<string>, from: Tile, p: seq<Tile>, i: nat, j: nat)
    requires IsWalk(grid, from, p) && i < j < |p|
    ensures p[i] == p[j] ==> IsWalk(grid, from, p[..i + 1] + p[j + 1..]) && End(from, p[..i + 1] + p[j + 1..]) == End(from, p)
  {
    WalkPrefix(grid, from, p, i + 1);
    WalkSuffix(grid, from, p, j);
    WalkAppend(grid, from, p[..i + 1], p[j + 1..]);
  }

  /** A route that leaves its start ends on an open tile. */
  lemma {:induction false} WalkEndsOpen(grid: seq<string>, from: Tile, p: seq<Tile>)
    requires IsWalk(grid, from, p) && p != []
    ensures Open(grid, End(from, p))
    decreases |p|
  {
    if |p| > 1 {
      WalkEndsOpen(grid, p[0], p[1..]);
    }
  }

  /** A goal outside the grid or on a wall is never reached from another tile, so the
      planner leaves the path empty for it. */
  lemma BlockedGoalUnreachable(grid: seq<string>, start: Tile, goal: Tile)
    requires goal != start && !Open(grid, goal)
    ensures !Reachable(grid, start, goal)
  {
    forall q | IsWalk(grid, start, q) && End(start, q) == goal ensures false {
      WalkEndsOpen(grid, start, q);
    }
  }

  /** A shortest route never returns to its start and never repeats a tile. */
  lemma {:induction false} ShortestWalkIsSimple(grid: seq<string>, start: Tile, path: seq<Tile>)
    requires IsWalk(grid, start, path)
    requires forall q | IsWalk(grid, start, q) && End(start, q) == End(start, path) :: |path| <= |q|
    ensures forall i | 0 <= i < |path| :: path[i] != start
    ensures forall i, j | 0 <= i < j < |path| :: path[i] != path[j]
  {
    forall i | 0 <= i < |path| ensures path[i] != start {
      WalkSuffix(grid, start, path, i);
    }
    forall i, j | 0 <= i < j < |path| ensures path[i] != path[j] {
      WalkSplice(grid, start, path, i, j);
    }
  }

  /** While the labels below k are all closed, every route of at most k steps ends on a
      visited tile. */
  lemma {:induction false} ShortWalksVisited(grid: seq<string>, start: Tile, dist: map<Tile, nat>, k: int, q: seq<Tile>)
    requires start in dist && Optimal(grid, start, dist)
    requires forall t | t in dist && dist[t] < k :: NeighboursVisited(grid, t, dist)
    requires IsWalk(grid, start, q)
    ensures |q| <= k ==> End(start, q) in dist
    decreases |q|
  {
    if q != [] && |q| <= k {
      var q', last := q[..|q| - 1], q[|q| - 1];
      WalkAppend(grid, start, q', [last]);
      assert q' + [last] == q;
      ShortWalksVisited(grid, start, dist, k, q');
    }
  }

  /** Labelling a newly found neighbour of the current tile one more than the current
      label keeps every label optimal. */
  lemma ExtendOptimal(grid: seq<string>, start: Tile, dist: map<Tile, nat>, queue: seq<Tile>,
                      current: Tile, next: Tile)
    requires start in dist && Optimal(grid, start, dist)
    requires current in dist
    requires forall j | 0 <= j < |queue| :: queue[j] in dist && dist[current] <= dist[queue[j]]
    requires forall t | t in dist && t !in queue && t != current :: NeighboursVisited(grid, t, dist)
    requires next !in dist
    ensures Optimal(grid, start, dist[next := dist[current] + 1])
  {
    var k := dist[current];
    forall t | t in dist && dist[t] < k ensures NeighboursVisited(grid, t, dist) {
      assert t !in queue;
    }
    var dist' := dist[next := k + 1];
    forall q | IsWalk(grid, start, q) && End(start, q) in dist' ensures dist'[End(start, q)] <= |q| {
      ShortWalksVisited(grid, start, dist, k, q);
    }
  }

  /** Adjacency is exactly being one of the four neighbours the search tries. */
  lemma {:induction false} DirectionsCoverNeighbours(grid: seq<string>, t: Tile, dist: map<Tile, nat>)
    requires forall j | 0 <= j < 4 :: Open(grid, Neighbour(t, j)) ==> Neighbour(t, j) in dist
    ensures NeighboursVisited(grid, t, dist)
  {
    forall n | Adjacent(t, n) && Open(grid, n) ensures n in dist {
      assert n == Neighbour(t, 0) || n == Neighbour(t, 1) || n == Neighbour(t, 2) || n == Neighbour(t, 3);
    }
  }

  /** Once every labelled tile is closed, no route leaves the labelled set. */
  lemma {:induction false} ClosedSetContainsAllWalks(grid: seq<string>, start: Tile, dist: map<Tile, nat>)
    requires start in dist && Optimal(grid, start, dist)
    requires forall t | t in dist :: NeighboursVisited(grid, t, dist)
    ensures forall q | IsWalk(grid, start, q) :: End(start, q) in dist
  {
    forall q | IsWalk(grid, start, q) ensures End(start, q) in dist {
      ShortWalksVisited(grid, start, dist, |q|, q);
    }
  }

  // ------------------------------------------------------------ the search

  /** The labels and parent links the search has built: all inside the grid, the start
      labelled 0, a shortest-route tree, and no label too small. */
  ghost predicate Tree(grid: seq<string>, start: Tile, dist: map<Tile, nat>, parent: map<Tile, Tile>) {
    (forall t | t in dist :: InGrid(grid, t)) &&
    start in dist && dist[start] == 0 &&
    ParentTree(grid, start, dist, parent) && Optimal(grid, start, dist)
  }

  /** While tile `current` (label k) is expanded: the queue holds labels k and k + 1, in order. */
  ghost predicate Frontier(dist: map<Tile, nat>, queue: seq<Tile>, k: int) {
    (forall j | 0 <= j < |queue| :: queue[j] in dist && k <= dist[queue[j]] <= k + 1) &&
    forall a, b | 0 <= a <= b < |queue| :: dist[queue[a]] <= dist[queue[b]]
  }

  /** Every labelled tile that is neither queued nor being expanded has all its open
      neighbours labelled. */
  ghost predicate ClosedExcept(grid: seq<string>, dist: map<Tile, nat>, queue: seq<Tile>, current: Tile) {
    forall t | t in dist && t !in queue && t != current :: NeighboursVisited(grid, t, dist)
  }

  /** Taking the head off a layered queue leaves the frontier of the head's label. */
  lemma Dequeue(grid: seq<string>, dist: map<Tile, nat>, queue: seq<Tile>)
    requires queue != [] && Layered(dist, queue)
    requires forall t | t in dist && t !in queue :: NeighboursVisited(grid, t, dist)
    ensures queue[0] in dist && Frontier(dist, queue[1..], dist[queue[0]])
    ensures ClosedExcept(grid, dist, queue[1..], queue[0])
  {
    assert forall j | 0 <= j < |queue| - 1 :: queue[1..][j] == queue[j + 1];
    forall t | t in dist && t !in queue[1..] && t != queue[0] ensures NeighboursVisited(grid, t, dist) {
      assert queue == [queue[0]] + queue[1..];
    }
  }

  /** The search state while `current`, labelled k, is being expanded. */
  ghost predicate Expanding(grid: seq<string>, start: Tile, dist: map<Tile, nat>, parent: map<Tile, Tile>,
                            queue: seq<Tile>, current: Tile, k: int)
  {
    Tree(grid, start, dist, parent) && current in dist && dist[current] == k &&
    Frontier(dist, queue, k) && ClosedExcept(grid, dist, queue, current)
  }

  /** Labelling, linking and queueing one newly found open neighbour keeps the tree, the
      frontier and the closed set intact. */
  lemma AddTile(grid: seq<string>, start: Tile, dist: map<Tile, nat>, parent: map<Tile, Tile>,
                queue: seq<Tile>, current: Tile, k: int, next: Tile)
    requires Expanding(grid, start, dist, parent, queue, current, k)
    requires next !in dist && Open(grid, next) && Adjacent(current, next)
    ensures Expanding(grid, start, dist[next := k + 1], parent[next := current], queue + [next], current, k)
  {
    ExtendOptimal(grid, start, dist, queue, current, next);
    AddTileTree(grid, start, dist, parent, current, next);
    AddTileFrontier(dist, queue, k, next);
    AddTileClosed(grid, dist, queue, current, next, k + 1);
  }

  lemma AddTileClosed(grid: seq<string>, dist: map<Tile, nat>, queue: seq<Tile>, current: Tile, next: Tile, d: nat)
    requires ClosedExcept(grid, dist, queue, current)
    ensures ClosedExcept(grid, dist[next := d], queue + [next], current)
  {
    forall t | t in dist[next := d] && t !in queue + [next] && t != current
      ensures NeighboursVisited(grid, t, dist[next := d])
    {
      assert t in dist && t !in queue;
    }
  }

  lemma AddTileTree(grid: seq<string>, start: Tile, dist: map<Tile, nat>, parent: map<Tile, Tile>,
                    current: Tile, next: Tile)
    requires ParentTree(grid, start, dist, parent) && start in dist && current in dist
    requires next !in dist && Open(grid, next) && Adjacent(current, next)
    ensures ParentTree(grid, start, dist[next := dist[current] + 1], parent[next := current])
  {
  }

  lemma AddTileFrontier(dist: map<Tile, nat>, queue: seq<Tile>, k: nat, next: Tile)
    requires Frontier(dist, queue, k) && next !in dist
    ensures Frontier(dist[next := k + 1], queue + [next], k)
  {
    var d, q := dist[next := k + 1], queue + [next];
    forall j | 0 <= j < |queue| ensures q[j] == queue[j] && d[q[j]] == dist[queue[j]] {
      assert queue[j] != next;
    }
  }

  /** Once `current` has all its neighbours labelled, the frontier is a layered queue
      and only queued tiles stay open. */
  lemma CloseCurrent(grid: seq<string>, dist: map<Tile, nat>, queue: seq<Tile>, current: Tile)
    requires current in dist && Frontier(dist, queue, dist[current])
    requires ClosedExcept(grid, dist, queue, current) && NeighboursVisited(grid, current, dist)
    ensures Layered(dist, queue)
    ensures forall t | t in dist && t !in queue :: NeighboursVisited(grid, t, dist)
  {
  }

  /** One direction of the four-direction loop: an open, unvisited tile next to `current`
      is marked, labelled one more than `current`, linked to it and queued; anything
      else (outside the grid, visited or a wall) is skipped. */
  method VisitNeighbour(grid: seq<string>, start: Tile, visited: array2<bool>, current: Tile, next: Tile,
                        parent0: map<Tile, Tile>, queue0: seq<Tile>, ghost dist0: map<Tile, nat>, ghost k: int)
    returns (parent: map<Tile, Tile>, queue: seq<Tile>, ghost dist: map<Tile, nat>)
    modifies visited
    requires visited.Length0 == Rows(grid) && visited.Length1 == Cols(grid) && VisitedMatches(visited, dist0)
    requires Expanding(grid, start, dist0, parent0, queue0, current, k) && Adjacent(current, next)
    ensures VisitedMatches(visited, dist) && Expanding(grid, start, dist, parent, queue, current, k)
    ensures Open(grid, next) ==> next in dist
    ensures dist0.Keys <= dist.Keys && (dist.Keys == dist0.Keys ==> queue == queue0)
  {
    parent, queue, dist := parent0, queue0, dist0;
    if next.row < 0 || next.col < 0 || next.row >= visited.Length0 || next.col >= visited.Length1 {
      return;
    }
    if visited[next.row, next.col] || IsWallTile(grid, next.row, next.col) {
      return;
    }
    visited[next.row, next.col] := true;
    AddTile(grid, start, dist, parent, queue, current, k, next);
    dist := dist[next := k + 1];
    parent := parent[next := current];
    queue := queue + [next];
  }

  /** After the first `i` directions: their open neighbours are labelled, labels were only
      added, and the queue is unchanged unless some were. */
  ghost predicate Tried(grid: seq<string>, current: Tile, dist0: map<Tile, nat>, queue0: seq<Tile>,
                        dist: map<Tile, nat>, queue: seq<Tile>, i: nat)
  {
    i <= 4 &&
    (forall j | 0 <= j < i :: Open(grid, Neighbour(current, j)) ==> Neighbour(current, j) in dist) &&
    dist0.Keys <= dist.Keys && (dist.Keys == dist0.Keys ==> queue == queue0)
  }

  lemma TriedStep(grid: seq<string>, current: Tile, dist0: map<Tile, nat>, queue0: seq<Tile>,
                  dist1: map<Tile, nat>, queue1: seq<Tile>, dist: map<Tile, nat>, queue: seq<Tile>, i: nat)
    requires i < 4 && Tried(grid, current, dist0, queue0, dist1, queue1, i)
    requires Open(grid, Neighbour(current, i)) ==> Neighbour(current, i) in dist
    requires dist1.Keys <= dist.Keys && (dist.Keys == dist1.Keys ==> queue == queue1)
    ensures Tried(grid, current, dist0, queue0, dist, queue, i + 1)
  {
  }

  /** The four-direction loop of the search for one dequeued tile: every open, unvisited
      neighbour is marked, labelled one more than `current`, linked to it and queued. */
  method ExpandNeighbours(grid: seq<string>, start: Tile, visited: array2<bool>, current: Tile,
                          parent0: map<Tile, Tile>, queue0: seq<Tile>, ghost dist0: map<Tile, nat>)
    returns (parent: map<Tile, Tile>, queue: seq<Tile>, ghost dist: map<Tile, nat>)
    modifies visited
    requires visited.Length0 == Rows(grid) && visited.Length1 == Cols(grid) && VisitedMatches(visited, dist0)
    requires Tree(grid, start, dist0, parent0) && current in dist0
    requires Frontier(dist0, queue0, dist0[current]) && ClosedExcept(grid, dist0, queue0, current)
    ensures VisitedMatches(visited, dist) && Tree(grid, start, dist, parent)
    ensures Layered(dist, queue)
    ensures forall t | t in dist && t !in queue :: NeighboursVisited(grid, t, dist)
    ensures dist0.Keys <= dist.Keys && (dist.Keys == dist0.Keys ==> queue == queue0)
  {
    parent, queue, dist := parent0, queue0, dist0;
    ghost var k := dist0[current];
    for i := 0 to 4
      invariant VisitedMatches(visited, dist)
      invariant Expanding(grid, start, dist, parent, queue, current, k)
      invariant Tried(grid, current, dist0, queue0, dist, queue, i)
    {
      ghost var dist1, queue1 := dist, queue;
      parent, queue, dist := VisitNeighbour(grid, start, visited, current, Neighbour(current, i), parent, queue, dist, k);
      TriedStep(grid, current, dist0, queue0, dist1, queue1, dist, queue, i);
    }
    DirectionsCoverNeighbours(grid, current, dist);
    CloseCurrent(grid, dist, queue, current);
  }

  /** Rebuilding the path: from the goal, prepend each tile and step to its parent until
      a tile without one (the start) is reached. */
  method TracePath(grid: seq<string>, start: Tile, goal: Tile, parent: map<Tile, Tile>, ghost dist: map<Tile, nat>)
    returns (path: seq<Tile>)
    requires start in dist && dist[start] == 0 && ParentTree(grid, start, dist, parent)
    ensures path == [] <==> goal !in parent
    ensures IsWalk(grid, start, path)
    ensures path != [] ==> goal in dist && path[|path| - 1] == goal && |path| == dist[goal]
  {
    path := [];
    var cur := goal;
    while cur in parent
      invariant path == [] ==> cur == goal
      invariant path != [] ==> cur in dist && goal in parent
      invariant path != [] ==> IsWalk(grid, cur, path) && path[|path| - 1] == goal && |path| + dist[cur] == dist[goal]
      decreases if cur in dist then dist[cur] else 0
    {
      assert IsWalk(grid, parent[cur], [cur] + path) by {
        assert ([cur] + path)[1..] == path;
      }
      path := [cur] + path;
      cur := parent[cur];
    }
    assert path != [] ==> cur == start by {
      assert cur !in parent.Keys;
    }
  }

  /** What the rebuilt path means once the search has stopped, either on reaching the
      goal or with every labelled tile closed. */
  lemma SearchOutcome(grid: seq<string>, start: Tile, goal: Tile, dist: map<Tile, nat>,
                      parent: map<Tile, Tile>, path: seq<Tile>)
    requires Tree(grid, start, dist, parent)
    requires goal in dist || forall t | t in dist :: NeighboursVisited(grid, t, dist)
    requires path == [] <==> goal !in parent
    requires IsWalk(grid, start, path)
    requires path != [] ==> goal in dist && path[|path| - 1] == goal && |path| == dist[goal]
    ensures path == [] <==> goal == start || !Reachable(grid, start, goal)
    ensures forall q | IsWalk(grid, start, q) && End(start, q) == goal :: |path| <= |q|
  {
    if goal !in dist {
      ClosedSetContainsAllWalks(grid, start, dist);
    }
    assert path != [] ==> End(start, path) == goal;
  }

  /** The finite set of tiles inside the grid; it bounds the labelled set, so the search ends. */
  lemma GridTiles(grid: seq<string>) returns (all: set<Tile>)
    ensures forall t | InGrid(grid, t) :: t in all
  {
    all := set r, c | 0 <= r < Rows(grid) && 0 <= c < Cols(grid) :: Tile(r, c);
    forall t | InGrid(grid, t) ensures t in all {
      assert t == Tile(t.row, t.col);
    }
  }

  /** Labelling more tiles inside the grid leaves fewer of its tiles unlabelled. */
  lemma FewerUnlabelled(grid: seq<string>, all: set<Tile>, before: set<Tile>, after: set<Tile>)
    requires forall t | InGrid(grid, t) :: t in all
    requires before <= after && after != before
    requires forall t | t in after :: InGrid(grid, t)
    ensures all - after < all - before
  {
    var t :| t in after && t !in before;
    assert t in all - before && t !in all - after;
  }

  /** Before the first dequeue: only the start is labelled (0), and it is queued. */
  lemma SearchStart(grid: seq<string>, start: Tile)
    requires InGrid(grid, start)
    ensures Tree(grid, start, map[start := 0], map[])
    ensures Layered(map[start := 0], [start])
    ensures forall t | t in map[start := 0] && t !in [start] :: NeighboursVisited(grid, t, map[start := 0])
  {
  }

  /** The search loop: dequeue a tile, stop if it is the goal, otherwise expand it. It
      ends with the goal labelled or with every labelled tile closed. */
  method Search(grid: seq<string>, start: Tile, goal: Tile, visited: array2<bool>)
    returns (parent: map<Tile, Tile>, ghost dist: map<Tile, nat>)
    modifies visited
    requires InGrid(grid, start)
    requires visited.Length0 == Rows(grid) && visited.Length1 == Cols(grid)
    requires VisitedMatches(visited, map[start := 0])
    ensures Tree(grid, start, dist, parent)
    ensures goal in dist || forall t | t in dist :: NeighboursVisited(grid, t, dist)
  {
    dist := map[start := 0];
    parent := map[];
    var queue: seq<Tile> := [start];
    SearchStart(grid, start);
    ghost var all := GridTiles(grid);
    while queue != []
      invariant VisitedMatches(visited, dist)
      invariant Tree(grid, start, dist, parent)
      invariant Layered(dist, queue)
      invariant forall t | t in dist && t !in queue :: NeighboursVisited(grid, t, dist)
      decreases all - dist.Keys, |queue|
    {
      Dequeue(grid, dist, queue);
      var current := queue[0];
      queue := queue[1..];
      if current == goal {
        break;
      }
      ghost var before := dist.Keys;
      parent, queue, dist := ExpandNeighbours(grid, start, visited, current, parent, queue, dist);
      if dist.Keys != before {
        FewerUnlabelled(grid, all, before, dist.Keys);
      }
    }
  }

  /** `computePath(startRow, startCol, goalRow, goalCol)`. The start must lie inside the
      grid (the search marks it in `visited` unchecked); it is not tested for being a wall.
      The path leaves out the start and is a shortest route to the goal; it is empty
      exactly when the goal is the start or no route reaches it (a goal outside the grid
      or on a wall included). */
  method ComputePath(grid: seq<string>, start: Tile, goal: Tile) returns (path: seq<Tile>)
    requires InGrid(grid, start)
    ensures IsWalk(grid, start, path)
    ensures path != [] ==> End(start, path) == goal
    ensures path == [] <==> goal == start || !Reachable(grid, start, goal)
    ensures forall q | IsWalk(grid, start, q) && End(start, q) == goal :: |path| <= |q|
  {
    var visited := new bool[Rows(grid), Cols(grid)]((_, _) => false);
    visited[start.row, start.col] := true;
    var parent;
    ghost var dist;
    parent, dist := Search(grid, start, goal, visited);
    path := TracePath(grid, start, goal, parent, dist);
    SearchOutcome(grid, start, goal, dist, parent, path);
  }
}
