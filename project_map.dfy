/** `project/map_direct_save.py`: the shortest walk from home to the cafe,
    within the bounds of the map table and around its construction sites,
    by a breadth-first search whose queue holds whole walks. */
module ProjectMap {
  import opened Wrappers
  import opened Seqs
  import opened GridPaths

  /** The largest of a non-empty list of numbers, as `Series.max()`. */
  function MaxOf(xs: seq<int>): (m: int)
    requires xs != []
    ensures forall i | 0 <= i < |xs| :: xs[i] <= m
    ensures exists i | 0 <= i < |xs| :: xs[i] == m
  {
    if |xs| == 1 then xs[0]
    else
      var m := MaxOf(xs[..|xs| - 1]);
      assert forall i | 0 <= i < |xs| - 1 :: xs[..|xs| - 1][i] == xs[i];
      if xs[|xs| - 1] > m then xs[|xs| - 1] else m
  }

  /** The columns `df['x']` and `df['y']`. */
  function Xs(rows: seq<Tile>): seq<int> {
    seq(|rows|, i requires 0 <= i < |rows| => rows[i].x)
  }

  function Ys(rows: seq<Tile>): seq<int> {
    seq(|rows|, i requires 0 <= i < |rows| => rows[i].y)
  }

  /** `max_x` and `max_y`. An empty table has none: pandas gives NaN, and
      no comparison with NaN holds, so no cell is inside the bounds. */
  function Bounds(rows: seq<Tile>): (b: Option<(int, int)>)
    ensures b.None? <==> rows == []
    ensures b.Some? ==> forall i | 0 <= i < |rows| :: rows[i].x <= b.value.0 && rows[i].y <= b.value.1
    ensures b.Some? ==> (exists i | 0 <= i < |rows| :: rows[i].x == b.value.0)
                        && (exists j | 0 <= j < |rows| :: rows[j].y == b.value.1)
  {
    if rows == [] then None
    else
      var mx, my := MaxOf(Xs(rows)), MaxOf(Ys(rows));
      assert forall i | 0 <= i < |rows| :: Xs(rows)[i] == rows[i].x && Ys(rows)[i] == rows[i].y;
      Some((mx, my))
  }

  /** The range check `1 <= nx <= max_x and 1 <= ny <= max_y`. */
  predicate InBounds(bounds: Option<(int, int)>, c: Cell) {
    bounds.Some? && 1 <= c.0 <= bounds.value.0 && 1 <= c.1 <= bounds.value.1
  }

  /** `obstacles`: the cells of the rows whose `ConstructionSite` is 1. */
  function Obstacles(rows: seq<Tile>): (obs: set<Cell>)
    ensures forall c :: c in obs <==>
      exists i | 0 <= i < |rows| :: (rows[i].x, rows[i].y) == c && rows[i].constructionSite == 1
  {
    set r | r in rows && r.constructionSite == 1 :: (r.x, r.y)
  }

  /** The cells a walk may enter: inside the bounds and not an obstacle. */
  function ProjectFree(rows: seq<Tile>): set<Cell> {
    var b := Bounds(rows);
    if b.None? then {}
    else
      set x: int, y: int | 1 <= x <= b.value.0 && 1 <= y <= b.value.1 && (x, y) !in Obstacles(rows) :: (x, y)
  }

  /** A cell may be entered exactly when it lies inside the range of the
      table's coordinates and no row marks it as a construction site. */
  lemma ProjectFreeCells(rows: seq<Tile>, c: Cell)
    ensures c in ProjectFree(rows) <==>
      InBounds(Bounds(rows), c)
      && forall i | 0 <= i < |rows| :: (rows[i].x, rows[i].y) == c ==> rows[i].constructionSite != 1
  {
  }

  /** The two checks of the neighbour loop let through exactly the cells a
      walk may enter. */
  lemma Passage(rows: seq<Tile>, c: Cell)
    ensures c in ProjectFree(rows) <==> InBounds(Bounds(rows), c) && c !in Obstacles(rows)
  {
  }

  /** The order in which `find_shortest_path` tries the neighbours. */
  const Directions: seq<(int, int)> := [(1, 0), (-1, 0), (0, 1), (0, -1)]

  lemma DirectionAdjacent(u: Cell, k: int)
    requires 0 <= k < 4
    ensures Adjacent(u, Step(u, Directions[k]))
  {
  }

  /** A queued walk: a walk from `start` whose i-th cell lies at distance
      `i`. */
  ghost predicate LayeredWalk(p: seq<Cell>, start: Cell, free: set<Cell>, dist: map<Cell, nat>) {
    IsWalk(p, start, free) && forall k | 0 <= k < |p| :: p[k] in dist && dist[p[k]] == k
  }

  /** The queue of walks, against the queue `cells` of the cells they end
      at, which the search invariant speaks about. */
  ghost predicate QueuedWalks(queue: seq<seq<Cell>>, cells: seq<Cell>, start: Cell, free: set<Cell>,
                              dist: map<Cell, nat>)
  {
    |queue| == |cells|
    && forall i | 0 <= i < |queue| :: LayeredWalk(queue[i], start, free, dist) && Last(queue[i]) == cells[i]
  }

  function Last(p: seq<Cell>): Cell
    requires p != []
  {
    p[|p| - 1]
  }

  lemma QueuedPop(queue: seq<seq<Cell>>, cells: seq<Cell>, start: Cell, free: set<Cell>, dist: map<Cell, nat>)
    requires QueuedWalks(queue, cells, start, free, dist) && queue != []
    ensures LayeredWalk(queue[0], start, free, dist) && Last(queue[0]) == cells[0]
    ensures QueuedWalks(queue[1..], cells[1..], start, free, dist)
  {
    forall i | 0 <= i < |queue| - 1
      ensures LayeredWalk(queue[1..][i], start, free, dist) && Last(queue[1..][i]) == cells[1..][i]
    {
      assert queue[1..][i] == queue[i + 1] && cells[1..][i] == cells[i + 1];
    }
  }

  /** The walks already queued stay queued walks when an undiscovered cell
      gets its distance, and the walk to the head extended by a step to it
      is one more. */
  lemma QueuedPush(queue: seq<seq<Cell>>, cells: seq<Cell>, start: Cell, free: set<Cell>, dist: map<Cell, nat>,
                   path: seq<Cell>, n: Cell)
    requires QueuedWalks(queue, cells, start, free, dist) && LayeredWalk(path, start, free, dist)
    requires n !in dist && n in free && Adjacent(Last(path), n)
    ensures QueuedWalks(queue + [path + [n]], cells + [n], start, free, dist[n := |path|])
    ensures LayeredWalk(path, start, free, dist[n := |path|])
  {
    var dist' := dist[n := |path|];
    var p := path + [n];
    forall k | 0 <= k < |p| ensures p[k] in dist' && dist'[p[k]] == k {
      if k < |path| {
        assert p[k] == path[k];
      }
    }
    forall k | 0 <= k < |p| - 1 ensures Adjacent(p[k], p[k + 1]) {
      if k < |path| - 1 {
        assert p[k] == path[k] && p[k + 1] == path[k + 1];
      }
    }
    forall k | 1 <= k < |p| ensures p[k] in free {
      if k < |path| {
        assert p[k] == path[k];
      }
    }
    var q, cs := queue + [p], cells + [n];
    forall i | 0 <= i < |q| ensures LayeredWalk(q[i], start, free, dist') && Last(q[i]) == cs[i] {
      if i < |queue| {
        assert q[i] == queue[i] && cs[i] == cells[i];
        assert LayeredWalk(queue[i], start, free, dist);
      }
    }
  }

  /** The state while the neighbours of the last cell `u` of `path` are
      tried: the search invariant with `u` at the head, the first `k`
      directions settled, only passable cells visited since `visited0`, and
      the distance `d0` of `u` unchanged. */
  ghost predicate Trying(free: set<Cell>, start: Cell, goal: Cell, path: seq<Cell>, k: int,
                         visited: set<Cell>, queue: seq<seq<Cell>>, cells: seq<Cell>, dist: map<Cell, nat>,
                         visited0: set<Cell>, d0: nat)
  {
    path != [] && 0 <= k <= 4
    && LayeredWalk(path, start, free, dist) && Last(path) in dist && dist[Last(path)] == d0
    && Frontier(free, start, {goal}, visited, [Last(path)] + cells, dist)
    && QueuedWalks(queue, cells, start, free, dist)
    && (forall j | 0 <= j < k :: Settled(free, visited, dist, Last(path), Step(Last(path), Directions[j])))
    && visited0 <= visited && (forall c | c in visited && c !in visited0 :: c in free)
  }

  /** `Trying` from its parts, each established on its own. */
  lemma TryingIntro(free: set<Cell>, start: Cell, goal: Cell, path: seq<Cell>, k: int,
                    visited: set<Cell>, queue: seq<seq<Cell>>, cells: seq<Cell>, dist: map<Cell, nat>,
                    visited0: set<Cell>, d0: nat)
    requires path != [] && 0 <= k <= 4
    requires LayeredWalk(path, start, free, dist) && Last(path) in dist && dist[Last(path)] == d0
    requires Frontier(free, start, {goal}, visited, [Last(path)] + cells, dist)
    requires QueuedWalks(queue, cells, start, free, dist)
    requires forall j | 0 <= j < k :: Settled(free, visited, dist, Last(path), Step(Last(path), Directions[j]))
    requires visited0 <= visited && (forall c | c in visited && c !in visited0 :: c in free)
    ensures Trying(free, start, goal, path, k, visited, queue, cells, dist, visited0, d0)
  {
  }

  /** The search invariant, and the directions settled, after an accessible
      neighbour `n` of the head is visited. */
  lemma DiscoverFrontier(free: set<Cell>, start: Cell, goal: Cell, path: seq<Cell>, k: int,
                         visited: set<Cell>, queue: seq<seq<Cell>>, cells: seq<Cell>, dist: map<Cell, nat>,
                         visited0: set<Cell>, d0: nat, n: Cell)
    requires Trying(free, start, goal, path, k, visited, queue, cells, dist, visited0, d0) && k < 4
    requires n == Step(Last(path), Directions[k]) && n in free && n !in visited
    ensures var u, dist' := Last(path), dist[n := dist[Last(path)] + 1];
      Frontier(free, start, {goal}, visited + {n}, [u] + (cells + [n]), dist')
      && u in dist' && dist'[u] == d0
      && (forall j | 0 <= j < k + 1 :: Settled(free, visited + {n}, dist', u, Step(u, Directions[j])))
      && visited0 <= visited + {n} && (forall c | c in visited + {n} && c !in visited0 :: c in free)
  {
    var u := Last(path);
    var dist' := dist[n := dist[u] + 1];
    FrontierDiscover(free, start, {goal}, visited, u, cells, dist, n);
    SettledGrows(free, visited, dist, u, n, Directions, k);
    assert u in visited && u != n;
    assert Settled(free, visited + {n}, dist', u, Step(u, Directions[k]));
  }

  /** The queued walks, and the walk to the head, after the walk to `n` is
      queued. */
  lemma DiscoverQueued(free: set<Cell>, start: Cell, goal: Cell, path: seq<Cell>, k: int,
                       visited: set<Cell>, queue: seq<seq<Cell>>, cells: seq<Cell>, dist: map<Cell, nat>,
                       visited0: set<Cell>, d0: nat, n: Cell)
    requires Trying(free, start, goal, path, k, visited, queue, cells, dist, visited0, d0) && k < 4
    requires n == Step(Last(path), Directions[k]) && n in free && n !in visited
    ensures var dist' := dist[n := dist[Last(path)] + 1];
      QueuedWalks(queue + [path + [n]], cells + [n], start, free, dist')
      && LayeredWalk(path, start, free, dist')
  {
    DirectionAdjacent(Last(path), k);
    QueuedPush(queue, cells, start, free, dist, path, n);
  }

  /** Visiting and queueing an accessible neighbour settles direction `k`. */
  lemma TryingDiscover(free: set<Cell>, start: Cell, goal: Cell, path: seq<Cell>, k: int,
                       visited: set<Cell>, queue: seq<seq<Cell>>, cells: seq<Cell>, dist: map<Cell, nat>,
                       visited0: set<Cell>, d0: nat, n: Cell)
    requires Trying(free, start, goal, path, k, visited, queue, cells, dist, visited0, d0) && k < 4
    requires n == Step(Last(path), Directions[k]) && n in free && n !in visited
    ensures Trying(free, start, goal, path, k + 1, visited + {n}, queue + [path + [n]], cells + [n],
                   dist[n := dist[Last(path)] + 1], visited0, d0)
  {
    DiscoverFrontier(free, start, goal, path, k, visited, queue, cells, dist, visited0, d0, n);
    DiscoverQueued(free, start, goal, path, k, visited, queue, cells, dist, visited0, d0, n);
    TryingIntro(free, start, goal, path, k + 1, visited + {n}, queue + [path + [n]], cells + [n],
                dist[n := dist[Last(path)] + 1], visited0, d0);
  }

  /** A neighbour that is visited already, or may not be entered, is
      settled as it is. */
  lemma TryingSkip(free: set<Cell>, start: Cell, goal: Cell, path: seq<Cell>, k: int,
                   visited: set<Cell>, queue: seq<seq<Cell>>, cells: seq<Cell>, dist: map<Cell, nat>,
                   visited0: set<Cell>, d0: nat, n: Cell)
    requires Trying(free, start, goal, path, k, visited, queue, cells, dist, visited0, d0) && k < 4
    requires n == Step(Last(path), Directions[k]) && (n !in free || n in visited)
    ensures Trying(free, start, goal, path, k + 1, visited, queue, cells, dist, visited0, d0)
  {
    if n in visited {
      SeenNearHead(free, start, {goal}, visited, Last(path), cells, dist, n);
    }
  }

  /** The body of the loop over the directions, for direction `k` from the
      last cell of `path`: the neighbour that way, when inside the bounds,
      not visited and not an obstacle, is marked visited and queued as
      `path + [(nx, ny)]`. */
  method TryStep(path: seq<Cell>, k: int, bounds: Option<(int, int)>, obstacles: set<Cell>,
                 visited: set<Cell>, queue: seq<seq<Cell>>,
                 ghost rows: seq<Tile>, ghost free: set<Cell>, ghost start: Cell, ghost goal: Cell,
                 ghost cells: seq<Cell>, ghost dist: map<Cell, nat>, ghost visited0: set<Cell>, ghost d0: nat)
    returns (visited': set<Cell>, queue': seq<seq<Cell>>, ghost cells': seq<Cell>, ghost dist': map<Cell, nat>)
    requires bounds == Bounds(rows) && obstacles == Obstacles(rows) && free == ProjectFree(rows)
    requires Trying(free, start, goal, path, k, visited, queue, cells, dist, visited0, d0) && k < 4
    ensures Trying(free, start, goal, path, k + 1, visited', queue', cells', dist', visited0, d0)
    ensures visited <= visited' && (visited' == visited ==> queue' == queue)
    ensures var n := Step(path[|path| - 1], Directions[k]);
      if InBounds(bounds, n) && n !in visited && n !in obstacles
      then visited' == visited + {n} && queue' == queue + [path + [n]]
      else visited' == visited && queue' == queue
  {
    visited', queue', cells', dist' := visited, queue, cells, dist;
    var u := path[|path| - 1];
    var n := Step(u, Directions[k]);
    Passage(rows, n);
    if !InBounds(bounds, n) || n in visited || n in obstacles {
      TryingSkip(free, start, goal, path, k, visited, queue, cells, dist, visited0, d0, n);
    } else {
      TryingDiscover(free, start, goal, path, k, visited, queue, cells, dist, visited0, d0, n);
      visited' := visited + {n};
      queue' := queue + [path + [n]];
      cells', dist' := cells + [n], dist[n := dist[u] + 1];
    }
  }

  /** The loop of `find_shortest_path` over the four directions from the
      last cell of `path`. Afterwards every passable neighbour of that cell
      is visited. */
  method ExtendPaths(path: seq<Cell>, bounds: Option<(int, int)>, obstacles: set<Cell>,
                     visited: set<Cell>, queue: seq<seq<Cell>>,
                     ghost rows: seq<Tile>, ghost free: set<Cell>, ghost cells: seq<Cell>, ghost start: Cell, ghost goal: Cell,
                     ghost dist: map<Cell, nat>)
    returns (visited': set<Cell>, queue': seq<seq<Cell>>, ghost cells': seq<Cell>, ghost dist': map<Cell, nat>)
    requires bounds == Bounds(rows) && obstacles == Obstacles(rows) && free == ProjectFree(rows)
    requires path != [] && LayeredWalk(path, start, free, dist)
    requires Frontier(free, start, {goal}, visited, [Last(path)] + cells, dist)
    requires QueuedWalks(queue, cells, start, free, dist)
    ensures Frontier(free, start, {goal}, visited', [Last(path)] + cells', dist')
    ensures QueuedWalks(queue', cells', start, free, dist')
    ensures forall n | n in free && Adjacent(Last(path), n) ::
      n in visited' && dist'[n] <= dist'[Last(path)] + 1
    ensures visited <= visited' && (forall c | c in visited' && c !in visited :: c in free)
    ensures visited' == visited ==> queue' == queue
  {
    visited', queue', cells', dist' := visited, queue, cells, dist;
    ghost var d0 := dist[Last(path)];
    for k := 0 to 4
      invariant Trying(free, start, goal, path, k, visited', queue', cells', dist', visited, d0)
      invariant visited' == visited ==> queue' == queue
    {
      visited', queue', cells', dist' :=
        TryStep(path, k, bounds, obstacles, visited', queue', rows, free, start, goal, cells', dist', visited, d0);
    }
    AllSettled(free, visited', dist', Last(path), Directions);
  }

  /** A queued walk that ends at the goal, taken from the head of the
      queue, is a shortest walk to it and visits no cell twice. */
  lemma GoalWalk(free: set<Cell>, start: Cell, goal: Cell, visited: set<Cell>, cells: seq<Cell>,
                 dist: map<Cell, nat>, path: seq<Cell>)
    requires path != [] && LayeredWalk(path, start, free, dist) && Last(path) == goal
    requires Frontier(free, start, {goal}, visited, [goal] + cells, dist)
    ensures Shortest(path, start, free, {goal}) && Distinct(path)
    ensures start == goal ==> path == [start]
  {
    LayeredDistinct(path, dist);
    HeadIsNearest(free, start, {goal}, visited, goal, cells, dist, path);
    if start == goal {
      ShortestAtStart(path, start, free, {goal});
    }
  }

  /** The invariant of the outer loop of `find_shortest_path`: the search
      invariant over the cells the queued walks end at. */
  ghost predicate Searching(free: set<Cell>, start: Cell, goal: Cell, visited: set<Cell>,
                            queue: seq<seq<Cell>>, cells: seq<Cell>, dist: map<Cell, nat>)
  {
    Frontier(free, start, {goal}, visited, cells, dist) && QueuedWalks(queue, cells, start, free, dist)
  }

  lemma SearchingInit(free: set<Cell>, start: Cell, goal: Cell)
    ensures Searching(free, start, goal, {start}, [[start]], [start], map[start := 0])
  {
    FrontierInit(free, start, {goal});
  }

  /** Taking the head off the queue: the walk there ends at the head of the
      search queue, and the rest of the queue keeps its walks. */
  lemma SearchingPop(free: set<Cell>, start: Cell, goal: Cell, visited: set<Cell>,
                     queue: seq<seq<Cell>>, cells: seq<Cell>, dist: map<Cell, nat>)
    requires Searching(free, start, goal, visited, queue, cells, dist) && queue != []
    ensures queue[0] != [] && LayeredWalk(queue[0], start, free, dist)
    ensures Frontier(free, start, {goal}, visited, [Last(queue[0])] + cells[1..], dist)
    ensures QueuedWalks(queue[1..], cells[1..], start, free, dist)
  {
    QueuedPop(queue, cells, start, free, dist);
    HeadTail(cells);
  }

  /** Once the neighbours of the end `u` of the walk taken off are visited,
      the search invariant holds again, and the search has progressed. */
  lemma SearchingNext(free: set<Cell>, start: Cell, goal: Cell, u: Cell, visited: set<Cell>, queue: seq<seq<Cell>>,
                      visited': set<Cell>, queue': seq<seq<Cell>>, cells': seq<Cell>, dist': map<Cell, nat>)
    requires u != goal
    requires Frontier(free, start, {goal}, visited', [u] + cells', dist')
    requires QueuedWalks(queue', cells', start, free, dist')
    requires forall n | n in free && Adjacent(u, n) :: n in visited' && dist'[n] <= dist'[u] + 1
    requires visited <= visited' && (forall c | c in visited' && c !in visited :: c in free)
    requires visited' == visited ==> queue' == queue
    ensures Searching(free, start, goal, visited', queue', cells', dist')
    ensures |free - visited'| < |free - visited| || (visited' == visited && queue' == queue)
  {
    FrontierNext(free, start, {goal}, visited, visited', u, cells', dist');
  }

  /** One turn of the outer loop of `find_shortest_path`: the walk at the
      head of the queue is taken off; it is the answer when it ends at the
      goal, and is otherwise extended to every neighbour not yet visited.
      Either fewer cells remain unvisited or the queue has shrunk. */
  method VisitHead(queue: seq<seq<Cell>>, visited: set<Cell>, goal: Cell,
                   bounds: Option<(int, int)>, obstacles: set<Cell>,
                   ghost rows: seq<Tile>, ghost free: set<Cell>, ghost start: Cell,
                   ghost cells: seq<Cell>, ghost dist: map<Cell, nat>)
    returns (found: bool, path: seq<Cell>, queue': seq<seq<Cell>>, visited': set<Cell>,
             ghost cells': seq<Cell>, ghost dist': map<Cell, nat>)
    requires bounds == Bounds(rows) && obstacles == Obstacles(rows) && free == ProjectFree(rows)
    requires Searching(free, start, goal, visited, queue, cells, dist) && queue != []
    ensures found ==> path != [] && Shortest(path, start, free, {goal}) && Distinct(path)
                      && (start == goal ==> path == [start])
    ensures !found ==> Searching(free, start, goal, visited', queue', cells', dist')
    ensures !found ==> |free - visited'| < |free - visited| || (visited' == visited && |queue'| < |queue|)
  {
    SearchingPop(free, start, goal, visited, queue, cells, dist);
    path := queue[0];
    var rest := queue[1..];
    var (x, y) := path[|path| - 1];

    if (x, y) == goal {
      GoalWalk(free, start, goal, visited, cells[1..], dist, path);
      return true, path, rest, visited, cells[1..], dist;
    }

    found := false;
    visited', queue', cells', dist' := ExtendPaths(path, bounds, obstacles, visited, rest, rows, free, cells[1..], start, goal, dist);
    SearchingNext(free, start, goal, Last(path), visited, rest, visited', queue', cells', dist');
  }

  /** `find_shortest_path`: a shortest walk from `start` to `goal`, visiting
      no cell twice, or `[]` when the goal cannot be reached. */
  method FindShortestPath(rows: seq<Tile>, start: Cell, goal: Cell) returns (path: seq<Cell>)
    ensures path != [] ==> Shortest(path, start, ProjectFree(rows), {goal}) && Distinct(path)
    ensures path == [] <==> !Reachable(start, ProjectFree(rows), {goal})
    ensures start == goal ==> path == [start]
  {
    var bounds := Bounds(rows);
    var obstacles := Obstacles(rows);
    ghost var free := ProjectFree(rows);

    var visited := {start};
    var queue: seq<seq<Cell>> := [[start]];
    ghost var cells := [start];
    ghost var dist := map[start := 0];
    SearchingInit(free, start, goal);

    while queue != []
      invariant Searching(free, start, goal, visited, queue, cells, dist)
      decreases |free - visited|, |queue|
    {
      var found;
      found, path, queue, visited, cells, dist :=
        VisitHead(queue, visited, goal, bounds, obstacles, rows, free, start, cells, dist);
      if found {
        return path;
      }
    }
    ExhaustedUnreachable(free, start, {goal}, visited, dist);
    return [];
  }
}
