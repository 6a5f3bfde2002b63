/** Walks on the integer grid and the layered state of a breadth-first
    search over it, shared by the two shortest-path searches of the
    project. A search explores the cells of `free` (the passable cells)
    from `start`, four directions at a time, and stops at a cell of
    `goals`. */
module GridPaths {

  /** A cell `(x, y)`. */
  type Cell = (int, int)

  /** A row of the map table: a cell and its `ConstructionSite` value. */
  datatype Tile = Tile(x: int, y: int, constructionSite: int)

  /** `b` is one step from `a` in one of the four directions. */
  predicate Adjacent(a: Cell, b: Cell) {
    ((b.0 - a.0 == 1 || a.0 - b.0 == 1) && b.1 == a.1)
    || (b.0 == a.0 && (b.1 - a.1 == 1 || a.1 - b.1 == 1))
  }

  /** The cell one step from `c` in direction `d`. */
  function Step(c: Cell, d: (int, int)): Cell {
    (c.0 + d.0, c.1 + d.1)
  }

  /** A list holding the four unit directions, in any order, reaches every
      neighbour of a cell. */
  lemma AdjacentStep(dirs: seq<(int, int)>, a: Cell, b: Cell)
    requires (1, 0) in dirs && (-1, 0) in dirs && (0, 1) in dirs && (0, -1) in dirs
    requires Adjacent(a, b)
    ensures exists k | 0 <= k < |dirs| :: b == Step(a, dirs[k])
  {
    var d := (b.0 - a.0, b.1 - a.1);
    assert d in dirs;
    var k :| 0 <= k < |dirs| && dirs[k] == d;
    assert b == Step(a, dirs[k]);
  }

  /** A walk from `start`: each cell is one step from the one before, and
      every cell after the first is passable. */
  predicate IsWalk(p: seq<Cell>, start: Cell, free: set<Cell>) {
    p != [] && p[0] == start
    && (forall i | 0 <= i < |p| - 1 :: Adjacent(p[i], p[i + 1]))
    && (forall i | 1 <= i < |p| :: p[i] in free)
  }

  /** A walk from `start` that ends at a goal. */
  predicate Reaches(p: seq<Cell>, start: Cell, free: set<Cell>, goals: set<Cell>) {
    IsWalk(p, start, free) && p[|p| - 1] in goals
  }

  ghost predicate Reachable(start: Cell, free: set<Cell>, goals: set<Cell>) {
    exists p :: Reaches(p, start, free, goals)
  }

  /** A walk to a goal with no more cells than any other. */
  ghost predicate Shortest(p: seq<Cell>, start: Cell, free: set<Cell>, goals: set<Cell>) {
    Reaches(p, start, free, goals)
    && forall q | Reaches(q, start, free, goals) :: |p| <= |q|
  }

  predicate Distinct(p: seq<Cell>) {
    forall i, j | 0 <= i < j < |p| :: p[i] != p[j]
  }

  /** A shortest walk when `start` is itself a goal stays there. */
  lemma ShortestAtStart(p: seq<Cell>, start: Cell, free: set<Cell>, goals: set<Cell>)
    requires Shortest(p, start, free, goals) && start in goals
    ensures p == [start]
  {
    assert Reaches([start], start, free, goals);
  }

  /** A walk whose i-th cell lies at distance `i` visits no cell twice. */
  lemma LayeredDistinct(p: seq<Cell>, dist: map<Cell, nat>)
    requires forall i | 0 <= i < |p| :: p[i] in dist && dist[p[i]] == i
    ensures Distinct(p)
  {
  }

  /** The state of a breadth-first search: the cells `seen` so far with their
      distances `dist` from `start`, the `queue` of cells still to explore,
      and the explored cells (seen and no longer queued). */
  ghost predicate Frontier(free: set<Cell>, start: Cell, goals: set<Cell>,
                           seen: set<Cell>, queue: seq<Cell>, dist: map<Cell, nat>)
  {
    start in seen && dist.Keys == seen && dist[start] == 0
    && (forall c | c in seen && c != start :: c in free)
    && Layered(seen, queue, dist)
    && Explored(free, goals, seen, queue, dist)
  }

  /** The queue holds seen cells, nearest first, at most one layer apart. */
  ghost predicate Layered(seen: set<Cell>, queue: seq<Cell>, dist: map<Cell, nat>) {
    dist.Keys == seen
    && (forall i | 0 <= i < |queue| :: queue[i] in seen)
    && (forall i, j | 0 <= i < j < |queue| :: dist[queue[i]] <= dist[queue[j]])
    && (forall i | 0 <= i < |queue| :: dist[queue[0]] <= dist[queue[i]] <= dist[queue[0]] + 1)
  }

  /** Every explored cell is no goal, lies no farther than the head of the
      queue, and has all its passable neighbours seen, at most one layer
      farther. */
  ghost predicate Explored(free: set<Cell>, goals: set<Cell>,
                           seen: set<Cell>, queue: seq<Cell>, dist: map<Cell, nat>)
  {
    dist.Keys == seen
    && (queue != [] ==> queue[0] in seen)
    && forall c | c in seen && c !in queue ::
         c !in goals
         && (queue != [] ==> dist[c] <= dist[queue[0]])
         && (forall n | n in free && Adjacent(c, n) :: n in seen && dist[n] <= dist[c] + 1)
  }

  /** The search starts with only `start` seen and queued. */
  lemma FrontierInit(free: set<Cell>, start: Cell, goals: set<Cell>)
    ensures Frontier(free, start, goals, {start}, [start], map[start := 0])
  {
  }

  /** Discovering a passable unseen cell `n` while exploring the head `u`
      puts it one layer beyond `u`, at the back of the queue. */
  lemma FrontierDiscover(free: set<Cell>, start: Cell, goals: set<Cell>,
                         seen: set<Cell>, u: Cell, queue: seq<Cell>, dist: map<Cell, nat>, n: Cell)
    requires Frontier(free, start, goals, seen, [u] + queue, dist)
    requires n in free && n !in seen
    ensures Frontier(free, start, goals, seen + {n}, [u] + (queue + [n]), dist[n := dist[u] + 1])
  {
    assert ([u] + queue)[0] == u;
    LayeredDiscover(seen, u, queue, dist, n);
    ExploredDiscover(free, goals, seen, u, queue, dist, n);
  }

  lemma LayeredDiscover(seen: set<Cell>, u: Cell, queue: seq<Cell>, dist: map<Cell, nat>, n: Cell)
    requires Layered(seen, [u] + queue, dist) && u in seen && n !in seen
    ensures Layered(seen + {n}, [u] + (queue + [n]), dist[n := dist[u] + 1])
  {
    var q, q' := [u] + queue, [u] + (queue + [n]);
    var dist' := dist[n := dist[u] + 1];
    forall i | 0 <= i < |q'| ensures q'[i] in seen + {n} && dist'[q'[0]] <= dist'[q'[i]] <= dist'[q'[0]] + 1 {
      if i < |q| {
        assert q'[i] == q[i];
      }
    }
    forall i, j | 0 <= i < j < |q'| ensures dist'[q'[i]] <= dist'[q'[j]] {
      if j < |q| {
        assert q'[i] == q[i] && q'[j] == q[j];
      } else {
        assert q'[i] == q[i];
      }
    }
  }

  lemma ExploredDiscover(free: set<Cell>, goals: set<Cell>,
                         seen: set<Cell>, u: Cell, queue: seq<Cell>, dist: map<Cell, nat>, n: Cell)
    requires Explored(free, goals, seen, [u] + queue, dist) && n !in seen
    ensures Explored(free, goals, seen + {n}, [u] + (queue + [n]), dist[n := dist[u] + 1])
  {
    var q, q' := [u] + queue, [u] + (queue + [n]);
    var dist' := dist[n := dist[u] + 1];
    forall c | c in seen + {n} && c !in q'
      ensures c !in goals && dist'[c] <= dist'[q'[0]]
      ensures forall m | m in free && Adjacent(c, m) :: m in seen + {n} && dist'[m] <= dist'[c] + 1
    {
      assert c != n && c !in q;
    }
  }

  /** Every seen cell is at most one layer beyond the head of the queue. */
  lemma SeenNearHead(free: set<Cell>, start: Cell, goals: set<Cell>,
                     seen: set<Cell>, u: Cell, queue: seq<Cell>, dist: map<Cell, nat>, n: Cell)
    requires Frontier(free, start, goals, seen, [u] + queue, dist) && n in seen
    ensures u in seen && dist[n] <= dist[u] + 1
  {
    var q := [u] + queue;
    assert q[0] == u;
    if n in q {
      var i :| 0 <= i < |q| && q[i] == n;
    }
  }

  /** Once every passable neighbour of the head `u` is seen at most one layer
      farther, `u` leaves the queue as explored, provided it is no goal. */
  lemma FrontierExplored(free: set<Cell>, start: Cell, goals: set<Cell>,
                         seen: set<Cell>, u: Cell, queue: seq<Cell>, dist: map<Cell, nat>)
    requires Frontier(free, start, goals, seen, [u] + queue, dist)
    requires u !in goals
    requires forall n | n in free && Adjacent(u, n) :: n in seen && dist[n] <= dist[u] + 1
    ensures Frontier(free, start, goals, seen, queue, dist)
  {
    assert ([u] + queue)[0] == u;
    LayeredPop(seen, u, queue, dist);
    ExploredPop(free, goals, seen, u, queue, dist);
  }

  lemma LayeredPop(seen: set<Cell>, u: Cell, queue: seq<Cell>, dist: map<Cell, nat>)
    requires Layered(seen, [u] + queue, dist) && u in seen
    ensures Layered(seen, queue, dist)
    ensures queue != [] ==> dist[u] <= dist[queue[0]]
  {
    var q := [u] + queue;
    forall i | 0 <= i < |queue| ensures queue[i] in seen {
      assert queue[i] == q[i + 1];
    }
    forall i | 0 <= i < |queue| ensures dist[queue[0]] <= dist[queue[i]] <= dist[queue[0]] + 1 {
      assert queue[i] == q[i + 1] && queue[0] == q[1];
    }
    forall i, j | 0 <= i < j < |queue| ensures dist[queue[i]] <= dist[queue[j]] {
      assert queue[i] == q[i + 1] && queue[j] == q[j + 1];
    }
    if queue != [] {
      assert queue[0] == q[1];
    }
  }

  lemma ExploredPop(free: set<Cell>, goals: set<Cell>,
                    seen: set<Cell>, u: Cell, queue: seq<Cell>, dist: map<Cell, nat>)
    requires Explored(free, goals, seen, [u] + queue, dist) && Layered(seen, queue, dist)
    requires queue != [] ==> dist[u] <= dist[queue[0]]
    requires u !in goals
    requires forall n | n in free && Adjacent(u, n) :: n in seen && dist[n] <= dist[u] + 1
    ensures Explored(free, goals, seen, queue, dist)
  {
    var q := [u] + queue;
    forall c | c in seen && c !in queue
      ensures c !in goals && (queue != [] ==> dist[c] <= dist[queue[0]])
      ensures forall n | n in free && Adjacent(c, n) :: n in seen && dist[n] <= dist[c] + 1
    {
      if c != u {
        assert c !in q;
      }
    }
  }

  /** Along a walk, each cell closer than the head of the queue (any cell,
      once the queue is empty) has been seen, no farther than its position. */
  lemma {:induction false} WalkSeen(free: set<Cell>, start: Cell, goals: set<Cell>,
                                     seen: set<Cell>, queue: seq<Cell>, dist: map<Cell, nat>,
                                     p: seq<Cell>, j: nat)
    requires Frontier(free, start, goals, seen, queue, dist)
    requires IsWalk(p, start, free) && j < |p|
    requires queue != [] ==> j < dist[queue[0]]
    ensures p[j] in seen && dist[p[j]] <= j
  {
    if j > 0 {
      WalkSeen(free, start, goals, seen, queue, dist, p, j - 1);
      var c := p[j - 1];
      assert Adjacent(c, p[j]) && p[j] in free;
    }
  }

  /** No walk closer than the head of the queue (no walk at all, once the
      queue is empty) ends at a goal. */
  lemma NotReached(free: set<Cell>, start: Cell, goals: set<Cell>,
                   seen: set<Cell>, queue: seq<Cell>, dist: map<Cell, nat>, p: seq<Cell>)
    requires Frontier(free, start, goals, seen, queue, dist)
    requires IsWalk(p, start, free)
    requires queue != [] ==> |p| - 1 < dist[queue[0]]
    ensures p[|p| - 1] !in goals
  {
    var c := p[|p| - 1];
    WalkSeen(free, start, goals, seen, queue, dist, p, |p| - 1);
  }

  /** When the head `u` of the queue is a goal, a walk to it through cells at
      distance 0, 1, … is a shortest walk to any goal. */
  lemma HeadIsNearest(free: set<Cell>, start: Cell, goals: set<Cell>,
                      seen: set<Cell>, u: Cell, queue: seq<Cell>, dist: map<Cell, nat>, p: seq<Cell>)
    requires Frontier(free, start, goals, seen, [u] + queue, dist)
    requires Reaches(p, start, free, goals) && |p| == dist[u] + 1
    ensures Shortest(p, start, free, goals)
  {
    forall q | Reaches(q, start, free, goals) ensures |p| <= |q| {
      if |q| < |p| {
        NotReached(free, start, goals, seen, [u] + queue, dist, q);
      }
    }
  }

  /** When the queue runs empty no walk reaches a goal. */
  lemma ExhaustedUnreachable(free: set<Cell>, start: Cell, goals: set<Cell>,
                             seen: set<Cell>, dist: map<Cell, nat>)
    requires Frontier(free, start, goals, seen, [], dist)
    ensures !Reachable(start, free, goals)
  {
    forall q | IsWalk(q, start, free) ensures q[|q| - 1] !in goals {
      NotReached(free, start, goals, seen, [], dist, q);
    }
  }

  /** Seeing more passable cells shrinks the cells left to discover. */
  lemma GrowthShrinks(free: set<Cell>, seen: set<Cell>, seen': set<Cell>)
    requires seen <= seen' && seen' != seen
    requires forall c | c in seen' && c !in seen :: c in free
    ensures |free - seen'| < |free - seen|
  {
    var n :| n in seen' && n !in seen;
    SubsetCard(free - seen', (free - seen) - {n});
    assert free - seen == ((free - seen) - {n}) + {n};
  }

  /** One turn of a breadth-first search: once every passable neighbour of
      the head `u`, no goal, is seen, the search invariant holds without
      `u`, and either no cell was discovered or fewer remain to discover. */
  lemma FrontierNext(free: set<Cell>, start: Cell, goals: set<Cell>, seen: set<Cell>,
                     seen': set<Cell>, u: Cell, queue': seq<Cell>, dist': map<Cell, nat>)
    requires Frontier(free, start, goals, seen', [u] + queue', dist') && u !in goals
    requires forall n | n in free && Adjacent(u, n) :: n in seen' && dist'[n] <= dist'[u] + 1
    requires seen <= seen' && (forall c | c in seen' && c !in seen :: c in free)
    ensures Frontier(free, start, goals, seen', queue', dist')
    ensures seen' == seen || |free - seen'| < |free - seen|
  {
    if seen' != seen {
      GrowthShrinks(free, seen, seen');
    }
    FrontierExplored(free, start, goals, seen', u, queue', dist');
  }

  lemma {:induction false} SubsetCard<T>(a: set<T>, b: set<T>)
    requires a <= b
    ensures |a| <= |b|
    decreases |a|
  {
    if a != {} {
      var x :| x in a;
      SubsetCard(a - {x}, b - {x});
      assert a == (a - {x}) + {x} && b == (b - {x}) + {x};
    }
  }

  /** While the neighbours of the head `u` are tried: neighbour `n` is, if
      passable, already seen, at most one layer beyond `u`. */
  ghost predicate Settled(free: set<Cell>, seen: set<Cell>, dist: map<Cell, nat>, u: Cell, n: Cell) {
    dist.Keys == seen && u in seen
    && (n in free ==> n in seen && dist[n] <= dist[u] + 1)
  }

  /** Discovering a new cell keeps the neighbours tried so far settled. */
  lemma SettledGrows(free: set<Cell>, seen: set<Cell>, dist: map<Cell, nat>, u: Cell, n: Cell,
                     dirs: seq<(int, int)>, k: int)
    requires 0 <= k <= |dirs| && n !in seen
    requires forall j | 0 <= j < k :: Settled(free, seen, dist, u, Step(u, dirs[j]))
    requires u in seen && dist.Keys == seen
    ensures forall j | 0 <= j < k ::
      Settled(free, seen + {n}, dist[n := dist[u] + 1], u, Step(u, dirs[j]))
  {
  }

  /** Once the neighbours in all four directions are settled, every
      passable neighbour of `u` is seen, at most one layer beyond. */
  lemma AllSettled(free: set<Cell>, seen: set<Cell>, dist: map<Cell, nat>, u: Cell, dirs: seq<(int, int)>)
    requires (1, 0) in dirs && (-1, 0) in dirs && (0, 1) in dirs && (0, -1) in dirs
    requires u in seen && dist.Keys == seen
    requires forall j | 0 <= j < |dirs| :: Settled(free, seen, dist, u, Step(u, dirs[j]))
    ensures forall n | n in free && Adjacent(u, n) :: n in seen && dist[n] <= dist[u] + 1
  {
    forall n | n in free && Adjacent(u, n) ensures n in seen && dist[n] <= dist[u] + 1 {
      AdjacentStep(dirs, u, n);
      var j :| 0 <= j < |dirs| && n == Step(u, dirs[j]);
      assert Settled(free, seen, dist, u, Step(u, dirs[j]));
    }
  }
}
