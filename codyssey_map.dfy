/** `codyssey_project/map_direct_save.py`: the shortest walk from home to a
    cafe on the 15 × 15 map, avoiding construction sites, by a
    breadth-first search that records each cell's predecessor. */
module CodysseyMap {
  import opened Wrappers
  import opened Seqs
  import opened GridPaths

  /** The `ConstructionSite` value of the first table row for cell `c`, as
      `tile['ConstructionSite'].values[0]` reads it; `None` when no row
      has that cell. */
  function SiteOf(rows: seq<Tile>, c: Cell): Option<int> {
    if rows == [] then None
    else if (rows[0].x, rows[0].y) == c then Some(rows[0].constructionSite)
    else SiteOf(rows[1..], c)
  }

  /** `None` exactly when no row has the cell; otherwise the value of the
      first row that has it. */
  lemma {:induction false} SiteOfFirst(rows: seq<Tile>, c: Cell)
    ensures SiteOf(rows, c).None? <==> forall i | 0 <= i < |rows| :: (rows[i].x, rows[i].y) != c
    ensures SiteOf(rows, c).Some? ==> exists i | 0 <= i < |rows| ::
      (rows[i].x, rows[i].y) == c && SiteOf(rows, c).value == rows[i].constructionSite
      && forall j | 0 <= j < i :: (rows[j].x, rows[j].y) != c
  {
    if rows != [] && (rows[0].x, rows[0].y) != c {
      SiteOfFirst(rows[1..], c);
      assert forall i | 1 <= i < |rows| :: rows[i] == rows[1..][i - 1];
      if SiteOf(rows, c).Some? {
        var i :| 0 <= i < |rows[1..]| && (rows[1..][i].x, rows[1..][i].y) == c
          && SiteOf(rows, c).value == rows[1..][i].constructionSite
          && forall j | 0 <= j < i :: (rows[1..][j].x, rows[1..][j].y) != c;
        assert rows[i + 1] == rows[1..][i];
        assert forall j | 0 <= j < i + 1 :: (rows[j].x, rows[j].y) != c by {
          forall j | 0 <= j < i + 1 ensures (rows[j].x, rows[j].y) != c {
            if j > 0 {
              assert rows[j] == rows[1..][j - 1];
            }
          }
        }
      }
    } else if rows != [] {
      assert (rows[0].x, rows[0].y) == c;
    }
  }

  /** A cell with no table row, or whose first row is not a construction
      site. */
  predicate Passable(rows: seq<Tile>, c: Cell) {
    SiteOf(rows, c).None? || SiteOf(rows, c).value != 1
  }

  predicate InMap(c: Cell) {
    1 <= c.0 <= 15 && 1 <= c.1 <= 15
  }

  /** The cells a walk may enter. */
  function FreeCells(rows: seq<Tile>): set<Cell> {
    set x: int, y: int | 1 <= x <= 15 && 1 <= y <= 15 && Passable(rows, (x, y)) :: (x, y)
  }

  /** `is_accessible`: inside the map, not yet visited, and not a
      construction site. `visited[y, x]` stands for `visited[y][x]`. */
  function IsAccessible(x: int, y: int, visited: array2<bool>, rows: seq<Tile>): (b: bool)
    requires visited.Length0 == 16 && visited.Length1 == 16
    reads visited
    ensures b <==> (x, y) in FreeCells(rows) && !visited[y, x]
  {
    if !(1 <= x <= 15 && 1 <= y <= 15) then false
    else if visited[y, x] then false
    else
      var tile := SiteOf(rows, (x, y));
      if tile.None? then true
      else if tile.value == 1 then false
      else true
  }

  /** Outside the map, visited, or a construction site: not accessible; a
      cell of the map with no table row that is not visited: accessible. */
  lemma IsAccessibleCases(x: int, y: int, visited: array2<bool>, rows: seq<Tile>)
    requires visited.Length0 == 16 && visited.Length1 == 16
    ensures !InMap((x, y)) ==> !IsAccessible(x, y, visited, rows)
    ensures InMap((x, y)) && visited[y, x] ==> !IsAccessible(x, y, visited, rows)
    ensures SiteOf(rows, (x, y)) == Some(1) ==> !IsAccessible(x, y, visited, rows)
    ensures InMap((x, y)) && !visited[y, x] && (forall i | 0 <= i < |rows| :: (rows[i].x, rows[i].y) != (x, y))
      ==> IsAccessible(x, y, visited, rows)
  {
    SiteOfFirst(rows, (x, y));
  }

  /** The order in which `bfs_shortest_path` tries the neighbours. */
  const Directions: seq<(int, int)> := [(-1, 0), (1, 0), (0, -1), (0, 1)]

  /** Each seen cell other than `start` was discovered from a seen cell one
      step away and one layer nearer. */
  ghost predicate PrevLinks(start: Cell, seen: set<Cell>, dist: map<Cell, nat>, prev: map<Cell, Cell>) {
    dist.Keys == seen
    && forall c | c in seen && c != start ::
         c in prev && prev[c] in seen && dist[prev[c]] + 1 == dist[c] && Adjacent(prev[c], c)
  }

  lemma PrevLinksDiscover(start: Cell, seen: set<Cell>, dist: map<Cell, nat>, prev: map<Cell, Cell>,
                          u: Cell, n: Cell)
    requires PrevLinks(start, seen, dist, prev)
    requires u in seen && n !in seen && Adjacent(u, n)
    ensures PrevLinks(start, seen + {n}, dist[n := dist[u] + 1], prev[n := u])
  {
  }

  /** The cells from `u` back to `cur` through the predecessors: each one
      step from the next, at distances `dist[u]`, `dist[u] - 1`, … */
  ghost predicate BackTrail(back: seq<Cell>, u: Cell, seen: set<Cell>, dist: map<Cell, nat>) {
    back != [] && back[0] == u && dist.Keys == seen && u in seen
    && (forall i | 0 <= i < |back| :: back[i] in seen && dist[back[i]] + i == dist[u])
    && (forall i | 0 <= i < |back| - 1 :: Adjacent(back[i + 1], back[i]))
  }

  /** Read backwards, a trail that reaches `start` is a walk from `start`
      whose i-th cell is at distance `i`. */
  lemma BackTrailWalk(free: set<Cell>, start: Cell, goals: set<Cell>,
                      seen: set<Cell>, queue: seq<Cell>, dist: map<Cell, nat>, back: seq<Cell>, u: Cell)
    requires Frontier(free, start, goals, seen, queue, dist)
    requires BackTrail(back, u, seen, dist) && back[|back| - 1] == start
    ensures IsWalk(Reversed(back), start, free) && |Reversed(back)| == dist[u] + 1
    ensures forall i | 0 <= i < |back| :: Reversed(back)[i] in dist && dist[Reversed(back)[i]] == i
  {
    var r := Reversed(back);
    forall i | 0 <= i < |r| ensures r[i] in seen && dist[r[i]] == i {
      assert r[i] == back[|back| - 1 - i];
    }
    forall i | 0 <= i < |r| - 1 ensures Adjacent(r[i], r[i + 1]) {
      assert r[i] == back[|back| - 1 - i] && r[i + 1] == back[|back| - 2 - i];
    }
    forall i | 1 <= i < |r| ensures r[i] in free {
      assert r[i] != start;
    }
  }

  /** The backtracking loop of `bfs_shortest_path`: from the goal `u` back
      to `start` through the predecessors. */
  method Backtrack(start: Cell, u: Cell, prev: map<Cell, Cell>, ghost seen: set<Cell>, ghost dist: map<Cell, nat>)
    returns (back: seq<Cell>)
    requires PrevLinks(start, seen, dist, prev) && u in seen
    ensures BackTrail(back, u, seen, dist) && back[|back| - 1] == start
  {
    back := [u];
    var cur := u;
    while cur != start
      invariant BackTrail(back, u, seen, dist) && back[|back| - 1] == cur
      decreases dist[cur]
    {
      BackTrailStep(start, u, prev, seen, dist, back);
      cur := prev[cur];
      back := back + [cur];
    }
  }

  /** One step of the backtracking loop extends the trail. */
  lemma BackTrailStep(start: Cell, u: Cell, prev: map<Cell, Cell>, seen: set<Cell>, dist: map<Cell, nat>,
                      back: seq<Cell>)
    requires PrevLinks(start, seen, dist, prev)
    requires BackTrail(back, u, seen, dist) && back[|back| - 1] != start
    ensures var cur := back[|back| - 1];
      cur in prev && dist[prev[cur]] < dist[cur] && BackTrail(back + [prev[cur]], u, seen, dist)
  {
    var cur := back[|back| - 1];
    assert cur in seen && dist[cur] + (|back| - 1) == dist[u];
    var p := prev[cur];
    var b := back + [p];
    forall i | 0 <= i < |b| ensures b[i] in seen && dist[b[i]] + i == dist[u] {
      if i < |back| {
        assert b[i] == back[i];
      }
    }
    forall i | 0 <= i < |b| - 1 ensures Adjacent(b[i + 1], b[i]) {
      if i < |back| - 1 {
        assert b[i] == back[i] && b[i + 1] == back[i + 1];
      }
    }
  }

  /** The `visited` grid marks exactly the seen cells. */
  ghost predicate Marks(visited: array2<bool>, seen: set<Cell>)
    requires visited.Length0 == 16 && visited.Length1 == 16
    reads visited
  {
    forall y, x | 0 <= y < 16 && 0 <= x < 16 :: visited[y, x] <==> (x, y) in seen
  }

  /** A cell is accessible exactly when it is passable and not yet seen. */
  lemma AccessibleUnseen(visited: array2<bool>, rows: seq<Tile>, seen: set<Cell>, n: Cell)
    requires visited.Length0 == 16 && visited.Length1 == 16 && Marks(visited, seen)
    ensures IsAccessible(n.0, n.1, visited, rows) <==> n in FreeCells(rows) && n !in seen
  {
    if n in FreeCells(rows) {
      assert InMap(n);
    }
  }

  lemma DirectionAdjacent(u: Cell, k: int)
    requires 0 <= k < 4
    ensures Adjacent(u, Step(u, Directions[k]))
  {
  }

  /** The loop of `bfs_shortest_path` over the four directions from the head
      `u`: every accessible neighbour is queued, marked visited and linked
      back to `u`. Afterwards every passable neighbour of `u` is seen. */
  method ExploreNeighbours(u: Cell, visited: array2<bool>, rows: seq<Tile>, queue: seq<Cell>,
                           prev: map<Cell, Cell>, ghost free: set<Cell>, ghost start: Cell,
                           ghost goals: set<Cell>, ghost seen: set<Cell>, ghost dist: map<Cell, nat>)
    returns (queue': seq<Cell>, prev': map<Cell, Cell>, ghost seen': set<Cell>, ghost dist': map<Cell, nat>)
    requires visited.Length0 == 16 && visited.Length1 == 16
    requires free == FreeCells(rows) && Marks(visited, seen)
    requires Frontier(free, start, goals, seen, [u] + queue, dist)
    requires PrevLinks(start, seen, dist, prev) && u in seen
    modifies visited
    ensures Marks(visited, seen')
    ensures Frontier(free, start, goals, seen', [u] + queue', dist')
    ensures PrevLinks(start, seen', dist', prev') && u in seen' && dist'[u] == dist[u]
    ensures forall n | n in free && Adjacent(u, n) :: n in seen' && dist'[n] <= dist'[u] + 1
    ensures seen <= seen' && (forall c | c in seen' && c !in seen :: c in free)
    ensures seen <= seen' && (seen' == seen ==> queue' == queue)
  {
    queue', prev', seen', dist' := queue, prev, seen, dist;
    for k := 0 to 4
      invariant Marks(visited, seen')
      invariant Frontier(free, start, goals, seen', [u] + queue', dist')
      invariant PrevLinks(start, seen', dist', prev') && u in seen' && dist'[u] == dist[u]
      invariant forall j | 0 <= j < k :: Settled(free, seen', dist', u, Step(u, Directions[j]))
      invariant seen <= seen' && (forall c | c in seen' && c !in seen :: c in free)
      invariant seen' == seen ==> queue' == queue
    {
      queue', prev', seen', dist' :=
        TryNeighbour(u, k, visited, rows, queue', prev', free, start, goals, seen', dist', seen);
    }
    AllSettled(free, seen', dist', u, Directions);
  }

  /** The body of the loop over the directions, for direction `k`: the
      neighbour that way is queued, marked and linked when accessible. */
  method TryNeighbour(u: Cell, k: int, visited: array2<bool>, rows: seq<Tile>, queue: seq<Cell>,
                      prev: map<Cell, Cell>, ghost free: set<Cell>, ghost start: Cell, ghost goals: set<Cell>,
                      ghost seen: set<Cell>, ghost dist: map<Cell, nat>, ghost seen0: set<Cell>)
    returns (queue': seq<Cell>, prev': map<Cell, Cell>, ghost seen': set<Cell>, ghost dist': map<Cell, nat>)
    requires 0 <= k < 4
    requires visited.Length0 == 16 && visited.Length1 == 16
    requires free == FreeCells(rows) && Marks(visited, seen)
    requires Frontier(free, start, goals, seen, [u] + queue, dist)
    requires PrevLinks(start, seen, dist, prev) && u in seen
    requires forall j | 0 <= j < k :: Settled(free, seen, dist, u, Step(u, Directions[j]))
    requires seen0 <= seen && (forall c | c in seen && c !in seen0 :: c in free)
    modifies visited
    ensures Marks(visited, seen')
    ensures Frontier(free, start, goals, seen', [u] + queue', dist')
    ensures PrevLinks(start, seen', dist', prev') && u in seen' && dist'[u] == dist[u]
    ensures forall j | 0 <= j < k + 1 :: Settled(free, seen', dist', u, Step(u, Directions[j]))
    ensures seen0 <= seen' && (forall c | c in seen' && c !in seen0 :: c in free)
    ensures seen <= seen' && (seen' == seen ==> queue' == queue)
    ensures var n := Step(u, Directions[k]);
      if old(IsAccessible(n.0, n.1, visited, rows))
      then n in free && n !in seen
        && queue' == queue + [n] && prev' == prev[n := u] && seen' == seen + {n}
      else queue' == queue && prev' == prev && seen' == seen
  {
    queue', prev', seen', dist' := queue, prev, seen, dist;
    var n := Step(u, Directions[k]);
    AccessibleUnseen(visited, rows, seen, n);
    if IsAccessible(n.0, n.1, visited, rows) {
      DirectionAdjacent(u, k);
      FrontierDiscover(free, start, goals, seen, u, queue, dist, n);
      PrevLinksDiscover(start, seen, dist, prev, u, n);
      SettledGrows(free, seen, dist, u, n, Directions, k);
      queue' := queue + [n];
      visited[n.1, n.0] := true;
      prev' := prev[n := u];
      seen', dist' := seen + {n}, dist[n := dist[u] + 1];
    } else if n in seen {
      SeenNearHead(free, start, goals, seen, u, queue, dist, n);
    }
  }

  /** The trail backtracked from a goal at the head of the queue, reversed,
      is a shortest path to the goals and visits no cell twice. */
  lemma FoundPath(free: set<Cell>, start: Cell, goals: set<Cell>,
                  seen: set<Cell>, u: Cell, queue: seq<Cell>, dist: map<Cell, nat>, back: seq<Cell>)
    requires Frontier(free, start, goals, seen, [u] + queue, dist) && u in goals
    requires BackTrail(back, u, seen, dist) && back[|back| - 1] == start
    ensures Shortest(Reversed(back), start, free, goals) && Distinct(Reversed(back))
    ensures start in goals ==> Reversed(back) == [start]
  {
    var path := Reversed(back);
    BackTrailWalk(free, start, goals, seen, [u] + queue, dist, back, u);
    HeadIsNearest(free, start, goals, seen, u, queue, dist, path);
    LayeredDistinct(path, dist);
    if start in goals {
      ShortestAtStart(path, start, free, goals);
    }
  }

  /** The goal branch of `bfs_shortest_path`: the walk found by following
      `prev` back from the goal `u` at the head of the queue, reversed. */
  method GoalPath(start: Cell, u: Cell, prev: map<Cell, Cell>, ghost free: set<Cell>, ghost goals: set<Cell>,
                  ghost seen: set<Cell>, ghost queue: seq<Cell>, ghost dist: map<Cell, nat>)
    returns (path: seq<Cell>)
    requires Frontier(free, start, goals, seen, [u] + queue, dist) && u in goals
    requires PrevLinks(start, seen, dist, prev) && u in seen
    ensures path != [] && Shortest(path, start, free, goals) && Distinct(path)
    ensures start in goals ==> path == [start]
  {
    var back := Backtrack(start, u, prev, seen, dist);
    path := Reversed(back);
    FoundPath(free, start, goals, seen, u, queue, dist, back);
  }

  /** The invariant of the loop of `bfs_shortest_path`: the marks agree
      with the cells seen, the search invariant holds, and `prev` links
      every seen cell but `start` one layer back. */
  ghost predicate Searching(visited: array2<bool>, free: set<Cell>, start: Cell, goals: set<Cell>,
                            seen: set<Cell>, queue: seq<Cell>, dist: map<Cell, nat>, prev: map<Cell, Cell>)
    requires visited.Length0 == 16 && visited.Length1 == 16
    reads visited
  {
    Marks(visited, seen) && Frontier(free, start, goals, seen, queue, dist) && PrevLinks(start, seen, dist, prev)
  }

  /** One turn of the loop of `bfs_shortest_path`: the head of the queue is
      taken off; when it is a goal, the walk to it is the answer, and
      otherwise its accessible neighbours are visited. Either fewer cells
      remain unseen or the queue has shrunk. */
  method VisitHead(visited: array2<bool>, rows: seq<Tile>, queue: seq<Cell>, prev: map<Cell, Cell>,
                   start: Cell, goals: set<Cell>, ghost free: set<Cell>,
                   ghost seen: set<Cell>, ghost dist: map<Cell, nat>)
    returns (found: bool, path: seq<Cell>, queue': seq<Cell>, prev': map<Cell, Cell>,
             ghost seen': set<Cell>, ghost dist': map<Cell, nat>)
    requires visited.Length0 == 16 && visited.Length1 == 16 && free == FreeCells(rows)
    requires Searching(visited, free, start, goals, seen, queue, dist, prev) && queue != []
    modifies visited
    ensures found ==> path != [] && Shortest(path, start, free, goals) && Distinct(path)
                      && (start in goals ==> path == [start])
    ensures !found ==> Searching(visited, free, start, goals, seen', queue', dist', prev')
    ensures !found ==> |free - seen'| < |free - seen| || (seen' == seen && |queue'| < |queue|)
  {
    var u := queue[0];
    HeadTail(queue);
    var rest := queue[1..];
    if u in goals {
      path := GoalPath(start, u, prev, free, goals, seen, rest, dist);
      return true, path, rest, prev, seen, dist;
    }
    found, path := false, [];
    queue', prev', seen', dist' := ExploreNeighbours(u, visited, rows, rest, prev, free, start, goals, seen, dist);
    FrontierNext(free, start, goals, seen, seen', u, queue', dist');
  }

  /** The start of `bfs_shortest_path`: no cell marked but `start`, which
      is the only cell queued. */
  method StartSearch(start: Cell, ghost goals: set<Cell>, ghost free: set<Cell>)
    returns (visited: array2<bool>, queue: seq<Cell>, prev: map<Cell, Cell>,
             ghost seen: set<Cell>, ghost dist: map<Cell, nat>)
    requires 0 <= start.0 < 16 && 0 <= start.1 < 16
    ensures fresh(visited) && visited.Length0 == 16 && visited.Length1 == 16
    ensures Searching(visited, free, start, goals, seen, queue, dist, prev)
  {
    queue := [];
    visited := new bool[16, 16]((_, _) => false);
    prev := map[];
    seen, dist := {start}, map[start := 0];

    var (sx, sy) := start;
    queue := queue + [(sx, sy)];
    visited[sy, sx] := true;
    FrontierInit(free, start, goals);
  }

  /** `bfs_shortest_path`: a shortest walk from `start` to a cell of
      `goals`, visiting no cell twice, or `[]` when no goal can be
      reached. */
  method BfsShortestPath(start: Cell, goals: set<Cell>, rows: seq<Tile>) returns (path: seq<Cell>)
    requires 0 <= start.0 < 16 && 0 <= start.1 < 16
    ensures path != [] ==> Shortest(path, start, FreeCells(rows), goals) && Distinct(path)
    ensures path == [] <==> !Reachable(start, FreeCells(rows), goals)
    ensures start in goals ==> path == [start]
  {
    ghost var free := FreeCells(rows);
    var visited, queue, prev;
    ghost var seen, dist;
    visited, queue, prev, seen, dist := StartSearch(start, goals, free);

    while queue != []
      invariant Searching(visited, free, start, goals, seen, queue, dist, prev)
      decreases |free - seen|, |queue|
    {
      var found;
      found, path, queue, prev, seen, dist := VisitHead(visited, rows, queue, prev, start, goals, free, seen, dist);
      if found {
        return;
      }
    }
    ExhaustedUnreachable(free, start, goals, seen, dist);
    return [];
  }
}
