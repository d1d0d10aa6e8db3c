/**
  Breadth-first search over the maze (bfs.py): a FIFO queue seeded with the
  start, a visited set and a parent map, neighbours explored Right, Left,
  Down, Up; when the end is dequeued the parent chain is walked back and
  reversed.
 */
module Bfs {
  import opened Wrappers
  import opened Grid

  /** Some path of passable four-neighbours leads from `s` to `e`. */
  ghost predicate Reachable(m: Maze, s: Pos, e: Pos)
    requires Rectangular(m)
  {
    exists p :: IsPath(m, p, s, e)
  }

  /** `p` is a path from `s` to `e` and no path between them has fewer cells. */
  ghost predicate IsShortestPath(m: Maze, p: seq<Pos>, s: Pos, e: Pos)
    requires Rectangular(m)
  {
    IsPath(m, p, s, e) && forall p' :: IsPath(m, p', s, e) ==> |p| <= |p'|
  }

  // ---------------------------------------------------------------------------
  // Exploring the neighbours of one cell (bfs.py:38-49)

  /**
    The cells reached from `u` by moves 0 .. k-1, in move order, that are
    passable and not in `visited`.
   */
  function Discovered(m: Maze, u: Pos, visited: set<Pos>, k: nat): seq<Pos>
    requires Rectangular(m) && k <= 4
  {
    if k == 0 then []
    else
      var n := Step(u, k - 1);
      Discovered(m, u, visited, k - 1) + (if Passable(m, n) && n !in visited then [n] else [])
  }

  lemma {:induction false} DiscoveredByMoves(m: Maze, u: Pos, visited: set<Pos>, k: nat)
    requires Rectangular(m) && k <= 4
    ensures forall x :: x in Discovered(m, u, visited, k) <==>
      (exists a: Action :: a < k && Step(u, a) == x) && Passable(m, x) && x !in visited
    ensures forall i, j :: 0 <= i < j < |Discovered(m, u, visited, k)| ==>
      Discovered(m, u, visited, k)[i] != Discovered(m, u, visited, k)[j]
  {
    if k > 0 {
      DiscoveredByMoves(m, u, visited, k - 1);
      var n := Step(u, k - 1);
      forall a: Action | a < k - 1 ensures Step(u, a) != n {
        StepsDistinct(u, a, k - 1);
      }
    }
  }

  /** One more move either appends its cell, which is new to the exploration, or leaves it unchanged. */
  lemma DiscoveredNext(m: Maze, u: Pos, visited: set<Pos>, k: nat)
    requires Rectangular(m) && k < 4
    ensures var n, d := Step(u, k), Discovered(m, u, visited, k);
      && n !in d
      && (if Passable(m, n) && n !in visited + Elems(d)
          then Discovered(m, u, visited, k + 1) == d + [n] && Elems(d + [n]) == Elems(d) + {n}
          else Discovered(m, u, visited, k + 1) == d)
  {
    DiscoveredByMoves(m, u, visited, k);
    var n, d := Step(u, k), Discovered(m, u, visited, k);
    forall a: Action | a < k ensures Step(u, a) != n {
      StepsDistinct(u, a, k);
    }
  }

  /** A full exploration finds exactly the passable, unvisited four-neighbours of `u`, each once. */
  lemma DiscoveredNeighbours(m: Maze, u: Pos, visited: set<Pos>)
    requires Rectangular(m)
    ensures forall x :: x in Discovered(m, u, visited, 4) <==>
      Adjacent(u, x) && Passable(m, x) && x !in visited
    ensures forall i, j :: 0 <= i < j < |Discovered(m, u, visited, 4)| ==>
      Discovered(m, u, visited, 4)[i] != Discovered(m, u, visited, 4)[j]
  {
    DiscoveredByMoves(m, u, visited, 4);
    forall x ensures Adjacent(u, x) <==> exists a: Action :: a < 4 && Step(u, a) == x {
      StepsAreNeighbours(u, x);
    }
  }

  /**
    The inner `for` loop of bfs.py:40-49: every neighbour of `u` that is in
    bounds, not a wall and not yet visited is marked visited, given `u` as
    its parent and appended to the queue.
   */
  method Expand(m: Maze, u: Pos, queue: seq<Pos>, visited: set<Pos>, parent: map<Pos, Pos>)
    returns (queue': seq<Pos>, visited': set<Pos>, parent': map<Pos, Pos>)
    requires Rectangular(m)
    ensures queue' == queue + Discovered(m, u, visited, 4)
    ensures visited' == visited + Elems(Discovered(m, u, visited, 4))
    ensures parent'.Keys == parent.Keys + Elems(Discovered(m, u, visited, 4))
    ensures forall x :: x in parent' ==>
      parent'[x] == if x in Discovered(m, u, visited, 4) then u else parent[x]
  {
    queue', visited', parent' := queue, visited, parent;
    for k := 0 to 4
      invariant queue' == queue + Discovered(m, u, visited, k)
      invariant visited' == visited + Elems(Discovered(m, u, visited, k))
      invariant parent' == WithParent(parent, u, Discovered(m, u, visited, k))
    {
      var n := Step(u, k);
      DiscoveredNext(m, u, visited, k);
      if Passable(m, n) && n !in visited' {
        WithParentAppend(parent, u, Discovered(m, u, visited, k), n);
        visited' := visited' + {n};
        parent' := parent'[n := u];
        queue' := queue' + [n];
      }
    }
    WithParentSpec(parent, u, Discovered(m, u, visited, 4));
  }

  /** `parent` after recording `u` as the parent of each cell of `d`, in order. */
  ghost function WithParent(parent: map<Pos, Pos>, u: Pos, d: seq<Pos>): map<Pos, Pos>
    decreases |d|
  {
    if d == [] then parent else WithParent(parent, u, d[..|d| - 1])[d[|d| - 1] := u]
  }

  lemma WithParentAppend(parent: map<Pos, Pos>, u: Pos, d: seq<Pos>, n: Pos)
    ensures WithParent(parent, u, d + [n]) == WithParent(parent, u, d)[n := u]
  {
    assert (d + [n])[..|d|] == d;
  }

  lemma {:induction false} WithParentSpec(parent: map<Pos, Pos>, u: Pos, d: seq<Pos>)
    ensures WithParent(parent, u, d).Keys == parent.Keys + Elems(d)
    ensures forall x :: x in WithParent(parent, u, d) ==>
      WithParent(parent, u, d)[x] == if x in d then u else parent[x]
    decreases |d|
  {
    if d != [] {
      var d' := d[..|d| - 1];
      WithParentSpec(parent, u, d');
      assert d == d' + [d[|d| - 1]];
      assert Elems(d) == Elems(d') + {d[|d| - 1]};
    }
  }

  // ---------------------------------------------------------------------------
  // The search loop (bfs.py:29-51)

  /**
    The invariant of the search loop, which runs while the queue is non-empty. `done` (the cells already
    dequeued) and `dist` (the BFS depth of each visited cell) exist for the
    proof only.
   */
  ghost predicate Searching(m: Maze, st: Pos, en: Pos, queue: seq<Pos>, visited: set<Pos>,
                            parent: map<Pos, Pos>, done: set<Pos>, dist: map<Pos, nat>)
    requires Rectangular(m)
  {
    && VisitedCells(m, st, visited, dist)
    && Partition(queue, visited, done)
    && DepthOrder(queue, done, dist)
    && ParentLinks(st, visited, parent, done, dist)
    && Closed(m, visited, done, dist)
    // The loop returns as soon as the end is dequeued.
    && en !in done
  }

  /** Every visited cell is in bounds and not a wall, and has a depth; the start has depth 0. */
  ghost predicate VisitedCells(m: Maze, st: Pos, visited: set<Pos>, dist: map<Pos, nat>)
    requires Rectangular(m)
  {
    && st in visited && dist.Keys == visited && dist[st] == 0
    && (forall x :: x in visited ==> Passable(m, x))
  }

  /** A visited cell has either been dequeued or waits in the queue, exactly once. */
  ghost predicate Partition(queue: seq<Pos>, visited: set<Pos>, done: set<Pos>) {
    && done <= visited
    && (forall x :: x in queue ==> x in visited && x !in done)
    && (forall x :: x in visited && x !in done ==> x in queue)
    && (forall i, j :: 0 <= i < j < |queue| ==> queue[i] != queue[j])
  }

  /**
    FIFO by depth: the queue is sorted and spans two consecutive depths, and
    no dequeued cell is deeper than a queued one.
   */
  ghost predicate DepthOrder(queue: seq<Pos>, done: set<Pos>, dist: map<Pos, nat>)
    requires Elems(queue) + done <= dist.Keys
  {
    && (forall i, j :: 0 <= i <= j < |queue| ==> dist[queue[i]] <= dist[queue[j]])
    && (forall j :: 0 <= j < |queue| ==> dist[queue[j]] <= dist[queue[0]] + 1)
    && (forall x, y :: x in done && y in queue ==> dist[x] <= dist[y])
  }

  /** Each visited cell but the start has as parent a dequeued four-neighbour one level shallower. */
  ghost predicate ParentLinks(st: Pos, visited: set<Pos>, parent: map<Pos, Pos>, done: set<Pos>, dist: map<Pos, nat>)
    requires done <= visited == dist.Keys
  {
    && parent.Keys == visited - {st}
    && (forall x :: x in parent ==>
          parent[x] in done && Adjacent(parent[x], x) && dist[x] == dist[parent[x]] + 1)
  }

  /** Every passable neighbour of a dequeued cell is visited, at most one level deeper. */
  ghost predicate Closed(m: Maze, visited: set<Pos>, done: set<Pos>, dist: map<Pos, nat>)
    requires Rectangular(m) && done <= visited == dist.Keys
  {
    forall u, w :: u in done && Adjacent(u, w) && Passable(m, w) ==>
      w in visited && dist[w] <= dist[u] + 1
  }

  /**
    Exploring `u` found `found`: exactly its passable, unvisited
    four-neighbours, each once.
   */
  ghost predicate Explored(m: Maze, u: Pos, visited: set<Pos>, found: seq<Pos>)
    requires Rectangular(m)
  {
    && (forall x :: x in found <==> Adjacent(u, x) && Passable(m, x) && x !in visited)
    && (forall i, j :: 0 <= i < j < |found| ==> found[i] != found[j])
  }

  /** The cells found from `u` get `u` as parent; every other parent stays. */
  ghost predicate ParentUpdate(u: Pos, parent: map<Pos, Pos>, found: seq<Pos>, parent': map<Pos, Pos>) {
    && parent'.Keys == parent.Keys + Elems(found)
    && (forall x :: x in parent' ==> parent'[x] == if x in found then u else parent[x])
  }

  /** The cells found from `u` lie one level below it; every other depth stays. */
  ghost predicate DepthUpdate(u: Pos, visited: set<Pos>, dist: map<Pos, nat>, found: seq<Pos>, dist': map<Pos, nat>) {
    && u in dist && visited <= dist.Keys
    && dist'.Keys == visited + Elems(found)
    && (forall x :: x in dist' ==> dist'[x] == if x in found then dist[u] + 1 else dist[x])
  }

  /**
    One round of the loop: the head `u` of the queue, which is not the end,
    is dequeued and its passable unvisited neighbours `found` are visited one
    level deeper, with parent `u`.
   */
  ghost predicate Round(m: Maze, st: Pos, en: Pos, queue: seq<Pos>, visited: set<Pos>,
                        parent: map<Pos, Pos>, done: set<Pos>, dist: map<Pos, nat>,
                        found: seq<Pos>, parent': map<Pos, Pos>, dist': map<Pos, nat>)
    requires Rectangular(m)
  {
    && Searching(m, st, en, queue, visited, parent, done, dist)
    && queue != [] && queue[0] != en
    && Explored(m, queue[0], visited, found)
    && ParentUpdate(queue[0], parent, found, parent')
    && DepthUpdate(queue[0], visited, dist, found, dist')
  }

  lemma AdvancePartition(m: Maze, queue: seq<Pos>, visited: set<Pos>, done: set<Pos>, found: seq<Pos>)
    requires Rectangular(m)
    requires Partition(queue, visited, done) && queue != []
    requires Explored(m, queue[0], visited, found)
    ensures Partition(queue[1..] + found, visited + Elems(found), done + {queue[0]})
  {
    var u := queue[0];
    var q' := queue[1..] + found;
    forall x | x in queue[1..] ensures x != u {
      var k :| 0 <= k < |queue[1..]| && queue[1..][k] == x;
      assert queue[k + 1] == x;
    }
    forall i, j | 0 <= i < j < |q'| ensures q'[i] != q'[j] {
      if j < |queue| - 1 {
        assert q'[i] == queue[i + 1] && q'[j] == queue[j + 1];
      } else if i >= |queue| - 1 {
        assert q'[i] == found[i - (|queue| - 1)] && q'[j] == found[j - (|queue| - 1)];
      } else {
        assert q'[i] == queue[i + 1] && q'[j] in found;
      }
    }
    forall x | x in visited + Elems(found) && x !in done + {u} ensures x in q' {
      if x in visited {
        var k :| 0 <= k < |queue| && queue[k] == x;
        assert k != 0;
        assert queue[1..][k - 1] == x;
      }
    }
  }

  lemma AdvanceSorted(m: Maze, queue: seq<Pos>, visited: set<Pos>, done: set<Pos>, dist: map<Pos, nat>,
                      found: seq<Pos>, dist': map<Pos, nat>)
    requires Rectangular(m)
    requires dist.Keys == visited && Partition(queue, visited, done) && queue != []
    requires DepthOrder(queue, done, dist)
    requires Explored(m, queue[0], visited, found) && DepthUpdate(queue[0], visited, dist, found, dist')
    ensures var q' := queue[1..] + found;
      forall i, j :: 0 <= i <= j < |q'| ==> q'[i] in dist' && q'[j] in dist' && dist'[q'[i]] <= dist'[q'[j]]
  {
    var q' := queue[1..] + found;
    forall i, j | 0 <= i <= j < |q'| ensures q'[i] in dist' && q'[j] in dist' && dist'[q'[i]] <= dist'[q'[j]] {
      if j < |queue| - 1 {
        assert q'[i] == queue[i + 1] && q'[j] == queue[j + 1];
      } else if i >= |queue| - 1 {
        assert q'[i] in found && q'[j] in found;
      } else {
        assert q'[i] == queue[i + 1] && q'[j] in found;
      }
    }
  }

  lemma AdvanceSpread(m: Maze, queue: seq<Pos>, visited: set<Pos>, done: set<Pos>, dist: map<Pos, nat>,
                      found: seq<Pos>, dist': map<Pos, nat>)
    requires Rectangular(m)
    requires dist.Keys == visited && Partition(queue, visited, done) && queue != []
    requires DepthOrder(queue, done, dist)
    requires Explored(m, queue[0], visited, found) && DepthUpdate(queue[0], visited, dist, found, dist')
    ensures var q' := queue[1..] + found;
      forall j :: 0 <= j < |q'| ==> q'[j] in dist' && q'[0] in dist' && dist'[q'[j]] <= dist'[q'[0]] + 1
  {
    var q' := queue[1..] + found;
    forall j | 0 <= j < |q'| ensures q'[j] in dist' && q'[0] in dist' && dist'[q'[j]] <= dist'[q'[0]] + 1 {
      if j < |queue| - 1 {
        assert q'[j] == queue[j + 1];
      }
      if |queue| > 1 {
        assert q'[0] == queue[1];
      }
    }
  }

  lemma AdvanceDoneFirst(m: Maze, queue: seq<Pos>, visited: set<Pos>, done: set<Pos>, dist: map<Pos, nat>,
                         found: seq<Pos>, dist': map<Pos, nat>)
    requires Rectangular(m)
    requires dist.Keys == visited && Partition(queue, visited, done) && queue != []
    requires DepthOrder(queue, done, dist)
    requires Explored(m, queue[0], visited, found) && DepthUpdate(queue[0], visited, dist, found, dist')
    ensures forall x, y :: x in done + {queue[0]} && y in queue[1..] + found ==>
      x in dist' && y in dist' && dist'[x] <= dist'[y]
  {
    forall x, y | x in done + {queue[0]} && y in queue[1..] + found
      ensures x in dist' && y in dist' && dist'[x] <= dist'[y]
    {
      if y in queue[1..] {
        var k :| 0 <= k < |queue[1..]| && queue[1..][k] == y;
        assert queue[k + 1] == y;
      }
    }
  }

  lemma AdvanceDepthOrder(m: Maze, queue: seq<Pos>, visited: set<Pos>, done: set<Pos>, dist: map<Pos, nat>,
                          found: seq<Pos>, dist': map<Pos, nat>)
    requires Rectangular(m)
    requires dist.Keys == visited && Partition(queue, visited, done) && queue != []
    requires DepthOrder(queue, done, dist)
    requires Explored(m, queue[0], visited, found) && DepthUpdate(queue[0], visited, dist, found, dist')
    requires Partition(queue[1..] + found, visited + Elems(found), done + {queue[0]})
    ensures Elems(queue[1..] + found) + (done + {queue[0]}) <= dist'.Keys
    ensures DepthOrder(queue[1..] + found, done + {queue[0]}, dist')
  {
    AdvanceSorted(m, queue, visited, done, dist, found, dist');
    AdvanceSpread(m, queue, visited, done, dist, found, dist');
    AdvanceDoneFirst(m, queue, visited, done, dist, found, dist');
  }

  lemma AdvanceParents(m: Maze, st: Pos, queue: seq<Pos>, visited: set<Pos>, parent: map<Pos, Pos>,
                       done: set<Pos>, dist: map<Pos, nat>, found: seq<Pos>, parent': map<Pos, Pos>, dist': map<Pos, nat>)
    requires Rectangular(m)
    requires st in visited && dist.Keys == visited && Partition(queue, visited, done) && queue != []
    requires ParentLinks(st, visited, parent, done, dist)
    requires Explored(m, queue[0], visited, found)
    requires ParentUpdate(queue[0], parent, found, parent') && DepthUpdate(queue[0], visited, dist, found, dist')
    ensures done + {queue[0]} <= visited + Elems(found) == dist'.Keys
    ensures ParentLinks(st, visited + Elems(found), parent', done + {queue[0]}, dist')
  {
    var u := queue[0];
    assert u in visited && u !in found;
    assert st in visited && st !in found;
    forall x | x in parent'
      ensures parent'[x] in done + {u} && Adjacent(parent'[x], x) && dist'[x] == dist'[parent'[x]] + 1
    {
      if x in found {
        assert parent'[x] == u && dist'[x] == dist[u] + 1 && dist'[u] == dist[u];
      } else {
        var p := parent[x];
        assert p in done && p !in found;
        assert parent'[x] == p && dist'[x] == dist[x] && dist'[p] == dist[p];
      }
    }
  }

  lemma AdvanceClosed(m: Maze, queue: seq<Pos>, visited: set<Pos>, done: set<Pos>, dist: map<Pos, nat>,
                      found: seq<Pos>, dist': map<Pos, nat>)
    requires Rectangular(m)
    requires dist.Keys == visited && Partition(queue, visited, done) && queue != []
    requires DepthOrder(queue, done, dist) && Closed(m, visited, done, dist)
    requires Explored(m, queue[0], visited, found) && DepthUpdate(queue[0], visited, dist, found, dist')
    ensures done + {queue[0]} <= visited + Elems(found) == dist'.Keys
    ensures Closed(m, visited + Elems(found), done + {queue[0]}, dist')
  {
    var u := queue[0];
    forall a, w | a in done + {u} && Adjacent(a, w) && Passable(m, w)
      ensures w in visited + Elems(found) && dist'[w] <= dist'[a] + 1
    {
      if a == u && w in visited && w !in done {
        var k :| 0 <= k < |queue| && queue[k] == w;
      }
    }
  }

  /** One round of the loop (pop the head, which is not the end; explore it) keeps the invariant. */
  lemma Advance(m: Maze, st: Pos, en: Pos, queue: seq<Pos>, visited: set<Pos>,
                parent: map<Pos, Pos>, done: set<Pos>, dist: map<Pos, nat>,
                found: seq<Pos>, parent': map<Pos, Pos>, dist': map<Pos, nat>)
    requires Rectangular(m)
    requires Round(m, st, en, queue, visited, parent, done, dist, found, parent', dist')
    ensures Searching(m, st, en, queue[1..] + found, visited + Elems(found), parent', done + {queue[0]}, dist')
  {
    AdvancePartition(m, queue, visited, done, found);
    AdvanceDepthOrder(m, queue, visited, done, dist, found, dist');
    AdvanceParents(m, st, queue, visited, parent, done, dist, found, parent', dist');
    AdvanceClosed(m, queue, visited, done, dist, found, dist');
  }

  /**
    A walk from the start that ends outside the dequeued cells leaves them
    through a queued cell whose depth is at most its position on the walk.
   */
  lemma {:induction false} LeavesThroughQueue(m: Maze, st: Pos, en: Pos, queue: seq<Pos>, visited: set<Pos>,
                                              parent: map<Pos, Pos>, done: set<Pos>, dist: map<Pos, nat>,
                                              p: seq<Pos>, n: nat) returns (j: nat)
    requires Rectangular(m)
    requires Searching(m, st, en, queue, visited, parent, done, dist)
    requires IsWalk(m, p) && 0 < |p| && p[0] == st && p[|p| - 1] !in done
    requires n < |p|
    requires forall i :: 0 <= i < n ==> p[i] in done && dist[p[i]] <= i
    ensures n <= j < |p| && p[j] in queue && dist[p[j]] <= j
    decreases |p| - n
  {
    if n > 0 {
      assert p[n - 1] in done && Adjacent(p[n - 1], p[n]) && Passable(m, p[n]);
    }
    if p[n] !in done {
      j := n;
    } else {
      j := LeavesThroughQueue(m, st, en, queue, visited, parent, done, dist, p, n + 1);
    }
  }

  /** When the end heads the queue, its depth is below the length of every path to it. */
  lemma DepthIsShortest(m: Maze, st: Pos, en: Pos, queue: seq<Pos>, visited: set<Pos>,
                        parent: map<Pos, Pos>, done: set<Pos>, dist: map<Pos, nat>)
    requires Rectangular(m)
    requires Searching(m, st, en, queue, visited, parent, done, dist)
    requires queue != [] && queue[0] == en
    ensures forall p :: IsPath(m, p, st, en) ==> dist[en] < |p|
  {
    forall p | IsPath(m, p, st, en) ensures dist[en] < |p| {
      var j := LeavesThroughQueue(m, st, en, queue, visited, parent, done, dist, p, 0);
      var k :| 0 <= k < |queue| && queue[k] == p[j];
    }
  }

  lemma {:induction false} WalkStaysDone(m: Maze, st: Pos, en: Pos, queue: seq<Pos>, visited: set<Pos>,
                                         parent: map<Pos, Pos>, done: set<Pos>, dist: map<Pos, nat>,
                                         p: seq<Pos>, n: nat)
    requires Rectangular(m)
    requires Searching(m, st, en, queue, visited, parent, done, dist)
    requires queue == []
    requires IsWalk(m, p) && 0 < |p| && p[0] == st && n < |p|
    ensures p[n] in done
  {
    if n > 0 {
      WalkStaysDone(m, st, en, queue, visited, parent, done, dist, p, n - 1);
      assert Adjacent(p[n - 1], p[n]) && Passable(m, p[n]);
    }
  }

  /** When the queue runs empty, every cell reachable from the start has been dequeued. */
  lemma Exhausted(m: Maze, st: Pos, en: Pos, queue: seq<Pos>, visited: set<Pos>,
                  parent: map<Pos, Pos>, done: set<Pos>, dist: map<Pos, nat>)
    requires Rectangular(m)
    requires Searching(m, st, en, queue, visited, parent, done, dist)
    requires queue == []
    ensures forall p :: IsWalk(m, p) && 0 < |p| && p[0] == st ==> p[|p| - 1] in done
    ensures !Reachable(m, st, en)
  {
    forall p | IsWalk(m, p) && 0 < |p| && p[0] == st ensures p[|p| - 1] in done {
      WalkStaysDone(m, st, en, queue, visited, parent, done, dist, p, |p| - 1);
    }
  }

  /** The state in which the loop starts (bfs.py:29-31) satisfies its invariant. */
  lemma Initially(m: Maze, st: Pos, en: Pos)
    requires Rectangular(m) && Passable(m, st) && st != en
    ensures Searching(m, st, en, [st], {st}, map[], {}, map[st := 0])
  {
  }

  /**
    A round in which the head of the queue is not the end: exploring it with
    Expand and giving its new neighbours the next depth keeps the invariant.
   */
  lemma ExploreKeeps(m: Maze, st: Pos, en: Pos, queue: seq<Pos>, visited: set<Pos>,
                     parent: map<Pos, Pos>, done: set<Pos>, dist: map<Pos, nat>,
                     queue': seq<Pos>, visited': set<Pos>, parent': map<Pos, Pos>, dist': map<Pos, nat>)
    requires Rectangular(m)
    requires Searching(m, st, en, queue, visited, parent, done, dist)
    requires queue != [] && queue[0] != en
    requires queue' == queue[1..] + Discovered(m, queue[0], visited, 4)
    requires visited' == visited + Elems(Discovered(m, queue[0], visited, 4))
    requires parent'.Keys == parent.Keys + Elems(Discovered(m, queue[0], visited, 4))
    requires forall x :: x in parent' ==>
      parent'[x] == if x in Discovered(m, queue[0], visited, 4) then queue[0] else parent[x]
    requires dist'.Keys == visited'
    requires forall x :: x in dist' ==>
      dist'[x] == if x in Discovered(m, queue[0], visited, 4) then dist[queue[0]] + 1 else dist[x]
    ensures Searching(m, st, en, queue', visited', parent', done + {queue[0]}, dist')
  {
    var found := Discovered(m, queue[0], visited, 4);
    DiscoveredNeighbours(m, queue[0], visited);
    Advance(m, st, en, queue, visited, parent, done, dist, found, parent', dist');
  }

  /**
    When the end is dequeued, its parent chain leads back to the start and
    its depth is below the length of every path to it.
   */
  lemma EndDequeued(m: Maze, st: Pos, en: Pos, queue: seq<Pos>, visited: set<Pos>,
                    parent: map<Pos, Pos>, done: set<Pos>, dist: map<Pos, nat>)
    requires Rectangular(m)
    requires Searching(m, st, en, queue, visited, parent, done, dist)
    requires queue != [] && queue[0] == en && st != en
    ensures ChainsToStart(parent, st, dist) && en in parent
    ensures forall p :: IsPath(m, p, st, en) ==> dist[en] < |p|
  {
    DepthIsShortest(m, st, en, queue, visited, parent, done, dist);
  }

  /**
    When the end is at the head of the queue, the chain of recorded parents
    from the start to the end is a shortest path.
   */
  lemma ChainIsShortest(m: Maze, st: Pos, en: Pos, queue: seq<Pos>, visited: set<Pos>,
                        parent: map<Pos, Pos>, done: set<Pos>, dist: map<Pos, nat>, p: seq<Pos>)
    requires Rectangular(m)
    requires Searching(m, st, en, queue, visited, parent, done, dist)
    requires queue != [] && queue[0] == en && st != en
    requires |p| == dist[en] + 1 && p[0] == st && p[|p| - 1] == en
    requires forall i :: 0 <= i < |p| - 1 ==> LinkedBy(parent, p[i], p[i + 1])
    ensures IsShortestPath(m, p, st, en) && Reachable(m, st, en)
  {
    forall i | 0 <= i < |p| ensures p[i] in visited {
      if i > 0 {
        assert LinkedBy(parent, p[i - 1], p[i]);
      }
    }
    DepthIsShortest(m, st, en, queue, visited, parent, done, dist);
  }

  /**
    The rest of one loop round once the dequeued cell `current` turned out
    not to be the end (bfs.py:38-49): its new neighbours join the queue and
    the loop invariant holds again with `current` counted as dequeued.
   */
  method Visit(m: Maze, st: Pos, en: Pos, current: Pos, queue: seq<Pos>, visited: set<Pos>,
               parent: map<Pos, Pos>, ghost queue0: seq<Pos>, ghost done: set<Pos>, ghost dist: map<Pos, nat>)
    returns (queue': seq<Pos>, visited': set<Pos>, parent': map<Pos, Pos>, ghost dist': map<Pos, nat>)
    requires Rectangular(m)
    requires Searching(m, st, en, queue0, visited, parent, done, dist)
    requires queue0 != [] && current == queue0[0] && queue == queue0[1..] && current != en
    ensures queue' == queue + Discovered(m, current, visited, 4)
    ensures visited' == visited + Elems(Discovered(m, current, visited, 4))
    ensures parent'.Keys == parent.Keys + Elems(Discovered(m, current, visited, 4))
    ensures forall x :: x in parent' ==>
      parent'[x] == if x in Discovered(m, current, visited, 4) then current else parent[x]
    ensures Searching(m, st, en, queue', visited', parent', done + {current}, dist')
  {
    ghost var found := Discovered(m, current, visited, 4);
    queue', visited', parent' := Expand(m, current, queue, visited, parent);
    dist' := map x | x in visited' :: if x in found then dist[current] + 1 else dist[x];
    ExploreKeeps(m, st, en, queue0, visited, parent, done, dist, queue', visited', parent', dist');
  }

  /**
    bfs.py:1-51. Returns None when the maze has no 'S' or no 'E', and
    otherwise a shortest path from the last 'S' to the last 'E' (row-major),
    or None exactly when the end cannot be reached. `s` and `e` expose the
    endpoints the scan chose, `dequeued` the cells the loop took off the
    queue and `rounds` the number of its iterations.
   */
  method SolveBfs(m: Maze)
    returns (path: Option<seq<Pos>>, ghost s: Option<Pos>, ghost e: Option<Pos>,
             ghost dequeued: set<Pos>, ghost rounds: nat)
    requires Rectangular(m)
    ensures LastOccurrence(m, StartMark, s) && LastOccurrence(m, EndMark, e)
    ensures s.None? || e.None? ==> path.None?
    ensures s.Some? && e.Some? ==> (path.Some? <==> Reachable(m, s.value, e.value))
    ensures path.Some? ==> s.Some? && e.Some? && IsShortestPath(m, path.value, s.value, e.value)
    ensures rounds == |dequeued| <= |m| * |m[0]|
    ensures forall x :: x in dequeued ==> Passable(m, x)
    ensures path.Some? <==> exists st, en ::
      LastOccurrence(m, StartMark, Some(st)) && LastOccurrence(m, EndMark, Some(en)) && Reachable(m, st, en)
    ensures path.Some? ==>
      && 0 < |path.value|
      && LastOccurrence(m, StartMark, Some(path.value[0]))
      && LastOccurrence(m, EndMark, Some(path.value[|path.value| - 1]))
      && IsShortestPath(m, path.value, path.value[0], path.value[|path.value| - 1])
  {
    rounds, dequeued := 0, {};
    var startPos, endPos := FindEndpoints(m);
    s, e := startPos, endPos;
    if startPos.None? || endPos.None? {
      path := None;
    } else {
      path, dequeued, rounds := Search(m, startPos.value, endPos.value);
    }
    forall st, en | LastOccurrence(m, StartMark, Some(st)) && LastOccurrence(m, EndMark, Some(en))
      ensures s == Some(st) && e == Some(en)
    {
      LastOccurrenceUnique(m, StartMark, s, Some(st));
      LastOccurrenceUnique(m, EndMark, e, Some(en));
    }
  }

  /**
    The search proper (bfs.py:29-51) from the 'S' cell `st` to the 'E' cell
    `en`: a shortest path when one exists, None exactly when none does. The
    loop runs at most once per cell: `dequeued` is the set of cells it took
    off the queue, the start first, and it holds the end exactly when a path
    was found.
   */
  method Search(m: Maze, st: Pos, en: Pos) returns (path: Option<seq<Pos>>, ghost dequeued: set<Pos>, ghost rounds: nat)
    requires Rectangular(m) && InBounds(m, st) && InBounds(m, en)
    requires At(m, st) == StartMark && At(m, en) == EndMark
    ensures path.Some? <==> Reachable(m, st, en)
    ensures path.Some? ==> IsShortestPath(m, path.value, st, en)
    ensures rounds == |dequeued| <= |m| * |m[0]|
    ensures forall x :: x in dequeued ==> Passable(m, x)
    ensures st in dequeued && (path.Some? <==> en in dequeued)
  {
    rounds := 0;
    var queue := [st];
    var visited := {st};
    var parent: map<Pos, Pos> := map[];
    ghost var done: set<Pos> := {};
    ghost var dist: map<Pos, nat> := map[st := 0];
    Initially(m, st, en);
    CellsSize(m);
    while queue != []
      invariant Searching(m, st, en, queue, visited, parent, done, dist)
      invariant rounds == |done| <= |m| * |m[0]|
      invariant st in done || (done == {} && queue == [st])
      decreases |m| * |m[0]| - rounds
    {
      ghost var queue0, done0 := queue, done;
      var current := queue[0];
      queue := queue[1..];
      done := done + {current};
      rounds := rounds + 1;
      SubsetSize(done, Cells(m));
      if current == en {
        EndDequeued(m, st, en, queue0, visited, parent, done0, dist);
        var p := ReconstructPath(parent, en, st, dist);
        ChainIsShortest(m, st, en, queue0, visited, parent, done0, dist, p);
        path, dequeued := Some(p), done;
        return;
      }
      queue, visited, parent, dist := Visit(m, st, en, current, queue, visited, parent, queue0, done0, dist);
    }
    Exhausted(m, st, en, queue, visited, parent, done, dist);
    path, dequeued := None, done;
  }

  // ---------------------------------------------------------------------------
  // Walking the parent chain back (bfs.py:54-65)

  /**
    A parent map whose chains all lead to `start`: every key's parent is the
    start or another key, one level shallower by `dist`.
   */
  ghost predicate ChainsToStart(parent: map<Pos, Pos>, start: Pos, dist: map<Pos, nat>) {
    && start in dist && dist[start] == 0 && start !in parent
    && forall x :: x in parent ==>
         x in dist && (parent[x] == start || parent[x] in parent) &&
         parent[x] in dist && dist[x] == dist[parent[x]] + 1
  }

  /** `b` has `a` as its recorded parent. */
  predicate LinkedBy(parent: map<Pos, Pos>, a: Pos, b: Pos) {
    b in parent && parent[b] == a
  }

  /** The elements of `s` back to front, as the final slice of bfs.py:65 does. */
  function Reversed<T>(s: seq<T>): (r: seq<T>)
    ensures |r| == |s|
  {
    if s == [] then [] else Reversed(s[1..]) + [s[0]]
  }

  /** Position i of the reversal holds the element i places from the end of the original. */
  lemma {:induction false} ReversedAt<T>(s: seq<T>)
    ensures forall i :: 0 <= i < |s| ==> Reversed(s)[i] == s[|s| - 1 - i]
  {
    if s != [] {
      ReversedAt(s[1..]);
      forall i | 0 <= i < |s| - 1 ensures Reversed(s)[i] == s[|s| - 1 - i] {
        assert Reversed(s)[i] == Reversed(s[1..])[i];
      }
    }
  }

  /** Reversing twice gives back the original sequence. */
  lemma ReversedTwice<T>(s: seq<T>)
    ensures Reversed(Reversed(s)) == s
  {
    ReversedAt(s);
    ReversedAt(Reversed(s));
  }

  /** Reversing a chain of child-to-parent links gives a chain of parent-to-child links. */
  lemma ReversedLinks(parent: map<Pos, Pos>, back: seq<Pos>)
    requires forall k :: 0 <= k < |back| - 1 ==> LinkedBy(parent, back[k + 1], back[k])
    ensures forall i :: 0 <= i < |back| - 1 ==> LinkedBy(parent, Reversed(back)[i], Reversed(back)[i + 1])
  {
    var r := Reversed(back);
    ReversedAt(back);
    forall i | 0 <= i < |back| - 1 ensures LinkedBy(parent, r[i], r[i + 1]) {
      var k := |back| - 2 - i;
      assert r[i] == back[k + 1] && r[i + 1] == back[k];
    }
  }

  /**
    Follow `parent` from `end` until `start`, collecting the cells, then
    reverse them. The depth map `dist` is only the termination measure.
   */
  method ReconstructPath(parent: map<Pos, Pos>, end: Pos, start: Pos, ghost dist: map<Pos, nat>)
    returns (path: seq<Pos>)
    requires ChainsToStart(parent, start, dist)
    requires end == start || end in parent
    ensures |path| == dist[end] + 1
    ensures path[0] == start && path[|path| - 1] == end
    ensures forall i :: 0 <= i < |path| - 1 ==> LinkedBy(parent, path[i], path[i + 1])
  {
    var back: seq<Pos> := [];
    var current := end;
    while current != start
      invariant current == start || current in parent
      invariant |back| + dist[current] == dist[end]
      invariant (back + [current])[0] == end
      invariant forall i :: 0 <= i < |back| ==> LinkedBy(parent, (back + [current])[i + 1], back[i])
      decreases dist[current]
    {
      back := back + [current];
      current := parent[current];
    }
    back := back + [start];
    path := Reversed(back);
    ReversedAt(back);
    ReversedLinks(parent, back);
  }
}
