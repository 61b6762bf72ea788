/**
 * Breadth-first search with a `dist` / `prev` pair and -1 as "not reached",
 * the routine most programs copy (single source in A, C, D, F, H, B, J, G;
 * several sources in E), and path reconstruction through `prev`.
 *
 * The store may hold neighbours that are not vertices (D_4_digits' graph
 * does); reading `dist` at such a neighbour is out of range, so the search is
 * specified for sources inside a vertex set `closed` whose neighbours stay
 * inside it.  For a graph whose every neighbour is a vertex, `closed` is the
 * whole vertex set.
 */
module Bfs {
  import opened Graphs

  /** Every vertex of `closed` is a vertex and has all its neighbours in `closed`. */
  ghost predicate Closed(g: AdjLists, closed: set<int>) {
    forall v :: v in closed ==> 0 <= v < |g| && forall u :: u in g[v] ==> u in closed
  }

  /** Every vertex set is closed in a graph whose neighbours are all vertices. */
  lemma AllVerticesClosed(g: AdjLists)
    requires ValidGraph(g)
    ensures Closed(g, Range(|g|))
  {
    forall v, u | 0 <= v < |g| && u in g[v] ensures 0 <= u < |g| {
      var k :| 0 <= k < |g[v]| && g[v][k] == u;
    }
  }

  /** `prev` links each reached non-source vertex to a neighbour one step closer. */
  ghost predicate PrevTree(g: AdjLists, sources: seq<int>, dist: seq<int>, prev: seq<int>, unsetPrev: int)
    requires |dist| == |g| && |prev| == |g|
  {
    && (forall v :: 0 <= v < |g| ==> dist[v] >= -1)
    && (forall v :: 0 <= v < |g| ==> (dist[v] == 0 <==> v in sources))
    && (forall v {:trigger prev[v]} :: 0 <= v < |g| && dist[v] <= 0 ==> prev[v] == unsetPrev)
    && (forall v {:trigger prev[v]} :: 0 <= v < |g| && dist[v] > 0 ==>
          0 <= prev[v] < |g| && v in g[prev[v]] && dist[prev[v]] == dist[v] - 1)
  }

  /** Across every reached vertex's edges, `dist` grows by at most one. */
  ghost predicate EdgesRelaxed(g: AdjLists, dist: seq<int>)
    requires |dist| == |g|
  {
    forall v, u :: 0 <= v < |g| && dist[v] >= 0 && u in g[v] ==>
      0 <= u < |g| && 0 <= dist[u] <= dist[v] + 1
  }

  /** Following `prev` from a reached vertex gives a walk from a source with dist[t] edges. */
  lemma {:induction false} PrevWalk(g: AdjLists, sources: seq<int>, dist: seq<int>, prev: seq<int>, unsetPrev: int, t: int)
    returns (p: seq<int>)
    requires |dist| == |g| && |prev| == |g|
    requires PrevTree(g, sources, dist, prev, unsetPrev)
    requires 0 <= t < |g| && dist[t] >= 0
    ensures IsWalkFromSet(g, sources, p, t) && |p| == dist[t] + 1
    decreases dist[t]
  {
    if dist[t] == 0 {
      p := [t];
    } else {
      var q := PrevWalk(g, sources, dist, prev, unsetPrev, prev[t]);
      p := q + [t];
      assert p[|p| - 2] == prev[t];
      assert forall i :: 0 <= i < |q| ==> p[i] == q[i];
    }
  }

  /** No walk from a source is shorter than `dist` says, and it never reaches an unreached vertex. */
  lemma {:induction false} WalkBound(g: AdjLists, sources: seq<int>, dist: seq<int>, p: seq<int>)
    requires |dist| == |g| && EdgesRelaxed(g, dist)
    requires forall v :: v in sources && 0 <= v < |g| ==> dist[v] == 0
    requires IsWalk(g, p) && p[0] in sources
    ensures 0 <= dist[p[|p| - 1]] <= |p| - 1
    decreases |p|
  {
    if |p| > 1 {
      var q := p[..|p| - 1];
      assert IsWalk(g, q);
      WalkBound(g, sources, dist, q);
      assert p[|p| - 1] in g[q[|q| - 1]];
    }
  }

  /**
   * find_shortest_paths_from_vertex / find_shortest_paths_from_vertices:
   * every source starts at distance 0 in the queue; the front vertex's
   * unreached neighbours get distance dist[front] + 1, `prev` = front, and
   * join the queue; then the front is popped.  `unsetPrev` is the value the
   * program leaves in `prev` for vertices it never discovers (0 or -1).
   */
  method ShortestPaths(g: AdjLists, sources: seq<int>, unsetPrev: int, ghost closed: set<int>)
    returns (dist: seq<int>, prev: seq<int>)
    requires Closed(g, closed)
    requires forall i :: 0 <= i < |sources| ==> sources[i] in closed
    ensures |dist| == |g| && |prev| == |g|
    ensures PrevTree(g, sources, dist, prev, unsetPrev)
    ensures forall t :: 0 <= t < |g| ==> (dist[t] >= 0 <==> ReachableFromSet(g, sources, t))
    ensures forall t, p :: 0 <= t < |g| && IsWalkFromSet(g, sources, p, t) ==> dist[t] <= |p| - 1
    ensures forall t :: 0 <= t < |g| && dist[t] >= 0 ==>
      exists p :: IsWalkFromSet(g, sources, p, t) && |p| == dist[t] + 1
  {
    var n := |g|;
    var d := new int[n](_ => -1);
    var pr := new int[n](_ => unsetPrev);
    var queue: seq<int>;
    ghost var order: seq<int>;
    queue, order := Seed(g, sources, closed, unsetPrev, d, pr);
    ghost var head := 0;
    while queue != []
      invariant d != pr && d.Length == n && pr.Length == n
      invariant SearchState(g, sources, closed, unsetPrev, d[..], pr[..], order, head)
      invariant queue == order[head..]
      decreases |IndicesWith(d[..], -1)|, |queue|
    {
      ghost var s0 := Search(d[..], pr[..], order);
      NeighboursInRange(g, closed, order[head], g[order[head]]);
      ScanKeeps(g, sources, closed, unsetPrev, s0, head, g[order[head]]);
      StateBounded(g, sources, closed, unsetPrev, d[..], pr[..], order, head);
      ScanFacts(s0, head, g[order[head]]);
      queue, order := ExpandFront(g, sources, closed, unsetPrev, d, pr, queue, order, head);
      Pop(g, sources, closed, unsetPrev, d[..], pr[..], order, head);
      queue := queue[1..];
      head := head + 1;
    }
    dist, prev := d[..], pr[..];
    SearchDone(g, sources, closed, unsetPrev, dist, prev, order);
  }

  /** The loop before the search: each source is queued and gets distance 0. */
  method Seed(g: AdjLists, sources: seq<int>, ghost closed: set<int>, unsetPrev: int, d: array<int>, pr: array<int>)
    returns (queue: seq<int>, ghost order: seq<int>)
    requires Closed(g, closed) && forall i :: 0 <= i < |sources| ==> sources[i] in closed
    requires d != pr && d.Length == |g| && pr.Length == |g|
    requires forall v :: 0 <= v < |g| ==> d[v] == -1 && pr[v] == unsetPrev
    modifies d
    ensures SearchState(g, sources, closed, unsetPrev, d[..], pr[..], order, 0) && queue == order
    ensures pr[..] == old(pr[..])
  {
    queue, order := [], [];
    var i := 0;
    while i < |sources|
      invariant 0 <= i <= |sources|
      invariant queue == order && order == sources[..i]
      invariant forall v :: 0 <= v < |g| ==> (d[v] == 0 <==> v in sources[..i])
      invariant forall v :: 0 <= v < |g| ==> (d[v] == -1 <==> v !in sources[..i])
      invariant pr[..] == old(pr[..])
    {
      var s := sources[i];
      queue := queue + [s];
      d[s] := 0;
      order := order + [s];
      assert sources[..i + 1] == sources[..i] + [s];
      i := i + 1;
    }
    assert sources[..i] == sources;
  }

  /** Once every queued vertex has been popped, dist holds the distances from the sources. */
  lemma SearchDone(g: AdjLists, sources: seq<int>, closed: set<int>, unsetPrev: int,
                   dist: seq<int>, prev: seq<int>, order: seq<int>)
    requires SearchState(g, sources, closed, unsetPrev, dist, prev, order, |order|)
    ensures forall t :: 0 <= t < |g| ==> (dist[t] >= 0 <==> ReachableFromSet(g, sources, t))
    ensures forall t, p :: 0 <= t < |g| && IsWalkFromSet(g, sources, p, t) ==> dist[t] <= |p| - 1
    ensures forall t :: 0 <= t < |g| && dist[t] >= 0 ==>
      exists p :: IsWalkFromSet(g, sources, p, t) && |p| == dist[t] + 1
  {
    var n := |g|;
    forall t | 0 <= t < n && dist[t] >= 0
      ensures exists p :: IsWalkFromSet(g, sources, p, t) && |p| == dist[t] + 1
    {
      var p := PrevWalk(g, sources, dist, prev, unsetPrev, t);
    }
    assert EdgesRelaxed(g, dist) by {
      forall v, u | 0 <= v < n && dist[v] >= 0 && u in g[v] ensures 0 <= u < n && 0 <= dist[u] <= dist[v] + 1 {
        var k :| 0 <= k < |order| && order[k] == v;
      }
    }
    forall t, p | 0 <= t < n && IsWalkFromSet(g, sources, p, t) ensures 0 <= dist[t] <= |p| - 1 {
      WalkBound(g, sources, dist, p);
    }
  }

  /** Every queued vertex is a reached vertex of `closed`. */
  ghost predicate QueuedReached(g: AdjLists, closed: set<int>, d: seq<int>, order: seq<int>)
    requires |d| == |g|
  {
    forall k :: 0 <= k < |order| ==> 0 <= order[k] < |g| && order[k] in closed && d[order[k]] >= 0
  }

  /** Every reached vertex has been queued. */
  ghost predicate ReachedQueued(g: AdjLists, d: seq<int>, order: seq<int>)
    requires |d| == |g|
  {
    forall v :: 0 <= v < |g| && d[v] >= 0 ==> v in order
  }

  /** Vertices are queued in order of distance. */
  ghost predicate Monotone(d: seq<int>, order: seq<int>)
    requires forall k :: 0 <= k < |order| ==> 0 <= order[k] < |d|
  {
    forall k, l :: 0 <= k < l < |order| ==> d[order[k]] <= d[order[l]]
  }

  /** The neighbours of each popped vertex are reached, at most one step further. */
  ghost predicate Processed(g: AdjLists, d: seq<int>, order: seq<int>, head: int)
    requires |d| == |g| && 0 <= head <= |order|
    requires forall k :: 0 <= k < |order| ==> 0 <= order[k] < |d|
  {
    forall k, u :: 0 <= k < head && u in g[order[k]] ==> 0 <= u < |g| && 0 <= d[u] <= d[order[k]] + 1
  }

  /** The invariant of the search loop; order holds every vertex ever queued, head counts the pops. */
  ghost predicate SearchState(g: AdjLists, sources: seq<int>, closed: set<int>, unsetPrev: int,
                              d: seq<int>, pr: seq<int>, order: seq<int>, head: int)
  {
    && |d| == |g| && |pr| == |g| && 0 <= head <= |order|
    && QueuedReached(g, closed, d, order)
    && ReachedQueued(g, d, order)
    && Monotone(d, order)
    && (head < |order| ==> d[order[|order| - 1]] <= d[order[head]] + 1)
    && Processed(g, d, order, head)
    && PrevTree(g, sources, d, pr, unsetPrev)
  }

  /** The search state the neighbour loop works on: dist, prev and every vertex queued so far. */
  datatype Search = Search(dist: seq<int>, prev: seq<int>, order: seq<int>)

  /** The state after the unreached neighbour u of v is discovered: dist[v] + 1, prev v, queued. */
  ghost function Discovered(s: Search, v: int, u: int): (t: Search)
    requires |s.prev| == |s.dist| && 0 <= v < |s.dist| && 0 <= u < |s.dist|
  {
    Search(s.dist[u := s.dist[v] + 1], s.prev[u := v], s.order + [u])
  }

  /** The neighbour loop over nb, as a function of the state before it: reached neighbours are skipped. */
  ghost function Scan(s: Search, v: int, nb: seq<int>): (r: Search)
    requires |s.prev| == |s.dist| && 0 <= v < |s.dist| && s.dist[v] != -1
    requires forall k :: 0 <= k < |nb| ==> 0 <= nb[k] < |s.dist|
    ensures |r.dist| == |s.dist| && |r.prev| == |s.prev| && r.dist[v] == s.dist[v]
    decreases |nb|
  {
    if nb == [] then s
    else if s.dist[nb[0]] == -1 then Scan(Discovered(s, v, nb[0]), v, nb[1..])
    else Scan(s, v, nb[1..])
  }

  /**
   * The body of the search loop: every unreached neighbour u of the front
   * vertex v gets dist[u] = dist[v] + 1 and prev[u] = v and is queued.
   */
  method ExpandFront(g: AdjLists, sources: seq<int>, ghost closed: set<int>, unsetPrev: int,
                     d: array<int>, pr: array<int>, queue: seq<int>, ghost order: seq<int>, ghost head: int)
    returns (queue': seq<int>, ghost order': seq<int>)
    requires Closed(g, closed) && d != pr && d.Length == |g| && pr.Length == |g|
    requires SearchState(g, sources, closed, unsetPrev, d[..], pr[..], order, head)
    requires head < |order| && queue == order[head..]
    requires forall k :: 0 <= k < |g[order[head]]| ==> 0 <= g[order[head]][k] < |g|
    modifies d, pr
    ensures Search(d[..], pr[..], order') == Scan(Search(old(d[..]), old(pr[..]), order), order[head], g[order[head]])
    ensures head < |order'| && queue' == order'[head..]
  {
    var v := queue[0];
    var nb := g[v];
    ghost var s0 := Search(d[..], pr[..], order);
    var j := 0;
    queue', order' := queue, order;
    while j < |nb|
      invariant 0 <= j <= |nb| && head < |order'| && v == order'[head] && d[v] != -1
      invariant forall k :: 0 <= k < |nb| ==> 0 <= nb[k] < |g|
      invariant queue' == order'[head..]
      invariant Scan(Search(d[..], pr[..], order'), v, nb[j..]) == Scan(s0, v, nb)
    {
      var u := nb[j];
      ghost var before := Search(d[..], pr[..], order');
      assert nb[j..] == [u] + nb[j + 1..];
      if d[u] == -1 {
        d[u] := d[v] + 1;
        pr[u] := v;
        assert (order' + [u])[head..] == order'[head..] + [u];
        queue' := queue' + [u];
        order' := order' + [u];
        assert Search(d[..], pr[..], order') == Discovered(before, v, u);
      }
      j := j + 1;
    }
  }

  /** The neighbour loop keeps the search invariant. */
  lemma {:induction false} ScanKeeps(g: AdjLists, sources: seq<int>, closed: set<int>, unsetPrev: int,
                                     s: Search, head: int, nb: seq<int>)
    requires Closed(g, closed)
    requires SearchState(g, sources, closed, unsetPrev, s.dist, s.prev, s.order, head) && head < |s.order|
    requires forall u :: u in nb ==> u in g[s.order[head]]
    requires forall k :: 0 <= k < |nb| ==> 0 <= nb[k] < |g|
    ensures var r := Scan(s, s.order[head], nb);
      SearchState(g, sources, closed, unsetPrev, r.dist, r.prev, r.order, head)
    decreases |nb|
  {
    var v := s.order[head];
    if nb != [] {
      var u := nb[0];
      assert u in nb;
      assert forall w :: w in nb[1..] ==> w in nb;
      if s.dist[u] == -1 {
        var t := Discovered(s, v, u);
        Discover(g, sources, closed, unsetPrev, s, head, u);
        ScanKeeps(g, sources, closed, unsetPrev, t, head, nb[1..]);
        assert Scan(s, v, nb) == Scan(t, v, nb[1..]);
      } else {
        ScanKeeps(g, sources, closed, unsetPrev, s, head, nb[1..]);
        assert Scan(s, v, nb) == Scan(s, v, nb[1..]);
      }
    }
  }

  /** Neighbours of a vertex of a closed set are vertices of the graph. */
  lemma NeighboursInRange(g: AdjLists, closed: set<int>, v: int, nb: seq<int>)
    requires Closed(g, closed) && v in closed
    requires forall u :: u in nb ==> u in g[v]
    ensures forall k :: 0 <= k < |nb| ==> 0 <= nb[k] < |g|
  {
    forall k | 0 <= k < |nb| ensures 0 <= nb[k] < |g| {
      assert nb[k] in nb;
    }
  }

  /** Every reached vertex is at most one step past the front. */
  ghost predicate Bounded(d: seq<int>, bound: int) {
    forall x :: 0 <= x < |d| && d[x] != -1 ==> 0 <= d[x] <= bound + 1
  }

  lemma StateBounded(g: AdjLists, sources: seq<int>, closed: set<int>, unsetPrev: int,
                     d: seq<int>, pr: seq<int>, order: seq<int>, head: int)
    requires SearchState(g, sources, closed, unsetPrev, d, pr, order, head) && head < |order|
    ensures Bounded(d, d[order[head]])
  {
    forall x | 0 <= x < |d| && d[x] != -1 ensures 0 <= d[x] <= d[order[head]] + 1 {
      Revisit(g, sources, closed, unsetPrev, d, pr, order, head, x);
    }
  }

  /** What the neighbour loop changes: it only reaches and queues new vertices, and reaches all of nb. */
  lemma {:induction false} ScanFacts(s: Search, head: int, nb: seq<int>)
    requires |s.prev| == |s.dist| && 0 <= head < |s.order|
    requires 0 <= s.order[head] < |s.dist| && s.dist[s.order[head]] >= 0
    requires forall k :: 0 <= k < |nb| ==> 0 <= nb[k] < |s.dist|
    requires Bounded(s.dist, s.dist[s.order[head]])
    ensures var r := Scan(s, s.order[head], nb);
      && |s.order| <= |r.order| && r.order[..|s.order|] == s.order
      && |IndicesWith(r.dist, -1)| + |r.order| == |IndicesWith(s.dist, -1)| + |s.order|
      && (forall u :: u in nb ==> 0 <= r.dist[u] <= s.dist[s.order[head]] + 1)
      && (forall x :: 0 <= x < |s.dist| && s.dist[x] != -1 ==> r.dist[x] == s.dist[x])
    decreases |nb|
  {
    var v := s.order[head];
    if nb != [] {
      var u := nb[0];
      assert u in nb;
      var t := if s.dist[u] == -1 then Discovered(s, v, u) else s;
      if s.dist[u] == -1 {
        DiscoverFacts(s, head, u);
      }
      assert Bounded(t.dist, t.dist[t.order[head]]);
      ScanFacts(t, head, nb[1..]);
      var r := Scan(t, v, nb[1..]);
      assert r == Scan(s, v, nb);
      assert r.order[..|s.order|] == r.order[..|t.order|][..|s.order|];
      forall w | w in nb ensures 0 <= r.dist[w] <= s.dist[v] + 1 {
        if w != u {
          assert w in nb[1..];
        }
      }
    }
  }

  /** What a discovery changes: exactly one vertex becomes reached, and it is queued. */
  lemma DiscoverFacts(s: Search, head: int, u: int)
    requires |s.prev| == |s.dist| && 0 <= head < |s.order|
    requires 0 <= s.order[head] < |s.dist| && s.dist[s.order[head]] >= 0 && 0 <= u < |s.dist|
    requires s.dist[u] == -1
    ensures var t := Discovered(s, s.order[head], u);
      && |s.order| <= |t.order| && t.order[..|s.order|] == s.order && t.order[head] == s.order[head]
      && |IndicesWith(t.dist, -1)| + |t.order| == |IndicesWith(s.dist, -1)| + |s.order|
      && 0 <= t.dist[u] <= s.dist[s.order[head]] + 1
      && (forall x :: 0 <= x < |s.dist| && s.dist[x] != -1 ==> t.dist[x] == s.dist[x])
  {
    var v := s.order[head];
    IndicesWithUpdate(s.dist, u, s.dist[v] + 1, -1);
    assert (s.order + [u])[..|s.order|] == s.order;
  }

  /** A neighbour that is already reached is no further than one step past the front. */
  lemma Revisit(g: AdjLists, sources: seq<int>, closed: set<int>, unsetPrev: int,
                d: seq<int>, pr: seq<int>, order: seq<int>, head: int, u: int)
    requires SearchState(g, sources, closed, unsetPrev, d, pr, order, head)
    requires head < |order| && d[order[|order| - 1]] <= d[order[head]] + 1
    requires 0 <= u < |g| && d[u] != -1
    ensures 0 <= d[u] <= d[order[head]] + 1
  {
    var k :| 0 <= k < |order| && order[k] == u;
    if k < |order| - 1 {
      assert d[order[k]] <= d[order[|order| - 1]];
    }
  }

  /** Popping the front once its neighbours are all reached keeps the search invariant. */
  lemma Pop(g: AdjLists, sources: seq<int>, closed: set<int>, unsetPrev: int,
            d: seq<int>, pr: seq<int>, order: seq<int>, head: int)
    requires SearchState(g, sources, closed, unsetPrev, d, pr, order, head)
    requires head < |order|
    requires forall u :: u in g[order[head]] ==> 0 <= u < |g| && 0 <= d[u] <= d[order[head]] + 1
    ensures SearchState(g, sources, closed, unsetPrev, d, pr, order, head + 1)
  {
    if head + 1 < |order| {
      assert d[order[head]] <= d[order[head + 1]];
    }
  }

  /** Discovering an unreached neighbour u of the front vertex keeps the search invariant. */
  lemma Discover(g: AdjLists, sources: seq<int>, closed: set<int>, unsetPrev: int,
                 s: Search, head: int, u: int)
    requires Closed(g, closed)
    requires SearchState(g, sources, closed, unsetPrev, s.dist, s.prev, s.order, head)
    requires head < |s.order| && u in g[s.order[head]] && 0 <= u < |g| && s.dist[u] == -1
    ensures var t := Discovered(s, s.order[head], u);
      SearchState(g, sources, closed, unsetPrev, t.dist, t.prev, t.order, head) && t.order[head] == s.order[head]
  {
    var v := s.order[head];
    var t := Discovered(s, v, u);
    DiscoverState(g, sources, closed, unsetPrev, s.dist, s.prev, s.order, head, u);
    assert t == Search(s.dist[u := s.dist[v] + 1], s.prev[u := v], s.order + [u]);
  }

  lemma DiscoverState(g: AdjLists, sources: seq<int>, closed: set<int>, unsetPrev: int,
                      d: seq<int>, pr: seq<int>, order: seq<int>, head: int, u: int)
    requires Closed(g, closed)
    requires SearchState(g, sources, closed, unsetPrev, d, pr, order, head)
    requires head < |order| && u in g[order[head]] && d[u] == -1
    requires d[order[|order| - 1]] <= d[order[head]] + 1
    ensures u in closed && 0 <= u < |g|
    ensures SearchState(g, sources, closed, unsetPrev, d[u := d[order[head]] + 1], pr[u := order[head]], order + [u], head)
    ensures |IndicesWith(d[u := d[order[head]] + 1], -1)| == |IndicesWith(d, -1)| - 1
  {
    var v := order[head];
    var x := d[v] + 1;
    IndicesWithUpdate(d, u, x, -1);
    DiscoverPrevTree(g, sources, d, pr, unsetPrev, v, u);
    DiscoverQueue(g, closed, d, order, u, x);
    DiscoverMonotone(d, order, u, x);
    DiscoverProcessed(g, d, order, head, u, x);
    assert (order + [u])[|order|] == u && (order + [u])[head] == v;
  }




  lemma DiscoverQueue(g: AdjLists, closed: set<int>, d: seq<int>, order: seq<int>, u: int, x: int)
    requires |d| == |g| && QueuedReached(g, closed, d, order) && ReachedQueued(g, d, order)
    requires 0 <= u < |g| && u in closed && d[u] == -1 && x >= 0
    ensures QueuedReached(g, closed, d[u := x], order + [u]) && ReachedQueued(g, d[u := x], order + [u])
  {
    var d2, order2 := d[u := x], order + [u];
    forall k | 0 <= k < |order2| ensures 0 <= order2[k] < |g| && order2[k] in closed && d2[order2[k]] >= 0 {
      if k < |order| {
        assert order2[k] == order[k] != u;
      }
    }
    forall w | 0 <= w < |g| && d2[w] >= 0 ensures w in order2 {
      if w != u {
        assert w in order;
      }
    }
  }

  lemma DiscoverMonotone(d: seq<int>, order: seq<int>, u: int, x: int)
    requires forall k :: 0 <= k < |order| ==> 0 <= order[k] < |d| && d[order[k]] >= 0
    requires Monotone(d, order) && 0 <= u < |d| && d[u] == -1
    requires |order| > 0 ==> d[order[|order| - 1]] <= x
    ensures Monotone(d[u := x], order + [u])
  {
    var d2, order2 := d[u := x], order + [u];
    forall k, l | 0 <= k < l < |order2| ensures d2[order2[k]] <= d2[order2[l]] {
      assert order2[k] == order[k] != u;
      if l < |order| {
        assert order2[l] == order[l] != u;
      } else if k < |order| - 1 {
        assert d[order[k]] <= d[order[|order| - 1]];
      }
    }
  }

  lemma DiscoverProcessed(g: AdjLists, d: seq<int>, order: seq<int>, head: int, u: int, x: int)
    requires |d| == |g| && 0 <= head <= |order|
    requires forall k :: 0 <= k < |order| ==> 0 <= order[k] < |d| && d[order[k]] >= 0
    requires Processed(g, d, order, head) && 0 <= u < |g| && d[u] == -1
    ensures Processed(g, d[u := x], order + [u], head)
  {
    var d2, order2 := d[u := x], order + [u];
    forall k, w | 0 <= k < head && w in g[order2[k]] ensures 0 <= w < |g| && 0 <= d2[w] <= d2[order2[k]] + 1 {
      assert order2[k] == order[k] != u;
    }
  }

  lemma DiscoverPrevTree(g: AdjLists, sources: seq<int>, d: seq<int>, pr: seq<int>, unsetPrev: int, v: int, u: int)
    requires |d| == |g| && |pr| == |g| && PrevTree(g, sources, d, pr, unsetPrev)
    requires 0 <= v < |g| && 0 <= u < |g| && u in g[v] && d[v] >= 0 && d[u] == -1
    ensures PrevTree(g, sources, d[u := d[v] + 1], pr[u := v], unsetPrev)
  {
    var d2, pr2 := d[u := d[v] + 1], pr[u := v];
    assert u !in sources by {
      assert !(d[u] == 0);
    }
    forall w | 0 <= w < |g| && d2[w] > 0
      ensures 0 <= pr2[w] < |g| && w in g[pr2[w]] && d2[pr2[w]] == d2[w] - 1
    {
      if w != u {
        assert d[pr[w]] >= 0;
      }
    }
  }

  /**
   * find_shortest_path: `dist[to] + 1` slots filled from the back by walking
   * `prev` from `to`; an unreached `to` gives the empty path.
   */
  method ShortestPath(g: AdjLists, sources: seq<int>, dist: seq<int>, prev: seq<int>, unsetPrev: int, to: int)
    returns (path: seq<int>)
    requires |dist| == |g| && |prev| == |g| && 0 <= to < |g|
    requires PrevTree(g, sources, dist, prev, unsetPrev)
    ensures dist[to] == -1 ==> path == []
    ensures dist[to] >= 0 ==> IsWalkFromSet(g, sources, path, to) && |path| == dist[to] + 1
  {
    var distance := dist[to];
    var a := new int[distance + 1];
    var curr := to;
    var i := distance;
    while i >= 0
      invariant -1 <= i <= distance
      invariant i >= 0 ==> 0 <= curr < |g| && dist[curr] == i
      invariant forall k :: i < k <= distance ==> 0 <= a[k] < |g| && dist[a[k]] == k
      invariant forall k :: i < k < distance ==> a[k + 1] in g[a[k]]
      invariant 0 <= i < distance ==> a[i + 1] in g[curr]
      invariant i == distance ==> curr == to
      invariant i < distance ==> a[distance] == to
    {
      a[i] := curr;
      curr := prev[curr];
      i := i - 1;
    }
    path := a[..];
  }

  /**
   * find_shortest_path from one vertex, as the programs call it: the result
   * is a shortest walk from `from` to `to`, or empty when there is none.
   */
  method FindShortestPath(g: AdjLists, from: int, to: int, unsetPrev: int, ghost closed: set<int>)
    returns (path: seq<int>)
    requires Closed(g, closed) && from in closed && 0 <= to < |g|
    ensures path == [] <==> !Reaches(g, from, to)
    ensures path != [] ==> IsWalkFromTo(g, path, from, to)
    ensures forall p :: IsWalkFromTo(g, p, from, to) ==> |path| <= |p|
  {
    var dist, prev := ShortestPaths(g, [from], unsetPrev, closed);
    path := ShortestPath(g, [from], dist, prev, unsetPrev, to);
    SingleSource(g, from, to);
  }

  /** find_shortest_distance: dist[to] from one vertex; -1 when unreachable. */
  method FindShortestDistance(g: AdjLists, from: int, to: int, unsetPrev: int, ghost closed: set<int>)
    returns (d: int)
    requires Closed(g, closed) && from in closed && 0 <= to < |g|
    ensures d == -1 <==> !Reaches(g, from, to)
    ensures d >= 0 ==> (exists p :: IsWalkFromTo(g, p, from, to) && |p| == d + 1)
    ensures forall p :: IsWalkFromTo(g, p, from, to) ==> d <= |p| - 1
  {
    var dist, prev := ShortestPaths(g, [from], unsetPrev, closed);
    d := dist[to];
    SingleSource(g, from, to);
  }

  /** A walk from the one-element source list is a walk from its vertex. */
  lemma SingleSource(g: AdjLists, from: int, to: int)
    ensures forall p :: IsWalkFromSet(g, [from], p, to) <==> IsWalkFromTo(g, p, from, to)
    ensures ReachableFromSet(g, [from], to) <==> Reaches(g, from, to)
  {
  }
}
