/**
 * Dijkstra's algorithm with lazy deletion (HF_min_path, J_traffic_rules):
 * a max-heap of (-distance, vertex) pairs, a processed flag per vertex, and
 * INT32_MAX for a distance not yet found.  A popped vertex that is already
 * processed is skipped; otherwise its edges are relaxed once.
 */
module Dijkstra {
  import opened Graphs
  import opened WeightedStore

  /** INT32_MAX, the initial distance of every vertex but the source. */
  const INF: int := 0x7fff_ffff

  /** All stored weights are non-negative. */
  ghost predicate NonNegative(w: WLists) {
    forall v, u :: 0 <= v < |w| && u in w[v] ==> w[v][u] >= 0
  }

  /** p is a non-empty walk along stored edges. */
  ghost predicate IsWWalk(w: WLists, p: seq<int>) {
    |p| >= 1 && (forall i :: 0 <= i < |p| ==> 0 <= p[i] < |w|) &&
    forall i :: 0 <= i < |p| - 1 ==> p[i + 1] in w[p[i]]
  }

  /** The sum of the weights of the edges of p. */
  ghost function WalkWeight(w: WLists, p: seq<int>): int
    requires IsWWalk(w, p)
    decreases |p|
  {
    if |p| == 1 then 0
    else
      assert IsWWalk(w, p[..|p| - 1]);
      WalkWeight(w, p[..|p| - 1]) + w[p[|p| - 2]][p[|p| - 1]]
  }

  /** p is a walk from s to t. */
  ghost predicate IsWWalkFromTo(w: WLists, p: seq<int>, s: int, t: int) {
    IsWWalk(w, p) && p[0] == s && p[|p| - 1] == t
  }

  /** A walk extended by one stored edge is a walk. */
  lemma WalkSnoc(w: WLists, p: seq<int>, u: int)
    requires IsWWalk(w, p) && u in w[p[|p| - 1]] && 0 <= u < |w|
    ensures IsWWalk(w, p + [u])
  {
    var q := p + [u];
    forall i | 0 <= i < |q| ensures 0 <= q[i] < |w| {
      if i < |p| {
        assert q[i] == p[i];
      }
    }
    forall i | 0 <= i < |q| - 1 ensures q[i + 1] in w[q[i]] {
      if i < |p| - 1 {
        assert q[i] == p[i] && q[i + 1] == p[i + 1];
      } else {
        assert q[i] == p[|p| - 1] && q[i + 1] == u;
      }
    }
  }

  /** A walk extended by one edge weighs that edge more. */
  lemma WalkExtend(w: WLists, p: seq<int>, u: int)
    requires IsWWalk(w, p) && u in w[p[|p| - 1]] && 0 <= u < |w|
    ensures IsWWalk(w, p + [u]) && WalkWeight(w, p + [u]) == WalkWeight(w, p) + w[p[|p| - 1]][u]
  {
    WalkSnoc(w, p, u);
    var q := p + [u];
    WalkWeightLast(w, q);
    assert q[..|q| - 1] == p;
    assert q[|q| - 2] == p[|p| - 1] && q[|q| - 1] == u;
  }

  /** One unfolding of WalkWeight: the last edge of a walk of two or more vertices. */
  lemma WalkWeightLast(w: WLists, q: seq<int>)
    requires IsWWalk(w, q) && |q| >= 2
    ensures IsWWalk(w, q[..|q| - 1]) && WalkWeight(w, q) == WalkWeight(w, q[..|q| - 1]) + w[q[|q| - 2]][q[|q| - 1]]
  {
  }

  /** With non-negative weights every walk weighs at least 0. */
  lemma {:induction false} WalkWeightNonNegative(w: WLists, p: seq<int>)
    requires NonNegative(w) && IsWWalk(w, p)
    ensures WalkWeight(w, p) >= 0
    decreases |p|
  {
    if |p| > 1 {
      assert IsWWalk(w, p[..|p| - 1]);
      WalkWeightNonNegative(w, p[..|p| - 1]);
    }
  }

  /** A queue entry (key, vertex). */
  type Entry = (int, int)

  /** std::pair's order: by key, then by vertex. */
  predicate EntryLe(a: Entry, b: Entry) {
    a.0 < b.0 || (a.0 == b.0 && a.1 <= b.1)
  }

  /** priority_queue::top(): the index of a greatest entry. */
  function TopIndex(q: seq<Entry>): (i: nat)
    requires |q| > 0
    ensures i < |q| && forall j :: 0 <= j < |q| ==> EntryLe(q[j], q[i])
    decreases |q|
  {
    if |q| == 1 then 0
    else
      var i := TopIndex(q[..|q| - 1]);
      assert forall j :: 0 <= j < |q| - 1 ==> q[..|q| - 1][j] == q[j];
      if EntryLe(q[|q| - 1], q[i]) then i else |q| - 1
  }

  /** The queue without its entry at i; every other entry stays. */
  function Without(q: seq<Entry>, i: nat): (r: seq<Entry>)
    requires i < |q|
    ensures |r| == |q| - 1
    ensures forall e :: e in r ==> e in q
    ensures forall e :: e in q && e != q[i] ==> e in r
  {
    assert forall e :: e in q && e != q[i] ==> e in q[..i] || e in q[i + 1..] by {
      forall e | e in q && e != q[i] ensures e in q[..i] || e in q[i + 1..] {
        var k :| 0 <= k < |q| && q[k] == e;
        if k < i {
          assert q[..i][k] == e;
        } else {
          assert q[i + 1..][k - i - 1] == e;
        }
      }
    }
    q[..i] + q[i + 1..]
  }

  /** Every finite distance is the weight of the recorded walk from s to that vertex. */
  ghost predicate Witnesses(w: WLists, s: int, dist: seq<int>, paths: seq<seq<int>>) {
    |dist| == |w| && |paths| == |w| &&
    forall u :: 0 <= u < |w| && dist[u] < INF ==> IsWWalkFromTo(w, paths[u], s, u) && WalkWeight(w, paths[u]) == dist[u]
  }

  /**
   * Every distance is at most INF, the source's at most 0, and every queue
   * entry names a vertex with a finite key no smaller than its distance.
   */
  ghost predicate Bounded(w: WLists, s: int, dist: seq<int>, q: seq<Entry>) {
    |dist| == |w| && 0 <= s < |w| && dist[s] <= 0 &&
    (forall u :: 0 <= u < |w| ==> dist[u] <= INF) &&
    (forall e :: e in q ==> 0 <= e.1 < |w| && dist[e.1] <= -e.0 < INF)
  }

  /** The edges of processed vertices other than open are relaxed: no shortcut through them remains. */
  ghost predicate Relaxed(w: WLists, dist: seq<int>, proc: seq<bool>, open: int) {
    |dist| == |w| && |proc| == |w| &&
    forall v, u :: 0 <= v < |w| && proc[v] && v != open && u in w[v] && 0 <= u < |w| ==> dist[u] <= dist[v] + w[v][u]
  }

  /**
   * The heap order facts of Dijkstra's algorithm: processed vertices are at
   * most bound, every entry is at least bound, and every unprocessed vertex with a finite
   * distance has its current entry in the queue.
   */
  ghost predicate Ordered(w: WLists, dist: seq<int>, proc: seq<bool>, q: seq<Entry>, bound: int) {
    |dist| == |w| && |proc| == |w| &&
    (forall v :: 0 <= v < |w| && proc[v] ==> dist[v] <= bound) &&
    (forall e :: e in q ==> -e.0 >= bound) &&
    (forall u :: 0 <= u < |w| && !proc[u] && dist[u] < INF ==> (-dist[u], u) in q)
  }

  /**
   * The loop state of the search: witnessed and bounded distances and, for
   * non-negative weights, the heap order facts and the relaxed edges of
   * every processed vertex but open.
   */
  ghost predicate State(w: WLists, s: int, dist: seq<int>, proc: seq<bool>, q: seq<Entry>,
                        paths: seq<seq<int>>, bound: int, open: int) {
    Witnesses(w, s, dist, paths) && Bounded(w, s, dist, q) && |proc| == |w| &&
    (NonNegative(w) ==> Ordered(w, dist, proc, q, bound) && Relaxed(w, dist, proc, open))
  }

  /** Lowering dist[u] to the weight of a walk p from s to u keeps every finite distance witnessed. */
  lemma WitnessesLowered(w: WLists, s: int, dist: seq<int>, paths: seq<seq<int>>, u: int, d: int, p: seq<int>)
    requires Witnesses(w, s, dist, paths) && 0 <= u < |w| && IsWWalkFromTo(w, p, s, u) && WalkWeight(w, p) == d
    ensures Witnesses(w, s, dist[u := d], paths[u := p])
  {
  }

  /** Lowering dist[u] below its old value and pushing (-d, u) keeps the bounds. */
  lemma BoundedLowered(w: WLists, s: int, dist: seq<int>, q: seq<Entry>, u: int, d: int)
    requires Bounded(w, s, dist, q) && 0 <= u < |w| && d < dist[u]
    ensures Bounded(w, s, dist[u := d], q + [(-d, u)])
  {
  }

  /** Lowering an unprocessed dist[u] to d >= bound and pushing (-d, u) keeps the heap order facts. */
  lemma OrderedLowered(w: WLists, dist: seq<int>, proc: seq<bool>, q: seq<Entry>, bound: int, u: int, d: int)
    requires Ordered(w, dist, proc, q, bound) && 0 <= u < |w| && !proc[u] && d >= bound
    ensures Ordered(w, dist[u := d], proc, q + [(-d, u)], bound)
  {
  }

  /** Lowering the distance of an unprocessed vertex keeps the relaxed edges relaxed. */
  lemma RelaxedLowered(w: WLists, dist: seq<int>, proc: seq<bool>, open: int, u: int, d: int)
    requires Relaxed(w, dist, proc, open) && 0 <= u < |w| && !proc[u] && d <= dist[u]
    ensures Relaxed(w, dist[u := d], proc, open)
  {
  }

  /**
   * One relaxation, of the edge v -> u: dist[u] drops to dist[v] + weight
   * when that is smaller, with the new entry pushed; no other distance
   * changes.
   */
  method RelaxEdge(w: WLists, s: int, v: int, u: int, dist: array<int>, proc: array<bool>, q: seq<Entry>,
                   ghost paths: seq<seq<int>>, ghost bound: int)
    returns (q': seq<Entry>, ghost paths': seq<seq<int>>)
    requires ValidWGraph(w) && dist.Length == |w| && proc.Length == |w| && 0 <= v < |w| && u in w[v]
    requires proc[v] && dist[v] < INF && (NonNegative(w) ==> dist[v] == bound)
    requires State(w, s, dist[..], proc[..], q, paths, bound, v)
    modifies dist
    ensures State(w, s, dist[..], proc[..], q', paths', bound, v) && (NonNegative(w) ==> dist[v] == bound)
    ensures dist[u] <= old(dist[v]) + w[v][u] && dist[u] <= old(dist[u])
    ensures dist[..] == old(dist[..])[u := dist[u]]
  {
    q', paths' := q, paths;
    var nd := dist[v] + w[v][u];
    if nd < dist[u] {
      ghost var d0 := dist[..];
      assert IsWWalkFromTo(w, paths[v], s, v);
      WalkExtend(w, paths[v], u);
      WitnessesLowered(w, s, d0, paths, u, nd, paths[v] + [u]);
      BoundedLowered(w, s, d0, q, u, nd);
      if NonNegative(w) {
        assert !proc[u] && u != v;
        OrderedLowered(w, d0, proc[..], q, bound, u, nd);
        RelaxedLowered(w, d0, proc[..], v, u, nd);
      }
      paths' := paths[u := paths[v] + [u]];
      dist[u] := nd;
      assert dist[..] == d0[u := nd];
      q' := q + [(-nd, u)];
    }
  }

  /** The next neighbour the map's iteration visits; the order is unspecified, so any remaining key. */
  method NextKey<K>(todo: set<K>) returns (u: K)
    requires todo != {}
    ensures u in todo
  {
    u :| u in todo;
  }

  /**
   * The relaxation loop over the neighbours of the popped vertex v, in the
   * map's order: every edge v -> u is relaxed once, so afterwards all of
   * v's edges are relaxed too.  Distances only go down.
   */
  method RelaxNeighbours(w: WLists, s: int, v: int, dist: array<int>, proc: array<bool>, q: seq<Entry>,
                         ghost paths: seq<seq<int>>, ghost bound: int)
    returns (q': seq<Entry>, ghost paths': seq<seq<int>>)
    requires ValidWGraph(w) && dist.Length == |w| && proc.Length == |w| && 0 <= v < |w| && proc[v] && dist[v] < INF
    requires State(w, s, dist[..], proc[..], q, paths, bound, v) && (NonNegative(w) ==> dist[v] == bound)
    modifies dist
    ensures State(w, s, dist[..], proc[..], q', paths', bound, -1)
  {
    q', paths' := q, paths;
    var todo := w[v].Keys;
    ghost var done: set<int> := {};
    while todo != {}
      invariant todo <= w[v].Keys && done == w[v].Keys - todo && dist[v] < INF
      invariant State(w, s, dist[..], proc[..], q', paths', bound, v) && (NonNegative(w) ==> dist[v] == bound)
      invariant NonNegative(w) ==> RelaxedFrom(w, dist[..], v, done)
      decreases |todo|
    {
      var u := NextKey(todo);
      ghost var d0 := dist[..];
      q', paths' := RelaxEdge(w, s, v, u, dist, proc, q', paths', bound);
      if NonNegative(w) {
        RelaxedFromStep(w, d0, dist[..], v, done, u);
      }
      todo, done := todo - {u}, done + {u};
    }
    StateClosed(w, s, dist[..], proc[..], q', paths', bound, v);
  }

  /** The edges of v to the neighbours in done are relaxed. */
  ghost predicate RelaxedFrom(w: WLists, dist: seq<int>, v: int, done: set<int>)
    requires 0 <= v < |w| && |dist| == |w|
  {
    forall u :: u in done && u in w[v] && 0 <= u < |w| ==> dist[u] <= dist[v] + w[v][u]
  }

  /** Relaxing v -> u, which lowers nothing but dist[u], adds u to v's relaxed neighbours. */
  lemma RelaxedFromStep(w: WLists, d0: seq<int>, dist: seq<int>, v: int, done: set<int>, u: int)
    requires 0 <= v < |w| && |d0| == |w| && |dist| == |w| && u in w[v] && 0 <= u < |w| && u !in done
    requires RelaxedFrom(w, d0, v, done) && dist[v] == d0[v] && dist[u] <= d0[v] + w[v][u]
    requires dist == d0[u := dist[u]]
    ensures RelaxedFrom(w, dist, v, done + {u})
  {
  }

  /** Once all of v's edges are relaxed, v need not be left open. */
  lemma StateClosed(w: WLists, s: int, dist: seq<int>, proc: seq<bool>, q: seq<Entry>, paths: seq<seq<int>>, bound: int, v: int)
    requires ValidWGraph(w) && 0 <= v < |w| && State(w, s, dist, proc, q, paths, bound, v)
    requires NonNegative(w) ==> RelaxedFrom(w, dist, v, w[v].Keys)
    ensures State(w, s, dist, proc, q, paths, bound, -1)
  {
  }

  /**
   * One turn of the main loop: pop the top entry; skip its vertex when it
   * is processed, else mark it processed and relax its edges.  Either the
   * unprocessed vertices decrease, or they stay and the queue shrinks.
   */
  method PopAndProcess(w: WLists, s: int, dist: array<int>, proc: array<bool>, q: seq<Entry>,
                       ghost paths: seq<seq<int>>, ghost bound: int)
    returns (q': seq<Entry>, ghost paths': seq<seq<int>>, ghost bound': int)
    requires ValidWGraph(w) && dist != proc as object && dist.Length == |w| && proc.Length == |w| && q != []
    requires State(w, s, dist[..], proc[..], q, paths, bound, -1)
    modifies dist, proc
    ensures State(w, s, dist[..], proc[..], q', paths', bound', -1)
    ensures |IndicesWith(proc[..], false)| < |IndicesWith(old(proc[..]), false)| ||
      (proc[..] == old(proc[..]) && |q'| < |q|)
  {
    var i := TopIndex(q);
    var v := q[i].1;
    q' := Without(q, i);
    paths', bound' := paths, bound;
    if proc[v] {
      PopProcessed(w, s, dist[..], proc[..], q, paths, bound, i);
      return;
    }
    bound' := if NonNegative(w) then dist[v] else bound;
    PopUnprocessed(w, s, dist[..], proc[..], q, paths, bound, i, bound');
    FewerWith(proc[..], proc[..][v := true], false, v);
    proc[v] := true;
    assert proc[..] == old(proc[..])[v := true];
    q', paths' := RelaxNeighbours(w, s, v, dist, proc, q', paths', bound');
  }

  /** Dropping an entry of a processed vertex keeps the state. */
  lemma PopProcessed(w: WLists, s: int, dist: seq<int>, proc: seq<bool>, q: seq<Entry>, paths: seq<seq<int>>, bound: int, i: nat)
    requires State(w, s, dist, proc, q, paths, bound, -1) && i < |q| && 0 <= q[i].1 < |proc| && proc[q[i].1]
    ensures State(w, s, dist, proc, Without(q, i), paths, bound, -1)
  {
  }

  /**
   * The top entry of an unprocessed vertex v is current -- its key is
   * -dist[v] -- and no smaller than any processed distance: marking v
   * processed with bound dist[v] keeps the state, with v's edges still open.
   */
  lemma PopUnprocessed(w: WLists, s: int, dist: seq<int>, proc: seq<bool>, q: seq<Entry>, paths: seq<seq<int>>, bound: int,
                       i: nat, bound': int)
    requires State(w, s, dist, proc, q, paths, bound, -1) && i < |q| && forall j :: 0 <= j < |q| ==> EntryLe(q[j], q[i])
    requires 0 <= q[i].1 < |proc| && !proc[q[i].1] && (NonNegative(w) ==> bound' == dist[q[i].1])
    ensures dist[q[i].1] < INF
    ensures State(w, s, dist, proc[q[i].1 := true], Without(q, i), paths, bound', q[i].1)
    ensures NonNegative(w) ==> dist[q[i].1] == bound'
  {
    var v := q[i].1;
    assert q[i] in q;
    if NonNegative(w) {
      assert (-dist[v], v) in q;
      var r := Without(q, i);
      forall e | e in r ensures -e.0 >= bound' {
        var j :| 0 <= j < |q| && q[j] == e;
      }
    }
  }

  /**
   * find_shortest_distances_from_vertex_(graph, s): every finite distance
   * is the weight of some walk from s, an unreached vertex keeps INF, and
   * with non-negative weights no walk from s to t weighs less than dist[t]
   * -- dist[t] is the least walk weight, or INF when every walk weighs at
   * least INF or there is none.
   */
  method ShortestDistances(w: WLists, s: int) returns (dist: array<int>)
    requires ValidWGraph(w) && 0 <= s < |w|
    ensures dist.Length == |w| && dist[s] <= 0
    ensures forall t :: 0 <= t < |w| ==> dist[t] <= INF
    ensures forall t :: 0 <= t < |w| && dist[t] < INF ==> exists p :: IsWWalkFromTo(w, p, s, t) && WalkWeight(w, p) == dist[t]
    ensures NonNegative(w) ==> forall t, p :: 0 <= t < |w| && IsWWalkFromTo(w, p, s, t) ==> dist[t] <= WalkWeight(w, p)
  {
    dist := new int[|w|](_ => INF);
    var proc := new bool[|w|](_ => false);
    dist[s] := 0;
    var q: seq<Entry> := [(0, s)];
    ghost var paths: seq<seq<int>> := seq(|w|, u => [u]);
    ghost var bound := 0;
    while q != []
      invariant dist.Length == |w| && proc.Length == |w|
      invariant State(w, s, dist[..], proc[..], q, paths, bound, -1)
      decreases |IndicesWith(proc[..], false)|, |q|
    {
      q, paths, bound := PopAndProcess(w, s, dist, proc, q, paths, bound);
    }
    Finished(w, s, dist[..], proc[..], paths, bound);
  }

  /** The final state answers both halves: each finite distance has its walk, and no walk is lighter. */
  lemma Finished(w: WLists, s: int, dist: seq<int>, proc: seq<bool>, paths: seq<seq<int>>, bound: int)
    requires ValidWGraph(w) && State(w, s, dist, proc, [], paths, bound, -1)
    ensures forall t :: 0 <= t < |w| && dist[t] < INF ==> exists p :: IsWWalkFromTo(w, p, s, t) && WalkWeight(w, p) == dist[t]
    ensures NonNegative(w) ==> forall t, p :: 0 <= t < |w| && IsWWalkFromTo(w, p, s, t) ==> dist[t] <= WalkWeight(w, p)
  {
    forall t | 0 <= t < |w| && dist[t] < INF
      ensures exists p :: IsWWalkFromTo(w, p, s, t) && WalkWeight(w, p) == dist[t]
    {
      assert IsWWalkFromTo(w, paths[t], s, t);
    }
    if NonNegative(w) {
      forall t, p | 0 <= t < |w| && IsWWalkFromTo(w, p, s, t) ensures dist[t] <= WalkWeight(w, p) {
        WalkLowerBound(w, s, dist, proc, p);
      }
    }
  }

  /**
   * Once the queue is empty every vertex with a finite distance is
   * processed, and the relaxed edges bound dist along any walk from s by
   * the walk's weight.
   */
  lemma {:induction false} WalkLowerBound(w: WLists, s: int, dist: seq<int>, proc: seq<bool>, p: seq<int>)
    requires NonNegative(w) && Bounded(w, s, dist, []) && Relaxed(w, dist, proc, -1)
    requires forall u :: 0 <= u < |w| && dist[u] < INF ==> proc[u]
    requires IsWWalk(w, p) && p[0] == s
    ensures dist[p[|p| - 1]] <= WalkWeight(w, p)
    decreases |p|
  {
    if |p| > 1 {
      var q := p[..|p| - 1];
      assert IsWWalk(w, q);
      WalkLowerBound(w, s, dist, proc, q);
      var v, u := q[|q| - 1], p[|p| - 1];
      assert u in w[v];
      if dist[v] == INF {
        assert w[v][u] >= 0;
      }
    }
  }

  /** find_shortest_distance(g, from, to): dist[to] of the search from `from`. */
  method ShortestDistance(w: WLists, from: int, to: int) returns (d: int)
    requires ValidWGraph(w) && 0 <= from < |w| && 0 <= to < |w|
    ensures d <= INF && (from == to && NonNegative(w) ==> d == 0)
    ensures d < INF ==> exists p :: IsWWalkFromTo(w, p, from, to) && WalkWeight(w, p) == d
    ensures NonNegative(w) ==> forall p :: IsWWalkFromTo(w, p, from, to) ==> d <= WalkWeight(w, p)
  {
    var dist := ShortestDistances(w, from);
    d := dist[to];
    if from == to && NonNegative(w) {
      assert IsWWalkFromTo(w, [from], from, to);
      if d < INF {
        var p :| IsWWalkFromTo(w, p, from, to) && WalkWeight(w, p) == d;
        WalkWeightNonNegative(w, p);
      }
    }
  }
}
