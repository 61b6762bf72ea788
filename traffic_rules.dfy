/**
 * The traffic rules program: one-way roads between crossings.  main
 * condenses the road graph, gives every condensation edge c -> d weight 0
 * and its reverse d -> c weight 1, and answers each query by Dijkstra's
 * algorithm between the components of the two crossings: the least number
 * of roads that must be driven against their direction, or -1 when the
 * search leaves the distance at INT32_MAX.
 */
module TrafficRules {
  import opened Graphs
  import opened GraphStore
  import opened WeightedStore
  import opened Kosaraju
  import opened Condensation
  import opened Dijkstra

  /** The weighted add_edge calls for the condensation neighbours l of v: v -> u at 0, then u -> v at 1. */
  function RowCalls(v: int, l: seq<int>): (calls: seq<(int, int, int)>)
    ensures |calls| == 2 * |l|
    ensures forall k :: 0 <= k < |l| ==> calls[2 * k] == (v, l[k], 0) && calls[2 * k + 1] == (l[k], v, 1)
    decreases |l|
  {
    if l == [] then []
    else
      var prev := RowCalls(v, l[..|l| - 1]);
      var u := l[|l| - 1];
      var calls := prev + [(v, u, 0), (u, v, 1)];
      assert forall k :: 0 <= k < |l| - 1 ==> l[..|l| - 1][k] == l[k];
      calls
  }

  /** The calls of row v name v and one of its condensation neighbours. */
  lemma RowCallsInRange(cond: AdjLists, v: int)
    requires ValidGraph(cond) && 0 <= v < |cond|
    ensures WCallsInRange(RowCalls(v, cond[v]), |cond|)
  {
    var calls := RowCalls(v, cond[v]);
    forall i | 0 <= i < |calls| ensures 0 <= calls[i].0 < |cond| && 0 <= calls[i].1 < |cond| {
      var k := i / 2;
      assert i == 2 * k || i == 2 * k + 1;
      assert 0 <= cond[v][k] < |cond|;
    }
  }

  /** Two runs of calls in range make one. */
  lemma CallsInRangeConcat(a: seq<(int, int, int)>, b: seq<(int, int, int)>, n: int)
    requires WCallsInRange(a, n) && WCallsInRange(b, n)
    ensures WCallsInRange(a + b, n)
  {
    forall i | 0 <= i < |a + b| ensures 0 <= (a + b)[i].0 < n && 0 <= (a + b)[i].1 < n {
      if i >= |a| {
        assert (a + b)[i] == b[i - |a|];
      }
    }
  }

  /** The weighted add_edge calls of main's loop over the first k condensation vertices. */
  function PenaltyCalls(cond: AdjLists, k: nat): (calls: seq<(int, int, int)>)
    requires ValidGraph(cond) && k <= |cond|
    ensures WCallsInRange(calls, |cond|)
  {
    if k == 0 then []
    else
      RowCallsInRange(cond, k - 1);
      CallsInRangeConcat(PenaltyCalls(cond, k - 1), RowCalls(k - 1, cond[k - 1]), |cond|);
      PenaltyCalls(cond, k - 1) + RowCalls(k - 1, cond[k - 1])
  }

  /** The weighted store after the penalty loop of main over all of cond. */
  ghost function PenaltyStore(cond: AdjLists): (w: WLists)
    requires ValidGraph(cond)
    ensures |w| == |cond|
  {
    WEdgesAdded(seq(|cond|, _ => map[]), PenaltyCalls(cond, |cond|))
  }

  /** A call made by the loop over the first k vertices: a road of cond at 0, or its reverse at 1. */
  ghost predicate PenaltyCall(cond: AdjLists, k: int, c: (int, int, int)) {
    || (c.2 == 0 && 0 <= c.0 < k && c.0 < |cond| && c.1 in cond[c.0])
    || (c.2 == 1 && 0 <= c.1 < k && c.1 < |cond| && c.0 in cond[c.1])
  }

  /** The loop over the first k vertices makes only those calls, and makes both for each of their edges. */
  lemma {:induction false} PenaltyCallsFacts(cond: AdjLists, k: nat)
    requires ValidGraph(cond) && k <= |cond|
    ensures forall i :: 0 <= i < |PenaltyCalls(cond, k)| ==> PenaltyCall(cond, k, PenaltyCalls(cond, k)[i])
    ensures forall a, b :: 0 <= a < k && b in cond[a] ==>
      CalledPair(PenaltyCalls(cond, k), a, b) && CalledPair(PenaltyCalls(cond, k), b, a)
  {
    if k > 0 {
      PenaltyCallsFacts(cond, k - 1);
      var prev := PenaltyCalls(cond, k - 1);
      var row := RowCalls(k - 1, cond[k - 1]);
      var calls := PenaltyCalls(cond, k);
      assert calls == prev + row;
      forall i | 0 <= i < |calls| ensures PenaltyCall(cond, k, calls[i]) {
        if i < |prev| {
          assert calls[i] == prev[i] && PenaltyCall(cond, k - 1, prev[i]);
        } else {
          var r := (i - |prev|) / 2;
          var u := cond[k - 1][r];
          assert u in cond[k - 1];
          assert i - |prev| == 2 * r || i - |prev| == 2 * r + 1;
          assert calls[i] == row[i - |prev|];
          assert calls[i] == (k - 1, u, 0) || calls[i] == (u, k - 1, 1);
        }
      }
      forall a, b | 0 <= a < k && b in cond[a] ensures CalledPair(calls, a, b) && CalledPair(calls, b, a) {
        if a < k - 1 {
          assert CalledPair(prev, a, b) && CalledPair(prev, b, a);
          var i :| 0 <= i < |prev| && prev[i].0 == a && prev[i].1 == b;
          var j :| 0 <= j < |prev| && prev[j].0 == b && prev[j].1 == a;
          assert calls[i] == prev[i] && calls[j] == prev[j];
        } else {
          var r :| 0 <= r < |cond[a]| && cond[a][r] == b;
          assert calls[|prev| + 2 * r] == row[2 * r] && calls[|prev| + 2 * r + 1] == row[2 * r + 1];
        }
      }
    }
  }

  /** The weighted condensation: both directions of every road of cond, at 0 along it and 1 against it. */
  ghost predicate PenaltyEdges(cond: AdjLists, w: WLists) {
    && |w| == |cond|
    && (forall v, u :: 0 <= v < |w| ==> (u in w[v] <==> Edge(cond, v, u) || Edge(cond, u, v)))
    && (forall v, u :: 0 <= v < |w| && u in w[v] ==> w[v][u] == if Edge(cond, v, u) then 0 else 1)
  }

  /** An acyclic graph has no pair of opposite edges. */
  lemma NoOpposite(cond: AdjLists, v: int, u: int)
    requires ValidGraph(cond) && !HasCycle(cond) && 0 <= v < |cond| && u in cond[v]
    ensures v !in cond[u]
  {
    if v in cond[u] {
      assert IsCycle(cond, [v, u, v]);
    }
  }

  /** The penalty loop stores v -> u exactly for a road between them, either way. */
  lemma PenaltyEdge(cond: AdjLists, v: int, u: int)
    requires ValidGraph(cond) && 0 <= v < |cond|
    ensures var w := PenaltyStore(cond);
      u in w[v] <==> Edge(cond, v, u) || Edge(cond, u, v)
  {
    var empty: WLists := seq(|cond|, _ => map[]);
    var calls := PenaltyCalls(cond, |cond|);
    PenaltyCallsFacts(cond, |cond|);
    FirstWeightKept(empty, calls, v, u);
    if CalledPair(calls, v, u) {
      var i :| 0 <= i < |calls| && calls[i].0 == v && calls[i].1 == u;
      assert PenaltyCall(cond, |cond|, calls[i]);
    }
  }

  /** On an acyclic condensation a stored edge v -> u weighs 0 along a road and 1 against one. */
  lemma PenaltyWeight(cond: AdjLists, v: int, u: int)
    requires ValidGraph(cond) && !HasCycle(cond) && 0 <= v < |cond|
    requires u in PenaltyStore(cond)[v]
    ensures PenaltyStore(cond)[v][u] == if Edge(cond, v, u) then 0 else 1
  {
    var empty: WLists := seq(|cond|, _ => map[]);
    var calls := PenaltyCalls(cond, |cond|);
    PenaltyCallsFacts(cond, |cond|);
    FirstWeightKept(empty, calls, v, u);
    var x := if Edge(cond, v, u) then 0 else 1;
    forall i | 0 <= i < |calls| && calls[i].0 == v && calls[i].1 == u ensures calls[i].2 == x {
      assert PenaltyCall(cond, |cond|, calls[i]);
      if u in cond[v] {
        NoOpposite(cond, v, u);
      }
    }
    UniformWeight(empty, calls, v, u, x);
  }

  /**
   * On an acyclic condensation the penalty loop stores each road at
   * weight 0 and its reverse at weight 1, and nothing else.
   */
  lemma PenaltyWeights(cond: AdjLists)
    requires ValidGraph(cond) && !HasCycle(cond)
    ensures PenaltyEdges(cond, PenaltyStore(cond))
  {
    var w := PenaltyStore(cond);
    forall v, u | 0 <= v < |w| ensures u in w[v] <==> Edge(cond, v, u) || Edge(cond, u, v) {
      PenaltyEdge(cond, v, u);
    }
    forall v, u | 0 <= v < |w| && u in w[v] ensures w[v][u] == if Edge(cond, v, u) then 0 else 1 {
      PenaltyWeight(cond, v, u);
    }
  }

  /** A penalty graph holds only vertices and only the weights 0 and 1. */
  lemma PenaltyGraphFacts(cond: AdjLists, w: WLists)
    requires ValidGraph(cond) && PenaltyEdges(cond, w)
    ensures ValidWGraph(w) && NonNegative(w)
  {
    forall v, u | 0 <= v < |w| && u in w[v] ensures 0 <= u < |w| {
      if Edge(cond, v, u) {
        var k :| 0 <= k < |cond[v]| && cond[v][k] == u;
      }
    }
  }

  /** p is a walk of crossings of cond, each step along a road or against one. */
  ghost predicate RoadWalk(cond: AdjLists, p: seq<int>) {
    && |p| >= 1 && (forall i :: 0 <= i < |p| ==> 0 <= p[i] < |cond|)
    && forall i :: 0 <= i < |p| - 1 ==> Edge(cond, p[i], p[i + 1]) || Edge(cond, p[i + 1], p[i])
  }

  /** p is such a walk from s to t. */
  ghost predicate RoadWalkFromTo(cond: AdjLists, p: seq<int>, s: int, t: int) {
    RoadWalk(cond, p) && p[0] == s && p[|p| - 1] == t
  }

  /** The number of steps of p taken against the direction of a road. */
  ghost function Reversals(cond: AdjLists, p: seq<int>): nat
    decreases |p|
  {
    if |p| <= 1 then 0
    else
      var v, u := p[|p| - 2], p[|p| - 1];
      Reversals(cond, p[..|p| - 1]) + if Edge(cond, v, u) then 0 else 1
  }

  /** Walks of the penalty graph are the road walks, and a walk weighs its number of reversals. */
  lemma {:induction false} PenaltyWalk(cond: AdjLists, w: WLists, p: seq<int>)
    requires ValidGraph(cond) && PenaltyEdges(cond, w)
    ensures IsWWalk(w, p) <==> RoadWalk(cond, p)
    ensures IsWWalk(w, p) ==> WalkWeight(w, p) == Reversals(cond, p)
    decreases |p|
  {
    if IsWWalk(w, p) || RoadWalk(cond, p) {
      forall i | 0 <= i < |p| - 1 ensures p[i + 1] in w[p[i]] <==> Edge(cond, p[i], p[i + 1]) || Edge(cond, p[i + 1], p[i]) {
      }
    }
    if |p| > 1 && IsWWalk(w, p) {
      var q := p[..|p| - 1];
      assert IsWWalk(w, q);
      PenaltyWalk(cond, w, q);
    }
  }

  /**
   * The printed answer a for the components s and t: the least number of
   * reversals over the road walks from s to t, or -1 when every walk needs
   * at least INT32_MAX of them.
   */
  ghost predicate MinPenalty(cond: AdjLists, s: int, t: int, a: int) {
    && a >= -1
    && (a >= 0 ==>
         && (exists p :: RoadWalkFromTo(cond, p, s, t) && Reversals(cond, p) == a)
         && (forall p :: RoadWalkFromTo(cond, p, s, t) ==> a <= Reversals(cond, p)))
    && (a == -1 ==> forall p :: RoadWalkFromTo(cond, p, s, t) ==> Reversals(cond, p) >= INF)
  }

  /** The loop of main over the neighbours of condensation vertex v. */
  method PenaltyRow(store: WeightedAdjListsGraph, cond: AdjLists, v: int, ghost init: WLists)
    requires ValidGraph(cond) && 0 <= v < |cond| && |init| == |cond|
    requires store.Valid() && store.directed && store.nVertices == |cond|
    requires store.lists == WEdgesAdded(init, PenaltyCalls(cond, v))
    modifies store
    ensures store.Valid() && store.lists == WEdgesAdded(init, PenaltyCalls(cond, v + 1))
  {
    ghost var prev := PenaltyCalls(cond, v);
    var l := cond[v];
    var k := 0;
    assert prev + RowCalls(v, l[..0]) == prev;
    while k < |l|
      invariant 0 <= k <= |l| && store.Valid() && |store.lists| == |cond|
      invariant WCallsInRange(prev + RowCalls(v, l[..k]), |cond|)
      invariant store.lists == WEdgesAdded(init, prev + RowCalls(v, l[..k]))
    {
      var u := l[k];
      RowStep(init, cond, v, k);
      store.AddEdge(v, u, 0);
      store.AddEdge(u, v, 1);
      k := k + 1;
    }
    assert l[..k] == l;
  }

  /** One more neighbour of v extends the fold by its two calls. */
  lemma RowStep(init: WLists, cond: AdjLists, v: int, k: int)
    requires ValidGraph(cond) && 0 <= v < |cond| && |init| == |cond| && 0 <= k < |cond[v]|
    requires WCallsInRange(PenaltyCalls(cond, v) + RowCalls(v, cond[v][..k]), |cond|)
    ensures WCallsInRange(PenaltyCalls(cond, v) + RowCalls(v, cond[v][..k + 1]), |cond|)
    ensures var a := WEdgesAdded(init, PenaltyCalls(cond, v) + RowCalls(v, cond[v][..k]));
      var u := cond[v][k];
      var b := a[v := Emplaced(a[v], u, 0)];
      WEdgesAdded(init, PenaltyCalls(cond, v) + RowCalls(v, cond[v][..k + 1])) == b[u := Emplaced(b[u], v, 1)]
  {
    var l := cond[v];
    var u := l[k];
    assert l[..k + 1][..k] == l[..k];
    var a := PenaltyCalls(cond, v) + RowCalls(v, l[..k]);
    var c := PenaltyCalls(cond, v) + RowCalls(v, l[..k + 1]);
    assert c == a + [(v, u, 0), (u, v, 1)];
    assert c[..|c| - 1] == a + [(v, u, 0)];
    assert (a + [(v, u, 0)])[..|a|] == a;
  }

  /** The construction of weighted_scc in main. */
  method PenaltyGraph(cond: AdjLists) returns (w: WLists)
    requires ValidGraph(cond)
    ensures w == PenaltyStore(cond)
  {
    var store := new WeightedAdjListsGraph(|cond|, true);
    ghost var init := store.lists;
    var v := 0;
    while v < |cond|
      invariant 0 <= v <= |cond| && store.Valid() && store.directed && store.nVertices == |cond|
      invariant store.lists == WEdgesAdded(init, PenaltyCalls(cond, v))
    {
      PenaltyRow(store, cond, v, init);
      v := v + 1;
    }
    w := store.lists;
  }

  /** One query: the distance between the components, with INT32_MAX printed as -1. */
  method Penalty(w: WLists, ghost cond: AdjLists, comps: seq<int>, from: int, to: int) returns (answer: int)
    requires ValidGraph(cond) && PenaltyEdges(cond, w)
    requires 1 <= from <= |comps| && 1 <= to <= |comps| && forall x :: 0 <= x < |comps| ==> 0 <= comps[x] < |w|
    ensures MinPenalty(cond, comps[from - 1], comps[to - 1], answer)
  {
    PenaltyGraphFacts(cond, w);
    var s, t := comps[from - 1], comps[to - 1];
    var d := ShortestDistance(w, s, t);
    answer := if d == INF then -1 else d;
    forall p | RoadWalkFromTo(cond, p, s, t) ensures d <= Reversals(cond, p) {
      PenaltyWalk(cond, w, p);
      assert IsWWalkFromTo(w, p, s, t);
    }
    if d < INF {
      ghost var p :| IsWWalkFromTo(w, p, s, t) && WalkWeight(w, p) == d;
      PenaltyWalk(cond, w, p);
      WalkWeightNonNegative(w, p);
      assert RoadWalkFromTo(cond, p, s, t);
    }
  }

  /** The query loop of main: one answer per query, in order. */
  method Answers(w: WLists, ghost cond: AdjLists, comps: seq<int>, queries: seq<(int, int)>) returns (answers: seq<int>)
    requires ValidGraph(cond) && PenaltyEdges(cond, w) && EdgesIn(|comps|, queries)
    requires forall x :: 0 <= x < |comps| ==> 0 <= comps[x] < |w|
    ensures |answers| == |queries|
    ensures forall i :: 0 <= i < |queries| ==> MinPenalty(cond, comps[queries[i].0 - 1], comps[queries[i].1 - 1], answers[i])
  {
    answers := [];
    var i := 0;
    while i < |queries|
      invariant 0 <= i <= |queries| && |answers| == i
      invariant forall j :: 0 <= j < i ==> MinPenalty(cond, comps[queries[j].0 - 1], comps[queries[j].1 - 1], answers[j])
    {
      var a := Penalty(w, cond, comps, queries[i].0, queries[i].1);
      answers := answers + [a];
      i := i + 1;
    }
  }

  /**
   * main, without its I/O: the roads, the condensation and its penalty
   * graph, and one answer per query.  The searches walk each unordered_set
   * in the order `lists` gives, any order of the elements read.
   */
  method TrafficRules(n: nat, edges: seq<(int, int)>, lists: AdjLists, queries: seq<(int, int)>)
    returns (ghost comps: seq<int>, ghost cond: AdjLists, ghost w: WLists, answers: seq<int>)
    requires EdgesIn(n, edges) && Reordered(lists, InputGraph(n, edges, true, true)) && EdgesIn(n, queries)
    ensures Components(lists, comps, |cond|) && CondEdges(lists, comps, cond, true)
    ensures PenaltyEdges(cond, w)
    ensures |answers| == |queries|
    ensures forall i :: 0 <= i < |queries| ==> MinPenalty(cond, comps[queries[i].0 - 1], comps[queries[i].1 - 1], answers[i])
  {
    var stored := ReadGraph(n, edges, true, true);
    ReorderedValid(lists, stored);
    var g := lists;
    var c, cp := BuildCondensation(g, true);
    CondensationAcyclic(g, cp, c);
    var weighted := PenaltyGraph(c);
    PenaltyWeights(c);
    answers := Answers(weighted, c, cp, queries);
    comps, cond, w := cp, c, weighted;
  }
}
