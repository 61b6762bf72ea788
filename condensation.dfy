/**
 * build_condensation: one vertex per strongly connected component, and an
 * edge between two components for every edge of the graph that crosses
 * from one to the other.  The lists are sets, so each crossing pair is
 * stored once; the undirected variant stores it both ways.
 */
module Condensation {
  import opened Graphs
  import opened GraphStore
  import opened PostOrder
  import opened Kosaraju

  /** Neighbour j of x leads from component c into a different component d. */
  ghost predicate Crosses(g: AdjLists, comps: seq<int>, x: int, j: int, c: int, d: int) {
    0 <= x < |g| && 0 <= j < |g[x]| && x < |comps| && 0 <= g[x][j] < |comps| &&
    comps[x] == c && comps[g[x][j]] == d && c != d
  }

  /** Some edge read before neighbour k of vertex v leads from c into d. */
  ghost predicate CrossBefore(g: AdjLists, comps: seq<int>, c: int, d: int, v: int, k: int) {
    exists x, j :: Crosses(g, comps, x, j, c, d) && (x < v || (x == v && j < k))
  }

  /** Some edge of g leads from component c into component d != c. */
  ghost predicate CrossEdge(g: AdjLists, comps: seq<int>, c: int, d: int) {
    exists x, j :: Crosses(g, comps, x, j, c, d)
  }

  /** The condensation lists hold exactly the crossings read so far (both ways when undirected). */
  ghost predicate CondBuilt(g: AdjLists, comps: seq<int>, lists: seq<seq<int>>, directed: bool, v: int, k: int) {
    forall c, d :: 0 <= c < |lists| ==>
      (d in lists[c] <==> CrossBefore(g, comps, c, d, v, k) || (!directed && CrossBefore(g, comps, d, c, v, k)))
  }

  /** Reading neighbour k of v adds at most the crossing it makes. */
  lemma CrossStep(g: AdjLists, comps: seq<int>, v: int, k: int, c: int, d: int)
    requires ValidGraph(g) && |comps| == |g| && 0 <= v < |g| && 0 <= k < |g[v]|
    ensures CrossBefore(g, comps, c, d, v, k + 1) <==>
      CrossBefore(g, comps, c, d, v, k) || (comps[v] == c && comps[g[v][k]] == d && c != d)
  {
    if CrossBefore(g, comps, c, d, v, k + 1) {
      var x, j :| Crosses(g, comps, x, j, c, d) && (x < v || (x == v && j < k + 1));
      if !(x == v && j == k) {
        assert CrossBefore(g, comps, c, d, v, k);
      }
    }
    if CrossBefore(g, comps, c, d, v, k) {
      var x, j :| Crosses(g, comps, x, j, c, d) && (x < v || (x == v && j < k));
      assert Crosses(g, comps, x, j, c, d) && (x < v || (x == v && j < k + 1));
    }
    if comps[v] == c && comps[g[v][k]] == d && c != d {
      assert Crosses(g, comps, v, k, c, d);
    }
  }

  /** Neighbour k of v goes into the condensation when it crosses. */
  lemma CondStep(g: AdjLists, comps: seq<int>, lists: seq<seq<int>>, directed: bool, v: int, k: int)
    requires ValidGraph(g) && |comps| == |g| && 0 <= v < |g| && 0 <= k < |g[v]|
    requires forall x :: 0 <= x < |g| ==> 0 <= comps[x] < |lists|
    requires CondBuilt(g, comps, lists, directed, v, k)
    ensures var c, d := comps[v], comps[g[v][k]];
      CondBuilt(g, comps, if c != d then EdgeAdded(lists, c, d, directed, true) else lists, directed, v, k + 1)
  {
    var c0, d0 := comps[v], comps[g[v][k]];
    var lists' := if c0 != d0 then EdgeAdded(lists, c0, d0, directed, true) else lists;
    forall c, d | 0 <= c < |lists'|
      ensures d in lists'[c] <==> CrossBefore(g, comps, c, d, v, k + 1) || (!directed && CrossBefore(g, comps, d, c, v, k + 1))
    {
      CrossStep(g, comps, v, k, c, d);
      CrossStep(g, comps, v, k, d, c);
    }
  }

  /** Past the last neighbour of v, the crossings read are those of the vertices up to v. */
  lemma CondRow(g: AdjLists, comps: seq<int>, lists: seq<seq<int>>, directed: bool, v: int)
    requires 0 <= v < |g| && CondBuilt(g, comps, lists, directed, v, |g[v]|)
    ensures CondBuilt(g, comps, lists, directed, v + 1, 0)
  {
    forall c, d ensures CrossBefore(g, comps, c, d, v, |g[v]|) <==> CrossBefore(g, comps, c, d, v + 1, 0) {
      if CrossBefore(g, comps, c, d, v + 1, 0) {
        var x, j :| Crosses(g, comps, x, j, c, d) && (x < v + 1 || (x == v + 1 && j < 0));
        assert Crosses(g, comps, x, j, c, d) && (x < v || (x == v && j < |g[v]|));
      }
    }
  }

  /** The inner loop of the condensation: the crossings made by the edges of v. */
  method CondenseRow(store: AdjListsGraph, g: AdjLists, comps: seq<int>, v: int)
    requires ValidGraph(g) && |comps| == |g| && 0 <= v < |g|
    requires store.Valid() && store.asSet && store.extra == 0
    requires forall x :: 0 <= x < |g| ==> 0 <= comps[x] < store.nVertices
    requires CondBuilt(g, comps, store.lists, store.directed, v, 0)
    modifies store
    ensures store.Valid() && store.nVertices == old(store.nVertices)
    ensures CondBuilt(g, comps, store.lists, store.directed, v + 1, 0)
  {
    var k := 0;
    while k < |g[v]|
      invariant 0 <= k <= |g[v]|
      invariant store.Valid() && store.nVertices == old(store.nVertices)
      invariant CondBuilt(g, comps, store.lists, store.directed, v, k)
    {
      var u := g[v][k];
      CondStep(g, comps, store.lists, store.directed, v, k);
      if comps[v] != comps[u] {
        store.AddEdge(comps[v], comps[u]);
      }
      k := k + 1;
    }
    CondRow(g, comps, store.lists, store.directed, v);
  }

  /**
   * The condensation lists over the labels comps: a set list per
   * component, holding exactly the components its edges cross into (and,
   * undirected, those whose edges cross into it).
   */
  ghost predicate CondEdges(g: AdjLists, comps: seq<int>, cond: AdjLists, directed: bool) {
    && ValidGraph(cond)
    && (forall c :: 0 <= c < |cond| ==> NoDup(cond[c]))
    && (forall c, d :: 0 <= c < |cond| ==>
         (d in cond[c] <==> CrossEdge(g, comps, c, d) || (!directed && CrossEdge(g, comps, d, c))))
  }

  /** The second half of build_condensation: the loop over every edge, adding the crossings. */
  method Condense(g: AdjLists, comps: seq<int>, count: nat, directed: bool) returns (cond: AdjLists)
    requires ValidGraph(g) && |comps| == |g| && forall x :: 0 <= x < |g| ==> 0 <= comps[x] < count
    ensures |cond| == count && CondEdges(g, comps, cond, directed)
  {
    var store := new AdjListsGraph(count, directed, true, false);
    var v := 0;
    while v < |g|
      invariant 0 <= v <= |g|
      invariant store.Valid() && store.directed == directed && store.asSet && store.extra == 0 && store.nVertices == count
      invariant CondBuilt(g, comps, store.lists, directed, v, 0)
    {
      CondenseRow(store, g, comps, v);
      v := v + 1;
    }
    cond := store.lists;
    forall c, d ensures CrossBefore(g, comps, c, d, |g|, 0) <==> CrossEdge(g, comps, c, d) {
      if CrossEdge(g, comps, c, d) {
        var x, j :| Crosses(g, comps, x, j, c, d);
        assert Crosses(g, comps, x, j, c, d) && x < |g|;
      }
    }
    forall c, k | 0 <= c < |cond| && 0 <= k < |cond[c]| ensures 0 <= cond[c][k] < |cond| {
      var d := cond[c][k];
      if CrossEdge(g, comps, c, d) {
        var x, j :| Crosses(g, comps, x, j, c, d);
      } else {
        var x, j :| Crosses(g, comps, x, j, d, c);
      }
    }
  }

  /**
   * build_condensation(g) (directed) and build_undirected_condensation(g):
   * the components of Kosaraju's algorithm, numbered 0 .. |cond| - 1, and
   * the condensation over them.  No component has an edge to itself.
   */
  method BuildCondensation(g: AdjLists, directed: bool) returns (cond: AdjLists, comps: seq<int>)
    requires ValidGraph(g)
    ensures Components(g, comps, |cond|)
    ensures CondEdges(g, comps, cond, directed)
    ensures forall c :: 0 <= c < |cond| ==> c !in cond[c]
  {
    var inv := BuildInverse(g);
    var sorted := ReversePostOrder(g);
    var count;
    comps, count := AssignComponents(g, inv, sorted);
    cond := Condense(g, comps, count, directed);
    forall c | 0 <= c < |cond| ensures c !in cond[c] {
      assert !CrossEdge(g, comps, c, c);
    }
  }

  /** Every vertex of component c reaches every vertex of component d when the condensation walks from c to d. */
  lemma {:induction false} CondWalkReaches(g: AdjLists, comps: seq<int>, cond: AdjLists, p: seq<int>, x: int, y: int)
    requires ValidGraph(g) && Components(g, comps, |cond|) && CondEdges(g, comps, cond, true)
    requires IsWalk(cond, p) && 0 <= x < |g| && 0 <= y < |g| && comps[x] == p[0] && comps[y] == p[|p| - 1]
    ensures Reaches(g, x, y)
    decreases |p|
  {
    if |p| == 1 {
      assert Mutual(g, x, y);
    } else {
      var q := p[..|p| - 1];
      assert IsWalk(cond, q);
      var c, d := q[|q| - 1], p[|p| - 1];
      assert d in cond[c];
      var x', j :| Crosses(g, comps, x', j, c, d);
      var y' := g[x'][j];
      CondWalkReaches(g, comps, cond, q, x, x');
      EdgeReaches(g, x', y');
      assert Mutual(g, y', y);
      ReachesTrans(g, x, x', y');
      ReachesTrans(g, x, y', y);
    }
  }

  /** The directed condensation has no cycle: a cycle would join two components into one. */
  lemma CondensationAcyclic(g: AdjLists, comps: seq<int>, cond: AdjLists)
    requires ValidGraph(g) && Components(g, comps, |cond|) && CondEdges(g, comps, cond, true)
    ensures !HasCycle(cond)
  {
    if p :| IsCycle(cond, p) {
      assert p[1] in cond[p[0]];
      var x, j :| Crosses(g, comps, x, j, p[0], p[1]);
      var y := g[x][j];
      var rest := p[1..];
      assert IsWalk(cond, rest) by {
        forall i | 0 <= i < |rest| - 1 ensures rest[i + 1] in cond[rest[i]] {
          assert rest[i] == p[i + 1] && rest[i + 1] == p[i + 2];
        }
      }
      CondWalkReaches(g, comps, cond, rest, y, x);
      EdgeReaches(g, x, y);
      assert Mutual(g, x, y);
    }
  }
  /** In an undirected graph every walk can be walked back, so reachability runs both ways. */
  lemma SymmetricReaches(g: AdjLists, a: int, b: int)
    requires Symmetric(g) && Reaches(g, a, b)
    ensures Reaches(g, b, a)
  {
    assert Inverse(g, g);
    var p :| IsWalkFromTo(g, p, a, b);
    var q := ReverseWalk(g, g, p);
    assert IsWalkFromTo(g, q, b, a);
  }

  /**
   * On an undirected graph the strongly connected components are the
   * connected components, and no edge crosses between two of them, so the
   * condensation has no edges at all.
   */
  lemma UndirectedComponents(g: AdjLists, comps: seq<int>, cond: AdjLists, directed: bool)
    requires ValidGraph(g) && Symmetric(g) && Components(g, comps, |cond|) && CondEdges(g, comps, cond, directed)
    ensures forall x, y :: 0 <= x < |g| && 0 <= y < |g| ==> (comps[x] == comps[y] <==> Reaches(g, x, y))
    ensures forall c, d :: 0 <= c < |cond| ==> d !in cond[c]
  {
    forall x, y | 0 <= x < |g| && 0 <= y < |g| && Reaches(g, x, y) ensures Mutual(g, x, y) {
      SymmetricReaches(g, x, y);
    }
    forall x, j | 0 <= x < |g| && 0 <= j < |g[x]| ensures comps[x] == comps[g[x][j]] {
      EdgeReaches(g, x, g[x][j]);
      SymmetricReaches(g, x, g[x][j]);
    }

  }
}
