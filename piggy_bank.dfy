/**
 * The piggy-bank program: the key of bank `to` lies in bank keys[to], which
 * gives the edge keys[to] - 1 -> to.  main applies
 * build_undirected_condensation twice and prints the size of the result,
 * which is the number of weakly connected components: the banks that must
 * be broken open.
 */
module PiggyBank {
  import opened Graphs
  import opened GraphStore
  import opened Cycles
  import opened Kosaraju
  import opened Condensation

  /** Every key lies in one of the banks 1 .. |keys|. */
  ghost predicate KeysIn(keys: seq<int>) {
    forall i :: 0 <= i < |keys| ==> 1 <= keys[i] <= |keys|
  }

  /** The add_edge calls of main: from the bank holding the key of `to` to `to`. */
  function KeyCalls(keys: seq<int>): (calls: seq<(int, int)>)
    ensures |calls| == |keys|
    ensures forall i :: 0 <= i < |keys| ==> calls[i] == (keys[i] - 1, i)
  {
    seq(|keys|, i requires 0 <= i < |keys| => (keys[i] - 1, i))
  }

  /** The directed set-list store after the input loop of main. */
  ghost function KeyGraph(keys: seq<int>): AdjLists
    requires KeysIn(keys)
  {
    EdgesAdded(seq(|keys|, _ => []), KeyCalls(keys), true, true)
  }

  /** add_edge(v, u) was called exactly when the key of u lies in bank v. */
  lemma KeyGraphEdge(keys: seq<int>, v: int, u: int)
    requires KeysIn(keys) && 0 <= v < |keys|
    ensures u in KeyGraph(keys)[v] <==> 0 <= u < |keys| && keys[u] == v + 1
  {
    var calls := KeyCalls(keys);
    EdgesAddedMembership(seq(|keys|, _ => []), calls, true, true, v, u);
    if Called(calls, v, u) {
      var i :| 0 <= i < |calls| && calls[i] == (v, u);
    }
    if 0 <= u < |keys| && keys[u] == v + 1 {
      assert calls[u] == (v, u);
    }
  }

  /** Bank v's list holds u exactly when the key of u lies in v. */
  lemma KeyGraphEdges(keys: seq<int>)
    requires KeysIn(keys)
    ensures |KeyGraph(keys)| == |keys| && ValidGraph(KeyGraph(keys))
    ensures forall v, u :: 0 <= v < |keys| ==> (u in KeyGraph(keys)[v] <==> 0 <= u < |keys| && keys[u] == v + 1)
  {
    var g := KeyGraph(keys);
    forall v, u | 0 <= v < |keys| ensures u in g[v] <==> 0 <= u < |keys| && keys[u] == v + 1 {
      KeyGraphEdge(keys, v, u);
    }
    forall v, k | 0 <= v < |keys| && 0 <= k < |g[v]| ensures 0 <= g[v][k] < |keys| {
      KeyGraphEdge(keys, v, g[v][k]);
    }
  }

  // ---------------------------------------------------------------------
  // Weak connectivity: walks that may follow edges backwards.

  /** p is a walk of g in which each step follows an edge in either direction. */
  ghost predicate IsUndirectedWalk(g: AdjLists, p: seq<int>) {
    && |p| >= 1
    && (forall i :: 0 <= i < |p| ==> 0 <= p[i] < |g|)
    && (forall i :: 0 <= i < |p| - 1 ==> p[i + 1] in g[p[i]] || p[i] in g[p[i + 1]])
  }

  /** s and t are joined when the edges are read without direction. */
  ghost predicate Joined(g: AdjLists, s: int, t: int) {
    exists p :: IsUndirectedWalk(g, p) && p[0] == s && p[|p| - 1] == t
  }

  lemma JoinedTrans(g: AdjLists, a: int, b: int, c: int)
    requires Joined(g, a, b) && Joined(g, b, c)
    ensures Joined(g, a, c)
  {
    var p :| IsUndirectedWalk(g, p) && p[0] == a && p[|p| - 1] == b;
    var q :| IsUndirectedWalk(g, q) && q[0] == b && q[|q| - 1] == c;
    var r := p + q[1..];
    forall i | 0 <= i < |r| - 1 ensures r[i + 1] in g[r[i]] || r[i] in g[r[i + 1]] {
      if i >= |p| - 1 {
        assert r[i] == q[i - |p| + 1] && r[i + 1] == q[i - |p| + 2];
      }
    }
    assert IsUndirectedWalk(g, r) && r[|r| - 1] == c;
  }

  /** An edge joins its ends, read either way. */
  lemma JoinedEdge(g: AdjLists, a: int, b: int)
    requires 0 <= a < |g| && 0 <= b < |g| && (b in g[a] || a in g[b])
    ensures Joined(g, a, b) && Joined(g, b, a)
  {
    assert IsUndirectedWalk(g, [a, b]);
    assert IsUndirectedWalk(g, [b, a]);
  }

  /** A directed walk is an undirected one. */
  lemma ReachesJoined(g: AdjLists, a: int, b: int)
    requires Reaches(g, a, b)
    ensures Joined(g, a, b)
  {
    var p :| IsWalkFromTo(g, p, a, b);
    assert IsUndirectedWalk(g, p);
  }

  /** The ends of an edge read either way lie in the same or adjacent vertices of the undirected condensation. */
  lemma StepCrosses(g: AdjLists, comps: seq<int>, cond: AdjLists, a: int, b: int)
    requires ValidGraph(g) && Components(g, comps, |cond|) && CondEdges(g, comps, cond, false)
    requires 0 <= a < |g| && 0 <= b < |g| && (b in g[a] || a in g[b]) && comps[a] != comps[b]
    ensures comps[b] in cond[comps[a]]
  {
    if b in g[a] {
      var j :| 0 <= j < |g[a]| && g[a][j] == b;
      assert Crosses(g, comps, a, j, comps[a], comps[b]);
    } else {
      var j :| 0 <= j < |g[b]| && g[b][j] == a;
      assert Crosses(g, comps, b, j, comps[b], comps[a]);
    }
  }

  /** An undirected walk of g maps to a walk of the undirected condensation between the components of its ends. */
  lemma {:induction false} JoinedCondReaches(g: AdjLists, comps: seq<int>, cond: AdjLists, p: seq<int>)
    requires ValidGraph(g) && Components(g, comps, |cond|) && CondEdges(g, comps, cond, false)
    requires IsUndirectedWalk(g, p)
    ensures Reaches(cond, comps[p[0]], comps[p[|p| - 1]])
    decreases |p|
  {
    if |p| == 1 {
      ReachesRefl(cond, comps[p[0]]);
    } else {
      var q := p[..|p| - 1];
      assert IsUndirectedWalk(g, q);
      JoinedCondReaches(g, comps, cond, q);
      var a, b := p[|p| - 2], p[|p| - 1];
      if comps[a] != comps[b] {
        StepCrosses(g, comps, cond, a, b);
        EdgeReaches(cond, comps[a], comps[b]);
        ReachesTrans(cond, comps[p[0]], comps[a], comps[b]);
      }
    }
  }

  /** A walk of the undirected condensation from c to d joins every vertex of c to every vertex of d. */
  lemma {:induction false} CondReachesJoined(g: AdjLists, comps: seq<int>, cond: AdjLists, q: seq<int>, x: int, y: int)
    requires ValidGraph(g) && Components(g, comps, |cond|) && CondEdges(g, comps, cond, false)
    requires IsWalk(cond, q) && 0 <= x < |g| && 0 <= y < |g| && comps[x] == q[0] && comps[y] == q[|q| - 1]
    ensures Joined(g, x, y)
    decreases |q|
  {
    if |q| == 1 {
      assert Mutual(g, x, y);
      ReachesJoined(g, x, y);
    } else {
      var q' := q[..|q| - 1];
      assert IsWalk(cond, q');
      var c, d := q'[|q'| - 1], q[|q| - 1];
      assert d in cond[c];
      if CrossEdge(g, comps, c, d) {
        var x', j :| Crosses(g, comps, x', j, c, d);
        var y' := g[x'][j];
        CondReachesJoined(g, comps, cond, q', x, x');
        JoinedEdge(g, x', y');
        assert Mutual(g, y', y);
        ReachesJoined(g, y', y);
        JoinedTrans(g, x, x', y');
        JoinedTrans(g, x, y', y);
      } else {
        var x', j :| Crosses(g, comps, x', j, d, c);
        var y' := g[x'][j];
        CondReachesJoined(g, comps, cond, q', x, y');
        JoinedEdge(g, x', y');
        assert Mutual(g, x', y);
        ReachesJoined(g, x', y);
        JoinedTrans(g, x, y', x');
        JoinedTrans(g, x, x', y);
      }
    }
  }

  /** Two vertices are joined in g exactly when their components are connected in the undirected condensation. */
  lemma JoinedIffCondReaches(g: AdjLists, comps: seq<int>, cond: AdjLists, x: int, y: int)
    requires ValidGraph(g) && Components(g, comps, |cond|) && CondEdges(g, comps, cond, false)
    requires 0 <= x < |g| && 0 <= y < |g|
    ensures Joined(g, x, y) <==> Reaches(cond, comps[x], comps[y])
  {
    if Joined(g, x, y) {
      var p :| IsUndirectedWalk(g, p) && p[0] == x && p[|p| - 1] == y;
      JoinedCondReaches(g, comps, cond, p);
    }
    if Reaches(cond, comps[x], comps[y]) {
      var q :| IsWalkFromTo(cond, q, comps[x], comps[y]);
      CondReachesJoined(g, comps, cond, q, x, y);
    }
  }

  /**
   * ids numbers the weakly connected components of g: 0 .. count-1,
   * each used, two vertices sharing a number exactly when they are joined.
   */
  ghost predicate WeakComponents(g: AdjLists, ids: seq<int>, count: int) {
    && |ids| == |g| && count >= 0
    && (forall x :: 0 <= x < |g| ==> 0 <= ids[x] < count)
    && (forall x, y :: 0 <= x < |g| && 0 <= y < |g| ==> (ids[x] == ids[y] <==> Joined(g, x, y)))
    && (forall l :: 0 <= l < count ==> Used(ids, l))
  }

  /** The undirected condensation is a symmetric graph. */
  lemma CondSymmetric(g: AdjLists, comps: seq<int>, cond: AdjLists)
    requires CondEdges(g, comps, cond, false)
    ensures Symmetric(cond)
  {
    forall c, d | 0 <= c < |cond| && d in cond[c] ensures 0 <= d < |cond| && c in cond[d] {
      var k :| 0 <= k < |cond[c]| && cond[c][k] == d;
    }
  }

  /**
   * Condensing the undirected condensation once more leaves one vertex per
   * weakly connected component of g: the composed labels number them.
   */
  lemma TwiceCondensed(g: AdjLists, comps: seq<int>, cond: AdjLists, comps2: seq<int>, cond2: AdjLists)
    requires ValidGraph(g) && Components(g, comps, |cond|) && CondEdges(g, comps, cond, false)
    requires Components(cond, comps2, |cond2|) && CondEdges(cond, comps2, cond2, false)
    ensures WeakComponents(g, seq(|g|, x requires 0 <= x < |g| => comps2[comps[x]]), |cond2|)
  {
    var ids := seq(|g|, x requires 0 <= x < |g| => comps2[comps[x]]);
    CondSymmetric(g, comps, cond);
    UndirectedComponents(cond, comps2, cond2, false);
    forall x, y | 0 <= x < |g| && 0 <= y < |g| ensures ids[x] == ids[y] <==> Joined(g, x, y) {
      JoinedIffCondReaches(g, comps, cond, x, y);
    }
    forall l | 0 <= l < |cond2| ensures Used(ids, l) {
      assert Used(comps2, l);
      var a :| 0 <= a < |comps2| && comps2[a] == l;
      assert Used(comps, a);
      var x :| 0 <= x < |comps| && comps[x] == a;
      assert ids[x] == l;
    }
  }

  /** A vertex with the id l, for each l < count. */
  ghost function Representatives(ids: seq<int>, count: nat): (r: seq<int>)
    requires forall l :: 0 <= l < count ==> Used(ids, l)
    ensures |r| == count && forall l :: 0 <= l < count ==> 0 <= r[l] < |ids| && ids[r[l]] == l
  {
    seq(count, l requires 0 <= l < count => assert Used(ids, l); var x :| 0 <= x < |ids| && ids[x] == l; x)
  }

  /** Labellings that induce the same classes use the same number of labels. */
  lemma FewerLabels(l1: seq<int>, k1: nat, l2: seq<int>, k2: nat)
    requires |l1| == |l2|
    requires forall x :: 0 <= x < |l2| ==> 0 <= l2[x] < k2
    requires forall l :: 0 <= l < k1 ==> Used(l1, l)
    requires forall x, y :: 0 <= x < |l1| && 0 <= y < |l1| ==> (l1[x] == l1[y] <==> l2[x] == l2[y])
    ensures k1 <= k2
  {
    var r := Representatives(l1, k1);
    var image := seq(k1, l requires 0 <= l < k1 => l2[r[l]]);
    assert NoDup(image);
    DistinctCard(image);
    RangeCard(k2);
    var elems := set x | x in image;
    assert elems <= Range(k2);
    SubsetCard(elems, Range(k2));
  }

  /** The number of weakly connected components is determined by g. */
  lemma WeakCountUnique(g: AdjLists, l1: seq<int>, k1: int, l2: seq<int>, k2: int)
    requires WeakComponents(g, l1, k1) && WeakComponents(g, l2, k2)
    ensures k1 == k2
  {
    FewerLabels(l1, k1, l2, k2);
    FewerLabels(l2, k2, l1, k1);
  }

  /**
   * main, without its I/O: the size of the twice-condensed graph, which is
   * the number of weakly connected components of the key graph.
   */
  method PiggyBank(keys: seq<int>) returns (count: int)
    requires KeysIn(keys)
    ensures exists ids :: WeakComponents(KeyGraph(keys), ids, count)
  {
    var g := new AdjListsGraph(|keys|, true, true, false);
    AddEdges(g, KeyCalls(keys));
    KeyGraphEdges(keys);
    var c, comps := BuildCondensation(g.lists, false);
    var cc, comps2 := BuildCondensation(c, false);
    count := |cc|;
    TwiceCondensed(g.lists, comps, c, comps2, cc);
  }
}
