/**
 * Vocabulary shared by every program of the toolkit: a graph is a sequence of
 * adjacency lists, vertex ids are dense indices into it, and lists[v] holds
 * v's out-neighbours in the order the program would iterate over them.
 */
module Graphs {

  /** lists[v] is the sequence of out-neighbours of vertex v. */
  type AdjLists = seq<seq<int>>

  /** Every stored neighbour is itself a vertex of the graph. */
  ghost predicate ValidGraph(g: AdjLists) {
    forall v, k :: 0 <= v < |g| && 0 <= k < |g[v]| ==> 0 <= g[v][k] < |g|
  }

  /** The edge u -> v is stored. */
  ghost predicate Edge(g: AdjLists, u: int, v: int) {
    0 <= u < |g| && v in g[u]
  }

  /** Every stored edge is stored in the opposite direction too (an undirected graph). */
  ghost predicate Symmetric(g: AdjLists) {
    forall u, v :: 0 <= u < |g| && v in g[u] ==> 0 <= v < |g| && u in g[v]
  }

  /** p is a walk: a non-empty sequence of vertices joined by stored edges. */
  ghost predicate IsWalk(g: AdjLists, p: seq<int>) {
    && |p| >= 1
    && (forall i :: 0 <= i < |p| ==> 0 <= p[i] < |g|)
    && (forall i :: 0 <= i < |p| - 1 ==> p[i + 1] in g[p[i]])
  }

  /** p is a walk from s to t; it has |p| - 1 edges. */
  ghost predicate IsWalkFromTo(g: AdjLists, p: seq<int>, s: int, t: int) {
    IsWalk(g, p) && p[0] == s && p[|p| - 1] == t
  }

  /** p is a walk that starts at one of the sources and ends at t. */
  ghost predicate IsWalkFromSet(g: AdjLists, sources: seq<int>, p: seq<int>, t: int) {
    IsWalk(g, p) && p[0] in sources && p[|p| - 1] == t
  }

  ghost predicate Reaches(g: AdjLists, s: int, t: int) {
    exists p :: IsWalkFromTo(g, p, s, t)
  }

  ghost predicate ReachableFromSet(g: AdjLists, sources: seq<int>, t: int) {
    exists p :: IsWalkFromSet(g, sources, p, t)
  }

  /** A closed walk with at least one edge. */
  ghost predicate IsCycle(g: AdjLists, p: seq<int>) {
    IsWalk(g, p) && |p| >= 2 && p[0] == p[|p| - 1]
  }

  ghost predicate HasCycle(g: AdjLists) {
    exists p :: IsCycle(g, p)
  }

  /** s is a permutation of 0 .. n-1: each vertex exactly once. */
  ghost predicate IsPermutation(s: seq<int>, n: int) {
    && |s| == n
    && (forall i :: 0 <= i < |s| ==> 0 <= s[i] < n)
    && (forall i, j :: 0 <= i < j < |s| ==> s[i] != s[j])
    && (forall v :: 0 <= v < n ==> v in s)
  }

  /** Concatenating two walks that meet at a vertex gives a walk. */
  lemma WalkConcat(g: AdjLists, p: seq<int>, q: seq<int>)
    requires IsWalk(g, p) && IsWalk(g, q) && p[|p| - 1] == q[0]
    ensures IsWalk(g, p + q[1..])
    ensures |p + q[1..]| == |p| + |q| - 1
    ensures (p + q[1..])[0] == p[0] && (p + q[1..])[|p| + |q| - 2] == q[|q| - 1]
  {
    var r := p + q[1..];
    forall i | 0 <= i < |r| - 1 ensures r[i + 1] in g[r[i]] {
      if i < |p| - 1 {
        assert r[i] == p[i] && r[i + 1] == p[i + 1];
      } else {
        assert r[i] == q[i - |p| + 1] && r[i + 1] == q[i - |p| + 2];
      }
    }
  }

  /** Reachability is transitive. */
  lemma ReachesTrans(g: AdjLists, a: int, b: int, c: int)
    requires Reaches(g, a, b) && Reaches(g, b, c)
    ensures Reaches(g, a, c)
  {
    var p :| IsWalkFromTo(g, p, a, b);
    var q :| IsWalkFromTo(g, q, b, c);
    WalkConcat(g, p, q);
    assert IsWalkFromTo(g, p + q[1..], a, c);
  }

  /** A single edge is a walk. */
  lemma EdgeReaches(g: AdjLists, a: int, b: int)
    requires 0 <= a < |g| && 0 <= b < |g| && b in g[a]
    ensures Reaches(g, a, b)
  {
    assert IsWalkFromTo(g, [a, b], a, b);
  }

  /** Every vertex reaches itself by the one-vertex walk. */
  lemma ReachesRefl(g: AdjLists, a: int)
    requires 0 <= a < |g|
    ensures Reaches(g, a, a)
  {
    assert IsWalkFromTo(g, [a], a, a);
  }

  /** The vertex ids 0 .. n-1 as a set. */
  ghost function Range(n: int): (r: set<int>)
    ensures forall v :: v in r <==> 0 <= v < n
    decreases n
  {
    if n <= 0 then {} else Range(n - 1) + {n - 1}
  }

  /** The indices of s that hold x; loops count the vertices still marked unvisited with it. */
  ghost function IndicesWith<T>(s: seq<T>, x: T): set<int> {
    set i | 0 <= i < |s| && s[i] == x
  }

  /** Overwriting one x by another value removes exactly that index from IndicesWith. */
  lemma IndicesWithUpdate<T>(s: seq<T>, i: int, y: T, x: T)
    requires 0 <= i < |s| && s[i] == x && y != x
    ensures IndicesWith(s[i := y], x) == IndicesWith(s, x) - {i}
    ensures |IndicesWith(s[i := y], x)| == |IndicesWith(s, x)| - 1
  {
    assert IndicesWith(s[i := y], x) == IndicesWith(s, x) - {i};
  }

  /** Writing x over a non-x entry adds exactly that index to IndicesWith. */
  lemma IndicesWithGain<T>(s: seq<T>, i: int, x: T)
    requires 0 <= i < |s| && s[i] != x
    ensures IndicesWith(s[i := x], x) == IndicesWith(s, x) + {i}
    ensures |IndicesWith(s[i := x], x)| == |IndicesWith(s, x)| + 1
  {
    assert IndicesWith(s[i := x], x) == IndicesWith(s, x) + {i};
  }

  /** Writing a value other than x over a non-x entry leaves IndicesWith unchanged. */
  lemma IndicesWithUpdateOther<T>(s: seq<T>, i: int, y: T, x: T)
    requires 0 <= i < |s| && s[i] != x && y != x
    ensures IndicesWith(s[i := y], x) == IndicesWith(s, x)
  {
    assert IndicesWith(s[i := y], x) == IndicesWith(s, x);
  }

  /** A subset has at most as many elements. */
  lemma {:induction false} SubsetCard<T>(a: set<T>, b: set<T>)
    requires a <= b
    ensures |a| <= |b|
    decreases |a|
  {
    if a != {} {
      var x :| x in a;
      SubsetCard(a - {x}, b - {x});
    }
  }

  /**
   * When entries equal to x are only ever overwritten, never created, and
   * entry v was x and is no longer, fewer entries hold x: the measure of the
   * depth-first searches, which mark one more vertex per call.
   */
  lemma FewerWith<T>(s: seq<T>, s': seq<T>, x: T, v: int)
    requires |s'| == |s| && 0 <= v < |s| && s[v] == x && s'[v] != x
    requires forall i :: 0 <= i < |s| && s'[i] == x ==> s[i] == x
    ensures |IndicesWith(s', x)| < |IndicesWith(s, x)|
  {
    assert IndicesWith(s', x) <= IndicesWith(s, x) - {v};
    SubsetCard(IndicesWith(s', x), IndicesWith(s, x) - {v});
  }
}
