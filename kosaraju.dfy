/**
 * Kosaraju's algorithm as build_condensation writes it: the inverse graph,
 * the reverse post-order of the graph, then a depth-first search in the
 * inverse graph from every still unlabelled vertex in that order, which
 * labels one strongly connected component at a time.
 */
module Kosaraju {
  import opened Graphs
  import opened GraphStore
  import opened PostOrder

  /** a and b reach each other: they lie in one strongly connected component. */
  ghost predicate Mutual(g: AdjLists, a: int, b: int) {
    Reaches(g, a, b) && Reaches(g, b, a)
  }

  /** h has the edge b -> a exactly when g has the edge a -> b. */
  ghost predicate Inverse(g: AdjLists, h: AdjLists) {
    |h| == |g| && forall a, b :: 0 <= a < |g| && 0 <= b < |g| ==> (b in h[a] <==> a in g[b])
  }

  // ---------------------------------------------------------------------
  // The inverse graph: inv_g.add_edge(u, v) for every edge v -> u.

  /** The edge b -> a of g comes before neighbour k of vertex v in the reading order. */
  ghost predicate ReadBefore(g: AdjLists, b: int, a: int, v: int, k: int) {
    0 <= b < |g| && (b < v || (b == v && 0 <= k <= |g[b]| && a in g[b][..k])) && a in g[b]
  }

  /** The inverse lists hold exactly the reversed edges read so far. */
  ghost predicate InvBuilt(g: AdjLists, lists: seq<seq<int>>, v: int, k: int) {
    |lists| == |g| && forall a, b :: 0 <= a < |g| ==> (b in lists[a] <==> ReadBefore(g, b, a, v, k))
  }

  /** Inserting v into the list of u = g[v][k] reads one more edge. */
  lemma InvStep(g: AdjLists, lists: seq<seq<int>>, v: int, k: int)
    requires ValidGraph(g) && 0 <= v < |g| && 0 <= k < |g[v]| && InvBuilt(g, lists, v, k)
    ensures InvBuilt(g, EdgeAdded(lists, g[v][k], v, true, true), v, k + 1)
  {
    var u := g[v][k];
    var lists' := EdgeAdded(lists, u, v, true, true);
    assert g[v][..k + 1] == g[v][..k] + [u];
    forall a, b | 0 <= a < |g| ensures b in lists'[a] <==> ReadBefore(g, b, a, v, k + 1) {
    }
  }

  /** The end of the neighbours of v is the start of v + 1. */
  lemma InvRow(g: AdjLists, lists: seq<seq<int>>, v: int)
    requires 0 <= v < |g| && InvBuilt(g, lists, v, |g[v]|)
    ensures InvBuilt(g, lists, v + 1, 0)
  {
    assert g[v][..|g[v]|] == g[v];
  }

  /** The inner loop: every edge leaving v, reversed. */
  method InvertRow(store: AdjListsGraph, g: AdjLists, v: int)
    requires ValidGraph(g) && 0 <= v < |g|
    requires store.Valid() && store.directed && store.asSet && InvBuilt(g, store.lists, v, 0)
    modifies store
    ensures store.Valid() && store.nVertices == old(store.nVertices) && InvBuilt(g, store.lists, v + 1, 0)
  {
    var k := 0;
    while k < |g[v]|
      invariant 0 <= k <= |g[v]|
      invariant store.Valid() && store.nVertices == old(store.nVertices) && InvBuilt(g, store.lists, v, k)
    {
      InvStep(g, store.lists, v, k);
      store.AddEdge(g[v][k], v);
      k := k + 1;
    }
    InvRow(g, store.lists, v);
  }

  /** inv_g: the directed set store of the reversed edges of g. */
  method BuildInverse(g: AdjLists) returns (inv: AdjLists)
    requires ValidGraph(g)
    ensures ValidGraph(inv) && Inverse(g, inv)
    ensures forall a :: 0 <= a < |inv| ==> NoDup(inv[a])
  {
    var store := new AdjListsGraph(|g|, true, true, false);
    var v := 0;
    while v < |g|
      invariant 0 <= v <= |g|
      invariant store.Valid() && store.directed && store.asSet && store.nVertices == |g| && InvBuilt(g, store.lists, v, 0)
    {
      InvertRow(store, g, v);
      v := v + 1;
    }
    inv := store.lists;
    forall a, k | 0 <= a < |inv| && 0 <= k < |inv[a]| ensures 0 <= inv[a][k] < |inv| {
      assert ReadBefore(g, inv[a][k], a, |g|, 0);
    }
  }

  /** Reversing a walk of g gives a walk of its inverse. */
  lemma ReverseWalk(g: AdjLists, h: AdjLists, p: seq<int>) returns (q: seq<int>)
    requires Inverse(g, h) && IsWalk(g, p)
    ensures IsWalk(h, q) && |q| == |p| && forall k :: 0 <= k < |p| ==> q[k] == p[|p| - 1 - k]
  {
    q := seq(|p|, k requires 0 <= k < |p| => p[|p| - 1 - k]);
    forall k | 0 <= k < |q| - 1 ensures q[k + 1] in h[q[k]] {
      assert p[|p| - 1 - k] in g[p[|p| - 2 - k]];
    }
  }

  // ---------------------------------------------------------------------
  // scc_impl_: labelling what reaches the start through unlabelled vertices.

  /** Every vertex of p was unlabelled in c0. */
  ghost predicate Free(p: seq<int>, c0: seq<int>) {
    forall k :: 0 <= k < |p| ==> 0 <= p[k] < |c0| && c0[p[k]] == -1
  }

  /** a reaches b in h through vertices unlabelled in c0. */
  ghost predicate ReachesAmong(h: AdjLists, a: int, b: int, c0: seq<int>) {
    exists p :: IsWalkFromTo(h, p, a, b) && Free(p, c0)
  }

  /** Labels only ever go from -1 to something else. */
  ghost predicate Kept(c: seq<int>, c': seq<int>) {
    |c| == |c'| && forall x :: 0 <= x < |c| && c[x] != -1 ==> c'[x] == c[x]
  }

  /**
   * The labelling under way: the new label id goes only to vertices
   * unlabelled in c0 that root reaches through such vertices, nothing else
   * changes, and a labelled vertex that is not on the path `stack` has no
   * unlabelled neighbour.
   */
  ghost predicate Marking(h: AdjLists, id: int, c0: seq<int>, c: seq<int>, root: int, stack: seq<int>) {
    && ValidGraph(h) && |c| == |c0| == |h| && id >= 0
    && (forall x :: 0 <= x < |c0| ==> c0[x] != id)
    && (forall x :: 0 <= x < |c0| && c0[x] != -1 ==> c[x] == c0[x])
    && (forall x :: 0 <= x < |c0| && c0[x] == -1 ==> c[x] == -1 || c[x] == id)
    && (forall x :: 0 <= x < |c0| && c[x] == id ==> ReachesAmong(h, root, x, c0))
    && (forall x, k :: 0 <= x < |c0| && c[x] == id && x !in stack && 0 <= k < |h[x]| ==> c[h[x][k]] != -1)
  }

  /** The state of scc_impl_ from v after its first k neighbours. */
  ghost predicate MarkScan(h: AdjLists, v: int, k: int, id: int, c0: seq<int>, c1: seq<int>, c: seq<int>,
                           root: int, stack: seq<int>) {
    && 0 <= v < |h| && 0 <= k <= |h[v]|
    && Marking(h, id, c0, c, root, stack + [v]) && c[v] == id && Kept(c1, c)
    && forall j :: 0 <= j < k ==> c[h[v][j]] != -1
  }

  /** Labelling v, which root reaches, starts the scan of its neighbours. */
  lemma MarkStart(h: AdjLists, v: int, id: int, c0: seq<int>, c: seq<int>, root: int, stack: seq<int>)
    requires Marking(h, id, c0, c, root, stack) && 0 <= v < |h| && c[v] == -1 && ReachesAmong(h, root, v, c0)
    ensures MarkScan(h, v, 0, id, c0, c, c[v := id], root, stack)
  {
    var c' := c[v := id];
    forall x, k | 0 <= x < |c0| && c'[x] == id && x !in stack + [v] && 0 <= k < |h[x]| ensures c'[h[x][k]] != -1 {
      assert c[x] == id;
    }
  }

  /** The path extended by one unlabelled vertex stays among the unlabelled ones. */
  lemma AmongStep(h: AdjLists, root: int, v: int, u: int, c0: seq<int>)
    requires ReachesAmong(h, root, v, c0) && 0 <= v < |h| && 0 <= u < |h| && u in h[v] && |c0| == |h| && c0[u] == -1
    ensures ReachesAmong(h, root, u, c0)
  {
    var p :| IsWalkFromTo(h, p, root, v) && Free(p, c0);
    var q := p + [u];
    assert IsWalkFromTo(h, q, root, u) && Free(q, c0);
  }

  /** A neighbour labelled by its own search leaves the scan one step further. */
  lemma MarkChild(h: AdjLists, v: int, k: int, id: int, c0: seq<int>, c1: seq<int>, c: seq<int>, c': seq<int>,
                  root: int, stack: seq<int>)
    requires MarkScan(h, v, k, id, c0, c1, c, root, stack) && k < |h[v]|
    requires Marking(h, id, c0, c', root, stack + [v]) && Kept(c, c') && c'[h[v][k]] == id
    ensures MarkScan(h, v, k + 1, id, c0, c1, c', root, stack)
  {
    forall j | 0 <= j < k + 1 ensures c'[h[v][j]] != -1 {
      if j < k {
        assert c[h[v][j]] != -1;
      }
    }
  }

  /** After the last neighbour, v itself has no unlabelled neighbour and leaves the path. */
  lemma MarkEnd(h: AdjLists, v: int, id: int, c0: seq<int>, c1: seq<int>, c: seq<int>, root: int, stack: seq<int>)
    requires 0 <= v < |h| && MarkScan(h, v, |h[v]|, id, c0, c1, c, root, stack)
    ensures Marking(h, id, c0, c, root, stack)
  {
    forall x, k | 0 <= x < |c0| && c[x] == id && x !in stack && 0 <= k < |h[x]| ensures c[h[x][k]] != -1 {
      if x != v {
        assert x !in stack + [v];
      }
    }
  }

  /** Labelling one more vertex leaves fewer unlabelled ones. */
  lemma KeptFewer(c: seq<int>, c': seq<int>, v: int)
    requires Kept(c, c') && 0 <= v < |c| && c[v] == -1 && c'[v] != -1
    ensures |IndicesWith(c', -1)| < |IndicesWith(c, -1)|
  {
    FewerWith(c, c', -1, v);
  }

  /**
   * scc_impl_(inv_g, v, component_id, components): labels v and, through
   * its unlabelled neighbours, more of what root reaches through vertices
   * unlabelled in c0, with `stack` the path of calls under way.
   */
  method MarkFrom(h: AdjLists, v: int, id: int, comps: array<int>, ghost c0: seq<int>, ghost root: int,
                  ghost stack: seq<int>)
    requires Marking(h, id, c0, comps[..], root, stack) && 0 <= v < |h| && comps[v] == -1
    requires ReachesAmong(h, root, v, c0)
    modifies comps
    ensures Marking(h, id, c0, comps[..], root, stack) && comps[v] == id
    ensures Kept(old(comps[..]), comps[..])
    decreases |IndicesWith(comps[..], -1)|
  {
    ghost var c1 := comps[..];
    MarkStart(h, v, id, c0, c1, root, stack);
    comps[v] := id;
    assert comps[..] == c1[v := id];
    var k := 0;
    while k < |h[v]|
      invariant MarkScan(h, v, k, id, c0, c1, comps[..], root, stack)
    {
      var u := h[v][k];
      if comps[u] == -1 {
        AmongStep(h, root, v, u, c0);
        KeptFewer(c1, comps[..], v);
        ghost var c := comps[..];
        MarkFrom(h, u, id, comps, c0, root, stack + [v]);
        MarkChild(h, v, k, id, c0, c1, c, comps[..], root, stack);
      }
      k := k + 1;
    }
    MarkEnd(h, v, id, c0, c1, comps[..], root, stack);
  }

  /** Once no call is under way, the labelled set is closed, so it is all that root reaches through unlabelled vertices. */
  lemma {:induction false} MarkClosed(h: AdjLists, id: int, c0: seq<int>, c: seq<int>, root: int, p: seq<int>)
    requires Marking(h, id, c0, c, root, []) && 0 <= root < |h| && c[root] == id
    requires IsWalk(h, p) && p[0] == root && Free(p, c0)
    ensures c[p[|p| - 1]] == id
    decreases |p|
  {
    if |p| > 1 {
      var q := p[..|p| - 1];
      assert IsWalk(h, q) && q[0] == root && Free(q, c0);
      MarkClosed(h, id, c0, c, root, q);
      var x, y := p[|p| - 2], p[|p| - 1];
      var k :| 0 <= k < |h[x]| && h[x][k] == y;
      assert c[y] != -1;
    }
  }

  /** After scc_impl_ from v: the label id went to exactly the c0-unlabelled vertices that reach v in g through c0-unlabelled vertices. */
  lemma Marked(g: AdjLists, h: AdjLists, v: int, id: int, c0: seq<int>, c: seq<int>)
    requires ValidGraph(g) && Inverse(g, h) && Marking(h, id, c0, c, v, []) && 0 <= v < |h| && c[v] == id
    ensures forall x :: 0 <= x < |h| ==> c[x] == if c0[x] == -1 && ReachesAmong(g, x, v, c0) then id else c0[x]
  {
    assert Inverse(h, g);
    forall x | 0 <= x < |h| ensures c[x] == if c0[x] == -1 && ReachesAmong(g, x, v, c0) then id else c0[x] {
      if c0[x] == -1 && ReachesAmong(g, x, v, c0) {
        var p :| IsWalkFromTo(g, p, x, v) && Free(p, c0);
        var q := ReverseWalk(g, h, p);
        assert Free(q, c0) by {
          forall k | 0 <= k < |q| ensures 0 <= q[k] < |c0| && c0[q[k]] == -1 {
            assert q[k] == p[|p| - 1 - k];
          }
        }
        MarkClosed(h, id, c0, c, v, q);
        assert q[|q| - 1] == x;
      } else if c[x] == id {
        var p :| IsWalkFromTo(h, p, v, x) && Free(p, c0);
        var q := ReverseWalk(h, g, p);
        assert IsWalkFromTo(g, q, x, v) && Free(q, c0) by {
          forall k | 0 <= k < |q| ensures 0 <= q[k] < |c0| && c0[q[k]] == -1 {
            assert q[k] == p[|p| - 1 - k];
          }
        }
      }
    }
  }

  // ---------------------------------------------------------------------
  // The labelling loop of build_condensation, in reverse post-order.

  /** Mutual reachability is symmetric and transitive. */
  lemma MutualTrans(g: AdjLists, a: int, b: int, c: int)
    requires Mutual(g, a, b) && Mutual(g, b, c)
    ensures Mutual(g, a, c) && Mutual(g, c, a)
  {
    ReachesTrans(g, a, b, c);
    ReachesTrans(g, c, b, a);
  }

  /** A walk reaches each of its vertices from its start, and its end from each of them. */
  lemma WalkSplit(g: AdjLists, p: seq<int>, k: int)
    requires IsWalk(g, p) && 0 <= k < |p|
    ensures Reaches(g, p[0], p[k]) && Reaches(g, p[k], p[|p| - 1])
  {
    var front, back := p[..k + 1], p[k..];
    assert IsWalkFromTo(g, front, p[0], p[k]);
    assert IsWalkFromTo(g, back, p[k], p[|p| - 1]) by {
      forall i | 0 <= i < |back| - 1 ensures back[i + 1] in g[back[i]] {
        assert back[i] == p[k + i] && back[i + 1] == p[k + i + 1];
      }
    }
  }

  /** Some vertex carries the label l. */
  ghost predicate Used(c: seq<int>, l: int) {
    exists x :: 0 <= x < |c| && c[x] == l
  }

  /**
   * The labels after the vertices sorted[..i]: those vertices are all
   * labelled, labels lie in [-1, id) and each of 0 .. id-1 is used, two
   * labelled vertices share a label exactly when they reach each other, and
   * no labelled vertex reaches an unlabelled one both ways.
   */
  ghost predicate Labelled(g: AdjLists, sorted: seq<int>, i: int, c: seq<int>, id: int) {
    && |c| == |g| && 0 <= i <= |sorted| && id >= 0
    && (forall x :: 0 <= x < |c| ==> -1 <= c[x] < id)
    && (forall j :: 0 <= j < i ==> 0 <= sorted[j] < |c| && c[sorted[j]] != -1)
    && (forall x, y :: 0 <= x < |c| && 0 <= y < |c| && c[x] != -1 && c[y] != -1 ==> (c[x] == c[y] <==> Mutual(g, x, y)))
    && (forall x, y :: 0 <= x < |c| && 0 <= y < |c| && c[x] != -1 && c[y] == -1 ==> !Mutual(g, x, y))
    && (forall l :: 0 <= l < id ==> Used(c, l))
  }

  /** A walk through unlabelled vertices stays in sorted[i..], as everything before i is labelled. */
  lemma FreeLate(g: AdjLists, sorted: seq<int>, i: int, c0: seq<int>, id: int, p: seq<int>)
    requires IsPermutation(sorted, |g|) && Labelled(g, sorted, i, c0, id) && Free(p, c0)
    ensures Within(p, sorted[i..])
  {
    forall k | 0 <= k < |p| ensures p[k] in sorted[i..] {
      assert p[k] in sorted;
      var j :| 0 <= j < |sorted| && sorted[j] == p[k];
      assert j >= i;
      assert sorted[i..][j - i] == p[k];
    }
  }

  /**
   * The heart of Kosaraju's algorithm: for v = sorted[i] unlabelled, the
   * unlabelled vertices that reach v through unlabelled vertices are
   * exactly those in v's strongly connected component.
   */
  lemma Component(g: AdjLists, sorted: seq<int>, i: int, c0: seq<int>, id: int, x: int)
    requires ValidGraph(g) && IsPermutation(sorted, |g|) && LateReaches(g, sorted)
    requires Labelled(g, sorted, i, c0, id) && i < |sorted| && c0[sorted[i]] == -1 && 0 <= x < |g|
    ensures c0[x] == -1 && ReachesAmong(g, x, sorted[i], c0) <==> Mutual(g, x, sorted[i])
  {
    var v := sorted[i];
    if c0[x] == -1 && ReachesAmong(g, x, v, c0) {
      var p :| IsWalkFromTo(g, p, x, v) && Free(p, c0);
      FreeLate(g, sorted, i, c0, id, p);
      assert ReachesWithin(g, x, sorted[i], sorted[i..]);
    }
    if Mutual(g, x, v) {
      var p :| IsWalkFromTo(g, p, x, v);
      forall k | 0 <= k < |p| ensures 0 <= p[k] < |c0| && c0[p[k]] == -1 {
        WalkSplit(g, p, k);
        ReachesTrans(g, v, x, p[k]);
        assert Mutual(g, p[k], v);
      }
      assert Free(p, c0);
    }
  }

  /** A vertex already labelled needs nothing. */
  lemma LabelSkip(g: AdjLists, sorted: seq<int>, i: int, c: seq<int>, id: int)
    requires Labelled(g, sorted, i, c, id) && i < |sorted| && 0 <= sorted[i] < |c| && c[sorted[i]] != -1
    ensures Labelled(g, sorted, i + 1, c, id)
  {
  }

  /** Giving the label id to v's component, and to nothing else, labels one more vertex. */
  lemma LabelStep(g: AdjLists, sorted: seq<int>, i: int, c0: seq<int>, c: seq<int>, id: int)
    requires ValidGraph(g) && Labelled(g, sorted, i, c0, id) && i < |sorted| && 0 <= sorted[i] < |g| && c0[sorted[i]] == -1
    requires |c| == |g| && forall x :: 0 <= x < |g| ==> c[x] == if Mutual(g, x, sorted[i]) then id else c0[x]
    ensures Labelled(g, sorted, i + 1, c, id + 1)
  {
    var v := sorted[i];
    ReachesRefl(g, v);
    assert c[v] == id;
    forall x, y | 0 <= x < |c| && 0 <= y < |c| && c[x] != -1 && c[y] != -1 ensures c[x] == c[y] <==> Mutual(g, x, y) {
      if Mutual(g, x, v) && Mutual(g, y, v) {
        MutualTrans(g, x, v, y);
      } else if Mutual(g, x, v) {
        if Mutual(g, x, y) {
          MutualTrans(g, y, x, v);
        }
      } else if Mutual(g, y, v) {
        if Mutual(g, x, y) {
          MutualTrans(g, x, y, v);
        }
      }
    }
    forall x, y | 0 <= x < |c| && 0 <= y < |c| && c[x] != -1 && c[y] == -1 ensures !Mutual(g, x, y) {
      if Mutual(g, x, v) && Mutual(g, x, y) {
        MutualTrans(g, y, x, v);
      }
    }
    forall l | 0 <= l < id + 1 ensures Used(c, l) {
      if l < id {
        assert Used(c0, l);
        var x :| 0 <= x < |c0| && c0[x] == l;
        assert c[x] == l;
      }
    }
  }

  /** The labels are the strongly connected components, numbered 0 .. count-1. */
  ghost predicate Components(g: AdjLists, comps: seq<int>, count: int) {
    && |comps| == |g| && count >= 0
    && (forall x :: 0 <= x < |g| ==> 0 <= comps[x] < count)
    && (forall x, y :: 0 <= x < |g| && 0 <= y < |g| ==> (comps[x] == comps[y] <==> Mutual(g, x, y)))
    && (forall l :: 0 <= l < count ==> Used(comps, l))
  }

  /** Before the loop nothing is labelled. */
  lemma LabelInit(g: AdjLists, sorted: seq<int>)
    ensures Labelled(g, sorted, 0, seq(|g|, _ => -1), 0)
  {
  }

  /** After the loop every vertex is labelled. */
  lemma LabelAll(g: AdjLists, sorted: seq<int>, c: seq<int>, id: int)
    requires IsPermutation(sorted, |g|) && Labelled(g, sorted, |g|, c, id)
    ensures Components(g, c, id)
  {
    forall x | 0 <= x < |g| ensures 0 <= c[x] {
      assert x in sorted;
      var j :| 0 <= j < |sorted| && sorted[j] == x;
    }
  }

  /** Labelling the component of v starts with v alone. */
  lemma MarkInit(h: AdjLists, id: int, c0: seq<int>, v: int)
    requires ValidGraph(h) && |c0| == |h| && id >= 0 && 0 <= v < |h| && c0[v] == -1
    requires forall x :: 0 <= x < |c0| ==> -1 <= c0[x] < id
    ensures Marking(h, id, c0, c0, v, []) && ReachesAmong(h, v, v, c0)
  {
    assert IsWalkFromTo(h, [v], v, v) && Free([v], c0);
  }

  /**
   * The labelling loop of build_condensation: for each vertex in reverse
   * post-order that is still unlabelled, scc_impl_ in the inverse graph
   * with the next label.  The labels come out as the strongly connected
   * components.
   */
  method AssignComponents(g: AdjLists, inv: AdjLists, sorted: seq<int>) returns (comps: seq<int>, count: int)
    requires ValidGraph(g) && ValidGraph(inv) && Inverse(g, inv)
    requires IsPermutation(sorted, |g|) && LateReaches(g, sorted)
    ensures Components(g, comps, count)
  {
    var c := new int[|g|](_ => -1);
    var id := 0;
    LabelInit(g, sorted);
    assert c[..] == seq(|g|, _ => -1);
    var i := 0;
    while i < |g|
      invariant Labelled(g, sorted, i, c[..], id)
    {
      var v := sorted[i];
      if c[v] == -1 {
        ghost var c0 := c[..];
        MarkInit(inv, id, c0, v);
        MarkFrom(inv, v, id, c, c0, v, []);
        Marked(g, inv, v, id, c0, c[..]);
        forall x | 0 <= x < |g| ensures c[x] == if Mutual(g, x, v) then id else c0[x] {
          Component(g, sorted, i, c0, id, x);
        }
        LabelStep(g, sorted, i, c0, c[..], id);
        id := id + 1;
      } else {
        LabelSkip(g, sorted, i, c[..], id);
      }
      i := i + 1;
    }
    LabelAll(g, sorted, c[..], id);
    comps, count := c[..], id;
  }
}
