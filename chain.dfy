/**
 * The weighted shortest-path program that reduces to breadth-first search
 * (H_min_path): an edge of weight w >= 2 becomes a chain of w unit edges
 * through w - 1 new vertices, then the distance is a BFS distance.
 */
module ChainGraph {
  import opened Graphs
  import opened GraphStore
  import Bfs

  /**
   * The lists after insert_chain(begin, end, k): nothing for k == 0; else
   * begin gets the first new vertex, new vertex i points to new vertex i + 1,
   * and the last new vertex points to end.
   */
  ghost function ChainInserted(lists: seq<seq<int>>, begin: int, end: int, k: nat): (r: seq<seq<int>>)
    requires 0 <= begin < |lists|
  {
    if k == 0 then lists
    else lists[begin := lists[begin] + [|lists|]] + seq(k, i requires 0 <= i < k => [if i < k - 1 then |lists| + i + 1 else end])
  }

  /**
   * insert_chain(g, begin, end, n_links): n_links calls of add_vertex, each
   * new vertex linked from the previous one (begin first), and a last edge
   * to end; no change at all for n_links == 0.
   */
  method InsertChain(g: AdjListsGraph, begin: int, end: int, nLinks: nat)
    requires g.Valid() && g.directed && !g.asSet && g.extra == 0 && 0 <= begin < |g.lists|
    modifies g
    ensures g.Valid() && g.nVertices == old(g.nVertices) + nLinks
    ensures g.lists == ChainInserted(old(g.lists), begin, end, nLinks)
  {
    if nLinks == 0 {
      return;
    }
    ghost var start := g.lists;
    ghost var n0 := |g.lists|;
    var prev := begin;
    var k := nLinks;
    while k > 0
      invariant 0 <= k <= nLinks
      invariant g.Valid() && g.directed && !g.asSet
      invariant g.nVertices == old(g.nVertices) + (nLinks - k) && |g.lists| == n0 + (nLinks - k)
      invariant prev == (if k == nLinks then begin else n0 + (nLinks - k) - 1)
      invariant forall v :: 0 <= v < n0 && v != begin ==> g.lists[v] == start[v]
      invariant g.lists[begin] == (if k == nLinks then start[begin] else start[begin] + [n0])
      invariant forall v :: n0 <= v < n0 + (nLinks - k) - 1 ==> g.lists[v] == [v + 1]
      invariant k < nLinks ==> g.lists[n0 + (nLinks - k) - 1] == []
    {
      var link := g.AddVertex();
      g.AddEdge(prev, link);
      prev := link;
      k := k - 1;
    }
    g.AddEdge(prev, end);
    assert g.lists == ChainInserted(start, begin, end, nLinks);
  }

  /** Only begin's list changes among the old ones, by one appended edge; each new vertex has one edge. */
  lemma ChainShape(lists: seq<seq<int>>, begin: int, end: int, k: nat)
    requires 0 <= begin < |lists| && k >= 1
    ensures var r := ChainInserted(lists, begin, end, k);
      && |r| == |lists| + k
      && (forall v :: 0 <= v < |lists| && v != begin ==> r[v] == lists[v])
      && r[begin] == lists[begin] + [|lists|]
      && (forall v :: |lists| <= v < |r| ==> |r[v]| == 1)
  {
  }

  /** The chain is a walk begin, n0, ..., n0 + k - 1, end of k + 1 edges. */
  lemma ChainWalk(lists: seq<seq<int>>, begin: int, end: int, k: nat)
    requires 0 <= begin < |lists| && 0 <= end < |lists|
    ensures var r := ChainInserted(lists, begin, end, k);
      var p := [begin] + seq(k, i requires 0 <= i < k => |lists| + i) + [end];
      k >= 1 ==> IsWalkFromTo(r, p, begin, end) && |p| == k + 2
  {
    if k >= 1 {
      var r := ChainInserted(lists, begin, end, k);
      var n0 := |lists|;
      var p := [begin] + seq(k, i requires 0 <= i < k => n0 + i) + [end];
      forall i | 0 <= i < |p| - 1 ensures p[i + 1] in r[p[i]] {
        if i == 0 {
          assert p[1] == n0 && r[begin] == lists[begin] + [n0];
        } else if i < k {
          assert p[i] == n0 + i - 1 && p[i + 1] == n0 + i;
          assert r[n0 + (i - 1)] == [n0 + i];
        } else {
          assert p[i] == n0 + k - 1 && p[i + 1] == end;
          assert r[n0 + (k - 1)] == [end];
        }
      }
    }
  }

  /** With both ends in range, the chain keeps every stored neighbour a vertex. */
  lemma ChainKeepsValid(lists: seq<seq<int>>, begin: int, end: int, k: nat)
    requires ValidGraph(lists) && 0 <= begin < |lists| && 0 <= end < |lists|
    ensures ValidGraph(ChainInserted(lists, begin, end, k))
  {
    if k >= 1 {
      var r := ChainInserted(lists, begin, end, k);
      forall v, j | 0 <= v < |r| && 0 <= j < |r[v]| ensures 0 <= r[v][j] < |r| {
        if v < |lists| && v != begin {
          assert r[v] == lists[v];
        } else if v == begin {
          assert r[v] == lists[begin] + [|lists|];
        } else {
          assert r[v] == [if v - |lists| < k - 1 then v + 1 else end];
        }
      }
    }
  }

  /** The lists after main's rule for one input edge of the given weight. */
  ghost function WeightedEdgeInserted(lists: seq<seq<int>>, from: int, to: int, weight: int): seq<seq<int>>
    requires 0 <= from < |lists|
  {
    if weight > 1 then ChainInserted(lists, from, to, weight - 1) else lists[from := lists[from] + [to]]
  }

  /** main's rule for an input edge: weight > 1 becomes insert_chain(weight - 1), else one add_edge. */
  method AddWeightedEdge(g: AdjListsGraph, from: int, to: int, weight: int)
    requires g.Valid() && g.directed && !g.asSet && g.extra == 0 && 0 <= from < |g.lists|
    modifies g
    ensures g.Valid() && g.nVertices == old(g.nVertices) + (if weight > 1 then weight - 1 else 0)
    ensures g.lists == WeightedEdgeInserted(old(g.lists), from, to, weight)
  {
    if weight > 1 {
      InsertChain(g, from, to, weight - 1);
    } else {
      g.AddEdge(from, to);
    }
  }

  /** An edge of weight w >= 2 is a walk of exactly w unit edges; one of weight <= 1 is a single edge. */
  lemma WeightedEdgeWalk(lists: seq<seq<int>>, from: int, to: int, weight: int)
    requires 0 <= from < |lists| && 0 <= to < |lists|
    ensures exists p ::
      IsWalkFromTo(WeightedEdgeInserted(lists, from, to, weight), p, from, to) && |p| - 1 == (if weight > 1 then weight else 1)
  {
    var r := WeightedEdgeInserted(lists, from, to, weight);
    if weight > 1 {
      ChainWalk(lists, from, to, weight - 1);
      var p := [from] + seq(weight - 1, i requires 0 <= i < weight - 1 => |lists| + i) + [to];
      assert IsWalkFromTo(r, p, from, to);
    } else {
      assert r[from] == lists[from] + [to];
      assert IsWalkFromTo(r, [from, to], from, to);
    }
  }

  /** The graph main builds: n vertices, then each (from, to, weight) by the weighted-edge rule. */
  ghost function BuiltGraph(n: nat, edges: seq<(int, int, int)>): (r: seq<seq<int>>)
    requires forall i :: 0 <= i < |edges| ==> 0 <= edges[i].0 < n && 0 <= edges[i].1 < n
    ensures |r| >= n && ValidGraph(r)
    decreases |edges|
  {
    if edges == [] then seq(n, _ => [])
    else
      var prefix := BuiltGraph(n, edges[..|edges| - 1]);
      var e := edges[|edges| - 1];
      ChainKeepsValid(prefix, e.0, e.1, if e.2 > 1 then e.2 - 1 else 0);
      WeightedEdgeInserted(prefix, e.0, e.1, e.2)
  }

  /**
   * main without its input parsing: build the store edge by edge, then
   * find_shortest_distance(start, finish) over the unit-edge graph.
   */
  method MinPathLength(n: nat, edges: seq<(int, int, int)>, start: int, finish: int) returns (d: int)
    requires forall i :: 0 <= i < |edges| ==> 0 <= edges[i].0 < n && 0 <= edges[i].1 < n
    requires 0 <= start < n && 0 <= finish < n
    ensures d == -1 <==> !Reaches(BuiltGraph(n, edges), start, finish)
    ensures d >= 0 ==> exists p :: IsWalkFromTo(BuiltGraph(n, edges), p, start, finish) && |p| == d + 1
    ensures forall p :: IsWalkFromTo(BuiltGraph(n, edges), p, start, finish) ==> d <= |p| - 1
  {
    var g := new AdjListsGraph(n, true, false, false);
    var i := 0;
    while i < |edges|
      invariant 0 <= i <= |edges|
      invariant g.Valid() && g.directed && !g.asSet && g.extra == 0
      invariant g.lists == BuiltGraph(n, edges[..i])
    {
      assert edges[..i + 1][..i] == edges[..i];
      AddWeightedEdge(g, edges[i].0, edges[i].1, edges[i].2);
      i := i + 1;
    }
    assert edges[..i] == edges;
    var lists := g.lists;
    Bfs.AllVerticesClosed(lists);
    d := Bfs.FindShortestDistance(lists, start, finish, 0, Range(|lists|));
  }
}
