/**
 * The edge-id store of the bus-path and graph-decoding programs
 * (`Graph` / `AdjListsGraph` with `FastNeighborsGraph` on top): every
 * stored half-edge gets the next integer id, `edgeEnds[e]` is its head,
 * each vertex keeps the ids of its out-edges in insertion order, and the
 * fast variant caches each vertex's set of out-neighbours.
 */
module EdgeGraph {
  import opened Graphs
  import opened GraphStore

  /** The id lists after add_edge(from, to) hands out e (and e + 1 for the reverse half-edge of an undirected edge). */
  function IdsAdded(adj: seq<seq<int>>, e: int, from: int, to: int, directed: bool): (r: seq<seq<int>>)
    requires 0 <= from < |adj| && (!directed ==> 0 <= to < |adj|)
    ensures |r| == |adj| && forall v :: 0 <= v < |adj| && v != from && (directed || v != to) ==> r[v] == adj[v]
  {
    var once := adj[from := adj[from] + [e]];
    if directed then once else once[to := once[to] + [e + 1]]
  }

  /** The heads of the edges whose ids are listed in ids. */
  ghost function EndsOf(ids: seq<int>, ends: seq<int>): set<int> {
    set k | 0 <= k < |ids| && 0 <= ids[k] < |ends| :: ends[ids[k]]
  }

  /**
   * Lists adj, heads ends, tails and cached sets nbrs form a store of n
   * vertices: each id is in exactly one list, the one of its tail, every
   * list is ascending (ids are handed out in increasing order), and the
   * cached set of v is the set of heads of v's edges.
   */
  ghost predicate Stored(n: int, adj: seq<seq<int>>, ends: seq<int>, tails: seq<int>, nbrs: seq<set<int>>)
    requires |adj| == n && |nbrs| == n && |ends| == |tails|
  {
    && (forall e :: 0 <= e < |tails| ==> 0 <= tails[e] < n && e in adj[tails[e]])
    && (forall v, k :: 0 <= v < n && 0 <= k < |adj[v]| ==> 0 <= adj[v][k] < |tails| && tails[adj[v][k]] == v)
    && (forall v :: 0 <= v < n ==> Ascending(adj[v]))
    && (forall v :: 0 <= v < n ==> nbrs[v] == EndsOf(adj[v], ends))
  }

  /** Handing the next id to a half-edge from -> to keeps a store. */
  lemma StoredPushed(n: int, adj: seq<seq<int>>, ends: seq<int>, tails: seq<int>, nbrs: seq<set<int>>, from: int, to: int)
    requires |adj| == n && |nbrs| == n && |ends| == |tails| && Stored(n, adj, ends, tails, nbrs) && 0 <= from < n
    ensures Stored(n, adj[from := adj[from] + [|tails|]], ends + [to], tails + [from], nbrs[from := nbrs[from] + {to}])
  {
    var e := |tails|;
    var adj', ends', tails', nbrs' := adj[from := adj[from] + [e]], ends + [to], tails + [from], nbrs[from := nbrs[from] + {to}];
    forall d | 0 <= d < |tails'| ensures 0 <= tails'[d] < n && d in adj'[tails'[d]] {
      if d < e {
        assert tails'[d] == tails[d] && d in adj[tails[d]];
      } else {
        assert adj'[from][|adj[from]|] == e;
      }
    }
    forall v, k | 0 <= v < n && 0 <= k < |adj'[v]| ensures 0 <= adj'[v][k] < |tails'| && tails'[adj'[v][k]] == v {
      if v != from || k < |adj[v]| {
        assert adj'[v][k] == adj[v][k];
      }
    }
    forall v | 0 <= v < n ensures Ascending(adj'[v]) {
      assert Ascending(adj[v]);
    }
    forall v | 0 <= v < n ensures nbrs'[v] == EndsOf(adj'[v], ends') {
      EndsOfExtended(adj[v], ends, to);
      if v == from {
        EndsOfPushed(adj[v], ends', e);
      }
    }
  }

  /**
   * `FastNeighborsGraph`: the base store's fields (vertex and half-edge
   * counts, the per-vertex id lists, the head of every id) and the cached
   * neighbour sets.  The ghost `tails[e]` is the vertex whose list holds e.
   */
  class FastNeighborsGraph {
    var nVertices: nat
    var nEdges: nat
    const directed: bool
    var adjLists: seq<seq<int>>
    var edgeEnds: seq<int>
    var neighborsData: seq<set<int>>
    ghost var tails: seq<int>

    /** The fields have matching lengths and hold a store (see Stored). */
    ghost predicate Valid()
      reads this
    {
      && |adjLists| == nVertices && |neighborsData| == nVertices
      && |edgeEnds| == nEdges && |tails| == nEdges
      && Stored(nVertices, adjLists, edgeEnds, tails, neighborsData)
    }

    /** Every head is a vertex: what the traversals need before indexing arrays by heads. */
    ghost predicate EndsInRange()
      reads this
    {
      forall e :: 0 <= e < |edgeEnds| ==> 0 <= edgeEnds[e] < nVertices
    }

    /** The store as plain adjacency lists: v's list holds the heads of v's edges in id order. */
    ghost function Heads(): (h: AdjLists)
      reads this
      requires Valid()
      ensures |h| == nVertices
      ensures forall v :: 0 <= v < nVertices ==> |h[v]| == |adjLists[v]|
      ensures forall v, k :: 0 <= v < nVertices && 0 <= k < |adjLists[v]| ==> h[v][k] == edgeEnds[adjLists[v][k]]
      ensures EndsInRange() ==> ValidGraph(h)
    {
      var adj, ends := adjLists, edgeEnds;
      seq(|adj|, v requires 0 <= v < |adj| => seq(|adj[v]|, k requires 0 <= k < |adj[v]| => ends[adj[v][k]]))
    }

    /** FastNeighborsGraph(n, is_directed): n vertices and no edges. */
    constructor (n: nat, directed: bool)
      ensures Valid() && EndsInRange()
      ensures nVertices == n && nEdges == 0 && this.directed == directed
      ensures adjLists == seq(n, _ => []) && neighborsData == seq(n, _ => {}) && edgeEnds == [] && tails == []
    {
      nVertices := n;
      nEdges := 0;
      this.directed := directed;
      adjLists := seq(n, _ => []);
      edgeEnds := [];
      neighborsData := seq(n, _ => {});
      tails := [];
    }

    /**
     * add_edge(from, to): the half-edge from -> to gets id nEdges and, for
     * an undirected store, to -> from gets the next id; each id is pushed on
     * its tail's list and its head is recorded; the cached sets gain the
     * heads.
     */
    method AddEdge(from: int, to: int)
      requires Valid() && 0 <= from < nVertices && (!directed ==> 0 <= to < nVertices)
      modifies this
      ensures Valid() && nVertices == old(nVertices)
      ensures old(EndsInRange()) && 0 <= to < nVertices ==> EndsInRange()
      ensures nEdges == old(nEdges) + (if directed then 1 else 2)
      ensures edgeEnds == old(edgeEnds) + (if directed then [to] else [to, from])
      ensures tails == old(tails) + (if directed then [from] else [from, to])
      ensures adjLists == IdsAdded(old(adjLists), old(nEdges), from, to, directed)
      ensures var once := old(neighborsData)[from := old(neighborsData)[from] + {to}];
        neighborsData == if directed then once else once[to := once[to] + {from}]
      ensures Heads() == EdgeAdded(old(Heads()), from, to, directed, false)
    {
      AddHalfEdge(from, to);
      if !directed {
        AddHalfEdge(to, from);
      }
    }

    /** One half-edge of add_edge: the next id goes on from's list with head to. */
    method AddHalfEdge(from: int, to: int)
      requires Valid() && 0 <= from < nVertices
      modifies this
      ensures Valid() && nVertices == old(nVertices) && nEdges == old(nEdges) + 1
      ensures old(EndsInRange()) && 0 <= to < nVertices ==> EndsInRange()
      ensures edgeEnds == old(edgeEnds) + [to] && tails == old(tails) + [from]
      ensures adjLists == old(adjLists)[from := old(adjLists)[from] + [old(nEdges)]]
      ensures neighborsData == old(neighborsData)[from := old(neighborsData)[from] + {to}]
      ensures Heads() == old(Heads())[from := old(Heads())[from] + [to]]
    {
      var e := nEdges;
      ghost var h0 := Heads();
      StoredPushed(nVertices, adjLists, edgeEnds, tails, neighborsData, from, to);
      adjLists := adjLists[from := adjLists[from] + [e]];
      edgeEnds := edgeEnds + [to];
      tails := tails + [from];
      nEdges := nEdges + 1;
      neighborsData := neighborsData[from := neighborsData[from] + {to}];
      forall v | 0 <= v < nVertices ensures Heads()[v] == h0[from := h0[from] + [to]][v] {
        if v == from {
          assert Heads()[v][|h0[v]|] == to;
        }
      }
    }

    /** add_vertex(): a new vertex with no edges; returns its id. */
    method AddVertex() returns (v: int)
      requires Valid()
      modifies this
      ensures Valid() && v == old(nVertices) && nVertices == old(nVertices) + 1
      ensures old(EndsInRange()) ==> EndsInRange()
      ensures nEdges == old(nEdges) && edgeEnds == old(edgeEnds) && tails == old(tails)
      ensures adjLists == old(adjLists) + [[]] && neighborsData == old(neighborsData) + [{}]
    {
      v := nVertices;
      nVertices := nVertices + 1;
      adjLists := adjLists + [[]];
      neighborsData := neighborsData + [{}];
    }

    /** degree(v): the length of v's id list, which is the number of edges whose tail is v. */
    function Degree(v: int): (d: nat)
      reads this
      requires Valid() && 0 <= v < nVertices
      ensures d == |IndicesWith(tails, v)|
    {
      DegreeCount(v);
      |adjLists[v]|
    }

    lemma DegreeCount(v: int)
      requires Valid() && 0 <= v < nVertices
      ensures |adjLists[v]| == |IndicesWith(tails, v)|
    {
      AscendingCard(adjLists[v], IndicesWith(tails, v));
    }

    /** outgoing_edges(v): the ids of v's edges, ascending; every edge of v is there. */
    function OutgoingEdges(v: int): (ids: seq<int>)
      reads this
      requires Valid() && 0 <= v < nVertices
      ensures Ascending(ids)
      ensures forall e :: e in ids <==> 0 <= e < nEdges && tails[e] == v
    {
      adjLists[v]
    }

    /** edge_end(e): the head recorded for e, a vertex when the heads are in range. */
    function EdgeEnd(e: int): (u: int)
      reads this
      requires Valid() && 0 <= e < nEdges
      ensures EndsInRange() ==> 0 <= u < nVertices
      ensures u in neighborsData[tails[e]]
    {
      assert edgeEnds[e] in EndsOf(adjLists[tails[e]], edgeEnds) by {
        var k :| 0 <= k < |adjLists[tails[e]]| && adjLists[tails[e]][k] == e;
      }
      edgeEnds[e]
    }

    /** neighbors_by_reference(v): the cached set, which is the set of heads of v's edges. */
    function Neighbors(v: int): (s: set<int>)
      reads this
      requires Valid() && 0 <= v < nVertices
      ensures forall u :: u in s <==> u in Heads()[v]
    {
      neighborsData[v]
    }

    /**
     * The base class's neighbors(v): the heads of v's edges collected by a
     * loop over v's ids; it yields the same set as the cache.
     */
    method EdgeNeighbors(v: int) returns (s: set<int>)
      requires Valid() && 0 <= v < nVertices
      ensures s == neighborsData[v]
      ensures forall u :: u in s <==> exists k :: 0 <= k < |adjLists[v]| && edgeEnds[adjLists[v][k]] == u
    {
      s := {};
      var i := 0;
      while i < |adjLists[v]|
        invariant 0 <= i <= |adjLists[v]|
        invariant s == EndsOf(adjLists[v][..i], edgeEnds)
      {
        EndsOfPushed(adjLists[v][..i], edgeEnds, adjLists[v][i]);
        assert adjLists[v][..i + 1] == adjLists[v][..i] + [adjLists[v][i]];
        s := s + {edgeEnds[adjLists[v][i]]};
        i := i + 1;
      }
      assert adjLists[v][..i] == adjLists[v];
    }
  }

  /** Extending the heads does not change the heads of existing ids. */
  lemma EndsOfExtended(ids: seq<int>, ends: seq<int>, to: int)
    requires forall k :: 0 <= k < |ids| ==> 0 <= ids[k] < |ends|
    ensures EndsOf(ids, ends + [to]) == EndsOf(ids, ends)
  {
    forall u | u in EndsOf(ids, ends + [to]) ensures u in EndsOf(ids, ends) {
      var k :| 0 <= k < |ids| && 0 <= ids[k] < |ends| + 1 && (ends + [to])[ids[k]] == u;
      assert ends[ids[k]] == u;
    }
  }

  /** Pushing an id adds its head. */
  lemma EndsOfPushed(ids: seq<int>, ends: seq<int>, e: int)
    requires 0 <= e < |ends|
    ensures EndsOf(ids + [e], ends) == EndsOf(ids, ends) + {ends[e]}
  {
    var ids' := ids + [e];
    forall u | u in EndsOf(ids', ends) ensures u in EndsOf(ids, ends) + {ends[e]} {
      var k :| 0 <= k < |ids'| && 0 <= ids'[k] < |ends| && ends[ids'[k]] == u;
      if k < |ids| {
        assert ids'[k] == ids[k];
      }
    }
    forall u | u in EndsOf(ids, ends) ensures u in EndsOf(ids', ends) {
      var k :| 0 <= k < |ids| && 0 <= ids[k] < |ends| && ends[ids[k]] == u;
      assert ids'[k] == ids[k];
    }
    assert ids'[|ids|] == e;
  }

  /** An ascending list holding exactly the members of s has |s| entries. */
  lemma {:induction false} AscendingCard(l: seq<int>, s: set<int>)
    requires Ascending(l) && forall x :: x in l <==> x in s
    ensures |l| == |s|
    decreases |l|
  {
    if l == [] {
      assert forall x :: x !in s;
    } else {
      var x := l[|l| - 1];
      var l' := l[..|l| - 1];
      forall y ensures y in l' <==> y in s - {x} {
        if y in l' {
          var k :| 0 <= k < |l'| && l'[k] == y;
          assert l[k] == y && k < |l| - 1;
        }
        if y in s - {x} {
          var k :| 0 <= k < |l| && l[k] == y;
          assert k != |l| - 1 && l'[k] == y;
        }
      }
      AscendingCard(l', s - {x});
    }
  }
}
