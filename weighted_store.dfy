/**
 * The weighted store of the Dijkstra programs: one hash map per vertex
 * from neighbour to weight.  `emplace` leaves an existing entry alone, so
 * the first weight given for a pair is the one kept.  The undirected
 * branch of add_edge stores the pair (to, to) rather than (to, from); the
 * model keeps that as written.
 */
module WeightedStore {

  /** lists[v][u] is the weight of the edge v -> u. */
  type WLists = seq<map<int, int>>

  /** Every stored neighbour is a vertex. */
  ghost predicate ValidWGraph(w: WLists) {
    forall v, u :: 0 <= v < |w| && u in w[v] ==> 0 <= u < |w|
  }

  /** unordered_map::emplace(k, x): adds k with weight x unless k is already present. */
  function Emplaced(m: map<int, int>, k: int, x: int): (r: map<int, int>)
    ensures r.Keys == m.Keys + {k}
    ensures k in m ==> r == m
    ensures k !in m ==> r[k] == x && forall j :: j in m ==> r[j] == m[j]
  {
    if k in m then m else m[k := x]
  }

  /** The store.  `lists[v]` maps each neighbour of v to its weight. */
  class WeightedAdjListsGraph {
    const nVertices: nat
    const directed: bool
    var lists: WLists

    ghost predicate Valid()
      reads this
    {
      |lists| == nVertices && ValidWGraph(lists)
    }

    /** WeightedAdjListsGraph(n, is_directed): n empty maps. */
    constructor (n: nat, directed: bool)
      ensures Valid() && nVertices == n && this.directed == directed
      ensures lists == seq(n, _ => map[])
    {
      nVertices := n;
      this.directed := directed;
      lists := seq(n, _ => map[]);
    }

    /**
     * add_edge(from, to, weight): emplaces (to, weight) in from's map and,
     * undirected, (to, weight) in to's own map -- a self-loop at to, not
     * the reverse edge.  An existing entry keeps its first weight.
     */
    method AddEdge(from: int, to: int, weight: int)
      requires Valid() && 0 <= from < nVertices && 0 <= to < nVertices
      modifies this
      ensures Valid()
      ensures directed ==> lists == old(lists)[from := Emplaced(old(lists)[from], to, weight)]
      ensures !directed ==> lists == old(lists)[from := Emplaced(old(lists)[from], to, weight)][to := Emplaced(old(lists)[from := Emplaced(old(lists)[from], to, weight)][to], to, weight)]
    {
      lists := lists[from := Emplaced(lists[from], to, weight)];
      if !directed {
        lists := lists[to := Emplaced(lists[to], to, weight)];
      }
    }
  }

  /** Every call (from, to, weight) names two vertices of a store of n maps. */
  ghost predicate WCallsInRange(calls: seq<(int, int, int)>, n: int) {
    forall i :: 0 <= i < |calls| ==> 0 <= calls[i].0 < n && 0 <= calls[i].1 < n
  }

  /** The maps after the directed add_edge calls `calls`, in order. */
  function WEdgesAdded(lists: WLists, calls: seq<(int, int, int)>): (r: WLists)
    requires WCallsInRange(calls, |lists|)
    ensures |r| == |lists|
    decreases |calls|
  {
    if calls == [] then lists
    else
      var last := calls[|calls| - 1];
      var p := WEdgesAdded(lists, calls[..|calls| - 1]);
      p[last.0 := Emplaced(p[last.0], last.1, last.2)]
  }

  /** Call i is the first of the calls for the pair (v, u). */
  ghost predicate FirstCall(calls: seq<(int, int, int)>, v: int, u: int, i: int) {
    0 <= i < |calls| && calls[i].0 == v && calls[i].1 == u &&
    forall j :: 0 <= j < i ==> !(calls[j].0 == v && calls[j].1 == u)
  }

  /** Some call was for the pair (v, u). */
  ghost predicate CalledPair(calls: seq<(int, int, int)>, v: int, u: int) {
    exists i :: 0 <= i < |calls| && calls[i].0 == v && calls[i].1 == u
  }

  /**
   * After a run of directed add_edge calls the edge v -> u is stored iff it
   * was before or some call named it; an old entry keeps its weight, and a
   * new one has the weight of the first call that named it.
   */
  lemma {:induction false} FirstWeightKept(lists: WLists, calls: seq<(int, int, int)>, v: int, u: int)
    requires WCallsInRange(calls, |lists|) && 0 <= v < |lists|
    ensures u in WEdgesAdded(lists, calls)[v] <==> u in lists[v] || CalledPair(calls, v, u)
    ensures u in lists[v] ==> WEdgesAdded(lists, calls)[v][u] == lists[v][u]
    ensures forall i :: FirstCall(calls, v, u, i) && u !in lists[v] ==> WEdgesAdded(lists, calls)[v][u] == calls[i].2
    decreases |calls|
  {
    if calls != [] {
      var prefix := calls[..|calls| - 1];
      var last := calls[|calls| - 1];
      assert WCallsInRange(prefix, |lists|);
      FirstWeightKept(lists, prefix, v, u);
      var p := WEdgesAdded(lists, prefix);
      assert CalledPair(calls, v, u) <==> CalledPair(prefix, v, u) || (last.0 == v && last.1 == u) by {
        if CalledPair(calls, v, u) {
          var i :| 0 <= i < |calls| && calls[i].0 == v && calls[i].1 == u;
          if i < |prefix| {
            assert prefix[i] == calls[i];
          }
        }
        if CalledPair(prefix, v, u) {
          var i :| 0 <= i < |prefix| && prefix[i].0 == v && prefix[i].1 == u;
          assert calls[i] == prefix[i];
        }
      }
      forall i | FirstCall(calls, v, u, i) && u !in lists[v]
        ensures WEdgesAdded(lists, calls)[v][u] == calls[i].2
      {
        if i < |prefix| {
          assert FirstCall(prefix, v, u, i);
          assert u in p[v] by {
            assert prefix[i] == calls[i];
          }
        } else {
          assert !CalledPair(prefix, v, u);
        }
      }
    }
  }

  /** A pair that was called has a first call. */
  lemma {:induction false} FirstCallExists(calls: seq<(int, int, int)>, v: int, u: int)
    requires CalledPair(calls, v, u)
    ensures exists i :: FirstCall(calls, v, u, i)
    decreases |calls|
  {
    var last := |calls| - 1;
    var prefix := calls[..last];
    if CalledPair(prefix, v, u) {
      FirstCallExists(prefix, v, u);
      var i :| FirstCall(prefix, v, u, i);
      assert forall j :: 0 <= j <= i ==> calls[j] == prefix[j];
      assert FirstCall(calls, v, u, i);
    } else {
      forall j | 0 <= j < last ensures !(calls[j].0 == v && calls[j].1 == u) {
        assert prefix[j] == calls[j];
      }
      assert FirstCall(calls, v, u, last);
    }
  }

  /** When every call for the pair (v, u) carries the weight x, a new edge v -> u weighs x. */
  lemma UniformWeight(lists: WLists, calls: seq<(int, int, int)>, v: int, u: int, x: int)
    requires WCallsInRange(calls, |lists|) && 0 <= v < |lists| && u !in lists[v] && CalledPair(calls, v, u)
    requires forall i :: 0 <= i < |calls| && calls[i].0 == v && calls[i].1 == u ==> calls[i].2 == x
    ensures u in WEdgesAdded(lists, calls)[v] && WEdgesAdded(lists, calls)[v][u] == x
  {
    FirstCallExists(calls, v, u);
    var i :| FirstCall(calls, v, u, i);
    FirstWeightKept(lists, calls, v, u);
  }
}
