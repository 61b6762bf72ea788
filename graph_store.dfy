/**
 * The adjacency-list store every program re-implements.  Depending on the
 * program a list is a vector (append), a set (insert unless present) or a
 * multiset (append); the 1-indexed programs allocate one list more than
 * there are vertices so that ids 1..n are valid indices.
 */
module GraphStore {
  import opened Graphs

  /** No value occurs twice in l. */
  ghost predicate NoDup(l: seq<int>) {
    forall i, j :: 0 <= i < j < |l| ==> l[i] != l[j]
  }

  /** l is strictly increasing: the iteration order of a std::set. */
  ghost predicate Ascending(l: seq<int>) {
    forall i, j :: 0 <= i < j < |l| ==> l[i] < l[j]
  }

  /** Number of occurrences of x in l. */
  function Count(l: seq<int>, x: int): (c: nat)
    ensures c <= |l|
    ensures c == 0 <==> x !in l
  {
    if l == [] then 0 else (if l[0] == x then 1 else 0) + Count(l[1..], x)
  }

  lemma {:induction false} CountAppend(l: seq<int>, y: int, x: int)
    ensures Count(l + [y], x) == Count(l, x) + (if y == x then 1 else 0)
  {
    if l != [] {
      assert (l + [y])[1..] == l[1..] + [y];
      CountAppend(l[1..], y, x);
    }
  }

  /**
   * Inserting x into one adjacency list: a vector or multiset appends it, a set
   * keeps its elements unique.
   */
  function Inserted(l: seq<int>, x: int, asSet: bool): (r: seq<int>)
    ensures forall y :: y in r <==> y == x || y in l
    ensures |l| <= |r| <= |l| + 1 && r[..|l|] == l
    ensures !asSet ==> Count(r, x) == Count(l, x) + 1
    ensures asSet && NoDup(l) ==> NoDup(r)
  {
    CountAppend(l, x, x);
    if asSet && x in l then l else l + [x]
  }

  /** The lists after add_edge(from, to): `to` into from's list and, undirected, `from` into to's list. */
  function EdgeAdded(lists: seq<seq<int>>, from: int, to: int, directed: bool, asSet: bool): (r: seq<seq<int>>)
    requires 0 <= from < |lists| && (!directed ==> 0 <= to < |lists|)
    ensures |r| == |lists|
  {
    var once := lists[from := Inserted(lists[from], to, asSet)];
    if directed then once else once[to := Inserted(once[to], from, asSet)]
  }

  /** Every call (from, to) can be made on a store of n lists. */
  ghost predicate CallsInRange(calls: seq<(int, int)>, n: int, directed: bool) {
    forall i :: 0 <= i < |calls| ==> 0 <= calls[i].0 < n && (!directed ==> 0 <= calls[i].1 < n)
  }

  /** The lists after the add_edge calls `calls`, in order. */
  function EdgesAdded(lists: seq<seq<int>>, calls: seq<(int, int)>, directed: bool, asSet: bool): (r: seq<seq<int>>)
    requires CallsInRange(calls, |lists|, directed)
    ensures |r| == |lists|
    decreases |calls|
  {
    if calls == [] then lists
    else
      var last := calls[|calls| - 1];
      EdgeAdded(EdgesAdded(lists, calls[..|calls| - 1], directed, asSet), last.0, last.1, directed, asSet)
  }

  /** Some add_edge call was (v, u). */
  ghost predicate Called(calls: seq<(int, int)>, v: int, u: int) {
    exists i :: 0 <= i < |calls| && calls[i] == (v, u)
  }

  /** One more call extends the fold by one add_edge. */
  lemma EdgesAddedSnoc(lists: seq<seq<int>>, calls: seq<(int, int)>, c: (int, int), directed: bool, asSet: bool)
    requires CallsInRange(calls, |lists|, directed)
    requires 0 <= c.0 < |lists| && (!directed ==> 0 <= c.1 < |lists|)
    ensures CallsInRange(calls + [c], |lists|, directed)
    ensures EdgesAdded(lists, calls + [c], directed, asSet) == EdgeAdded(EdgesAdded(lists, calls, directed, asSet), c.0, c.1, directed, asSet)
  {
    assert (calls + [c])[..|calls|] == calls;
  }

  /** A call of a concatenation is a call of one of its parts. */
  lemma CalledAppend(calls: seq<(int, int)>, more: seq<(int, int)>, v: int, u: int)
    ensures Called(calls + more, v, u) <==> Called(calls, v, u) || Called(more, v, u)
  {
    if Called(calls + more, v, u) {
      var i :| 0 <= i < |calls + more| && (calls + more)[i] == (v, u);
      if i >= |calls| {
        assert more[i - |calls|] == (v, u);
      } else {
        assert calls[i] == (v, u);
      }
    }
    if Called(more, v, u) {
      var i :| 0 <= i < |more| && more[i] == (v, u);
      assert (calls + more)[|calls| + i] == (v, u);
    }
    if Called(calls, v, u) {
      var i :| 0 <= i < |calls| && calls[i] == (v, u);
      assert (calls + more)[i] == (v, u);
    }
  }

  /** The membership rule of EdgesAddedMembership survives one more add_edge. */
  lemma MembershipSnoc(lists: seq<seq<int>>, before: seq<seq<int>>, calls: seq<(int, int)>, c: (int, int),
                       directed: bool, asSet: bool, v: int, u: int)
    requires |before| == |lists| && 0 <= v < |lists| && 0 <= c.0 < |lists| && (!directed ==> 0 <= c.1 < |lists|)
    requires u in before[v] <==> u in lists[v] || Called(calls, v, u) || (!directed && Called(calls, u, v))
    ensures u in EdgeAdded(before, c.0, c.1, directed, asSet)[v] <==>
      u in lists[v] || Called(calls + [c], v, u) || (!directed && Called(calls + [c], u, v))
  {
    CalledSnoc(calls, c, v, u);
    CalledSnoc(calls, c, u, v);
  }

  /** A call of the calls with one more is a call before it or that last one. */
  lemma CalledSnoc(calls: seq<(int, int)>, c: (int, int), v: int, u: int)
    ensures Called(calls + [c], v, u) <==> Called(calls, v, u) || c == (v, u)
  {
    CalledAppend(calls, [c], v, u);
    if c == (v, u) {
      assert [c][0] == (v, u);
    }
  }

  /** u is stored for v after the calls iff it was before or a call stored it, in either direction when undirected. */
  lemma {:induction false} EdgesAddedMembership(lists: seq<seq<int>>, calls: seq<(int, int)>, directed: bool, asSet: bool, v: int, u: int)
    requires CallsInRange(calls, |lists|, directed) && 0 <= v < |lists|
    ensures u in EdgesAdded(lists, calls, directed, asSet)[v] <==>
      u in lists[v] || Called(calls, v, u) || (!directed && Called(calls, u, v))
    decreases |calls|
  {
    if calls != [] {
      var prefix := calls[..|calls| - 1];
      assert CallsInRange(prefix, |lists|, directed);
      EdgesAddedMembership(lists, prefix, directed, asSet, v, u);
      var last := calls[|calls| - 1];
      assert calls == prefix + [last];
      EdgesAddedSnoc(lists, prefix, last, directed, asSet);
      MembershipSnoc(lists, EdgesAdded(lists, prefix, directed, asSet), prefix, last, directed, asSet, v, u);
    }
  }

  /** One add_edge on append lists adds a copy of u to v's list for a call (v, u), and undirected also for (u, v). */
  lemma EdgeAddedCount(p: seq<seq<int>>, a: int, b: int, directed: bool, v: int, u: int)
    requires 0 <= a < |p| && (!directed ==> 0 <= b < |p|) && 0 <= v < |p|
    ensures Count(EdgeAdded(p, a, b, directed, false)[v], u) ==
      Count(p[v], u) + (if (a, b) == (v, u) then 1 else 0) + (if !directed && (a, b) == (u, v) then 1 else 0)
  {
    var once := p[a := p[a] + [b]];
    CountAppend(p[a], b, u);
    assert Count(once[v], u) == Count(p[v], u) + (if (a, b) == (v, u) then 1 else 0) by {
      if a == v {
        assert once[v] == p[a] + [b];
      } else {
        assert once[v] == p[v];
      }
    }
    if directed {
      assert EdgeAdded(p, a, b, directed, false) == once;
    } else {
      var twice := once[b := once[b] + [a]];
      assert EdgeAdded(p, a, b, directed, false) == twice;
      CountAppend(once[b], a, u);
      if b == v {
        assert twice[v] == once[b] + [a];
      } else {
        assert twice[v] == once[v];
      }
    }
  }

  /** The copies of x in a log grow by one for each further call x. */
  lemma MultisetSnoc(calls: seq<(int, int)>, last: (int, int), x: (int, int))
    ensures multiset(calls + [last])[x] == multiset(calls)[x] + (if last == x then 1 else 0)
  {
  }

  /** For append lists, the copies of u in v's list grow by the calls (v, u), and undirected also (u, v). */
  lemma {:induction false} EdgesAddedCount(lists: seq<seq<int>>, calls: seq<(int, int)>, directed: bool, v: int, u: int)
    requires CallsInRange(calls, |lists|, directed) && 0 <= v < |lists|
    ensures Count(EdgesAdded(lists, calls, directed, false)[v], u) ==
      Count(lists[v], u) + multiset(calls)[(v, u)] + (if directed then 0 else multiset(calls)[(u, v)])
    decreases |calls|
  {
    if calls != [] {
      var prefix := calls[..|calls| - 1];
      var last := calls[|calls| - 1];
      assert calls == prefix + [last];
      assert CallsInRange(prefix, |lists|, directed);
      EdgesAddedCount(lists, prefix, directed, v, u);
      var p := EdgesAdded(lists, prefix, directed, false);
      assert EdgesAdded(lists, calls, directed, false) == EdgeAdded(p, last.0, last.1, directed, false);
      EdgeAddedCount(p, last.0, last.1, directed, v, u);
      MultisetSnoc(prefix, last, (v, u));
      MultisetSnoc(prefix, last, (u, v));
    }
  }

  /** The store.  `lists[v]` is v's adjacency list. */
  class AdjListsGraph {
    var nVertices: nat
    const directed: bool
    const asSet: bool
    /** 1 for the programs that allocate n + 1 lists, 0 for those that allocate n. */
    const extra: nat
    var lists: seq<seq<int>>

    ghost predicate Valid()
      reads this
    {
      && extra <= 1
      && |lists| == nVertices + extra
      && (asSet ==> forall v :: 0 <= v < |lists| ==> NoDup(lists[v]))
    }

    /** AdjListsGraph(n, is_directed): n (or n + 1) empty lists. */
    constructor (n: nat, directed: bool, asSet: bool, extraList: bool)
      ensures Valid()
      ensures this.directed == directed && this.asSet == asSet
      ensures nVertices == n && extra == (if extraList then 1 else 0)
      ensures lists == seq(n + extra, _ => [])
    {
      nVertices := n;
      this.directed := directed;
      this.asSet := asSet;
      extra := if extraList then 1 else 0;
      lists := seq(n + (if extraList then 1 else 0), _ => []);
    }

    /**
     * add_edge(from, to): stores `to` in from's list and, for an undirected
     * store, `from` in to's list.  Every other list is unchanged.
     */
    method AddEdge(from: int, to: int)
      requires Valid()
      requires 0 <= from < |lists| && (!directed ==> 0 <= to < |lists|)
      modifies this
      ensures Valid() && nVertices == old(nVertices)
      ensures lists == EdgeAdded(old(lists), from, to, directed, asSet)
    {
      lists := lists[from := Inserted(lists[from], to, asSet)];
      if !directed {
        lists := lists[to := Inserted(lists[to], from, asSet)];
      }
    }

    /** add_vertex(): appends an empty list and returns the old vertex count. */
    method AddVertex() returns (v: int)
      requires Valid()
      modifies this
      ensures Valid()
      ensures v == old(nVertices) && nVertices == old(nVertices) + 1
      ensures lists == old(lists) + [[]]
    {
      lists := lists + [[]];
      v := nVertices;
      nVertices := nVertices + 1;
    }
  }

  /** is_multiple_edge(v, u): the multiset list of v holds u more than once. */
  function IsMultipleEdge(g: AdjLists, v: int, u: int): (b: bool)
    requires 0 <= v < |g|
    ensures b <==> exists i, j :: 0 <= i < j < |g[v]| && g[v][i] == u && g[v][j] == u
  {
    CountTwice(g[v], u);
    Count(g[v], u) > 1
  }

  lemma {:induction false} CountTwice(l: seq<int>, x: int)
    ensures Count(l, x) > 1 <==> exists i, j :: 0 <= i < j < |l| && l[i] == x && l[j] == x
  {
    if l != [] {
      CountTwice(l[1..], x);
      if l[0] == x {
        if x in l[1..] {
          var k :| 0 <= k < |l[1..]| && l[1..][k] == x;
          assert l[0] == x && l[k + 1] == x;
        }
        if exists i, j :: 0 <= i < j < |l| && l[i] == x && l[j] == x {
          var i, j :| 0 <= i < j < |l| && l[i] == x && l[j] == x;
          assert l[1..][j - 1] == x;
        }
      } else {
        if exists i, j :: 0 <= i < j < |l| && l[i] == x && l[j] == x {
          var i, j :| 0 <= i < j < |l| && l[i] == x && l[j] == x;
          assert l[1..][i - 1] == x && l[1..][j - 1] == x;
        }
        if exists i, j :: 0 <= i < j < |l[1..]| && l[1..][i] == x && l[1..][j] == x {
          var i, j :| 0 <= i < j < |l[1..]| && l[1..][i] == x && l[1..][j] == x;
          assert l[i + 1] == x && l[j + 1] == x;
        }
      }
    }
  }

  /**
   * add_edge(from, to) on a store whose lists are init after the logged
   * calls: the log gains (from, to) and the lists stay its fold.
   */
  method AddEdgeLogged(g: AdjListsGraph, from: int, to: int, ghost init: seq<seq<int>>, ghost calls: seq<(int, int)>)
    returns (ghost calls': seq<(int, int)>)
    requires g.Valid() && 0 <= from < |g.lists| && (!g.directed ==> 0 <= to < |g.lists|)
    requires |init| == |g.lists| && CallsInRange(calls, |init|, g.directed)
    requires g.lists == EdgesAdded(init, calls, g.directed, g.asSet)
    modifies g
    ensures g.Valid() && g.nVertices == old(g.nVertices) && |g.lists| == |init|
    ensures CallsInRange(calls', |init|, g.directed) && g.lists == EdgesAdded(init, calls', g.directed, g.asSet)
    ensures forall v, u :: Called(calls', v, u) <==> Called(calls, v, u) || (v == from && u == to)
    ensures multiset(calls') == multiset(calls) + multiset{(from, to)}
  {
    g.AddEdge(from, to);
    EdgesAddedSnoc(init, calls, (from, to), g.directed, g.asSet);
    calls' := calls + [(from, to)];
    forall v, u ensures Called(calls', v, u) <==> Called(calls, v, u) || Called([(from, to)], v, u) {
      CalledAppend(calls, [(from, to)], v, u);
    }
    assert forall v, u :: Called([(from, to)], v, u) <==> v == from && u == to;
  }
  /** The calls up to and including calls[i] are those before it and then calls[i]. */
  lemma EdgesAddedPrefix(lists: seq<seq<int>>, calls: seq<(int, int)>, i: int, directed: bool, asSet: bool)
    requires CallsInRange(calls, |lists|, directed) && 0 <= i < |calls|
    ensures CallsInRange(calls[..i], |lists|, directed) && CallsInRange(calls[..i + 1], |lists|, directed)
    ensures EdgesAdded(lists, calls[..i + 1], directed, asSet) ==
      EdgeAdded(EdgesAdded(lists, calls[..i], directed, asSet), calls[i].0, calls[i].1, directed, asSet)
  {
    assert calls[..i + 1][..i] == calls[..i];
  }

  /** The input loop of main: one add_edge per pair read, in reading order. */
  method AddEdges(g: AdjListsGraph, calls: seq<(int, int)>)
    requires g.Valid() && CallsInRange(calls, |g.lists|, g.directed)
    modifies g
    ensures g.Valid() && g.nVertices == old(g.nVertices)
    ensures g.lists == EdgesAdded(old(g.lists), calls, g.directed, g.asSet)
  {
    ghost var init := g.lists;
    var i := 0;
    while i < |calls|
      invariant 0 <= i <= |calls| && g.Valid() && g.nVertices == old(g.nVertices) && |g.lists| == |init|
      invariant g.lists == EdgesAdded(init, calls[..i], g.directed, g.asSet)
    {
      ghost var before := g.lists;
      g.AddEdge(calls[i].0, calls[i].1);
      FoldStep(init, calls, i, g.directed, g.asSet, before, g.lists);
      i := i + 1;
    }
    assert calls[..i] == calls;
  }

  /** The lists after calls[..i] and then calls[i] are the lists after calls[..i + 1]. */
  lemma FoldStep(init: seq<seq<int>>, calls: seq<(int, int)>, i: int, directed: bool, asSet: bool,
                 before: seq<seq<int>>, after: seq<seq<int>>)
    requires CallsInRange(calls, |init|, directed) && 0 <= i < |calls|
    requires CallsInRange(calls[..i], |init|, directed) && before == EdgesAdded(init, calls[..i], directed, asSet)
    requires after == EdgeAdded(before, calls[i].0, calls[i].1, directed, asSet)
    ensures CallsInRange(calls[..i + 1], |init|, directed) && after == EdgesAdded(init, calls[..i + 1], directed, asSet)
  {
    EdgesAddedPrefix(init, calls, i, directed, asSet);
  }

  /** Every vertex number read lies in 1 .. n. */
  ghost predicate EdgesIn(n: int, edges: seq<(int, int)>) {
    forall i :: 0 <= i < |edges| ==> 1 <= edges[i].0 <= n && 1 <= edges[i].1 <= n
  }

  /** The add_edge calls of an input loop reading 1-based pairs: both ends shifted to 0-based ids. */
  function Shifted(edges: seq<(int, int)>): (calls: seq<(int, int)>)
    ensures |calls| == |edges|
    ensures forall i :: 0 <= i < |edges| ==> calls[i] == (edges[i].0 - 1, edges[i].1 - 1)
  {
    seq(|edges|, i requires 0 <= i < |edges| => (edges[i].0 - 1, edges[i].1 - 1))
  }

  /** The pair (a, b) is one of the input lines. */
  ghost predicate ReadPair(edges: seq<(int, int)>, a: int, b: int) {
    exists i :: 0 <= i < |edges| && edges[i] == (a, b)
  }

  /** add_edge(v, u) was called exactly when the line (v + 1, u + 1) was read. */
  lemma ShiftedCalled(edges: seq<(int, int)>, v: int, u: int)
    ensures Called(Shifted(edges), v, u) <==> ReadPair(edges, v + 1, u + 1)
  {
    var calls := Shifted(edges);
    if Called(calls, v, u) {
      var i :| 0 <= i < |calls| && calls[i] == (v, u);
      assert edges[i] == (v + 1, u + 1);
    }
    if ReadPair(edges, v + 1, u + 1) {
      var i :| 0 <= i < |edges| && edges[i] == (v + 1, u + 1);
      assert calls[i] == (v, u);
    }
  }

  /** The store after main's input loop: add_edge(from - 1, to - 1) on n empty lists for each 1-based pair read. */
  ghost function InputGraph(n: nat, edges: seq<(int, int)>, directed: bool, asSet: bool): AdjLists
    requires EdgesIn(n, edges)
  {
    EdgesAdded(seq(n, _ => []), Shifted(edges), directed, asSet)
  }

  /** The pair (v + 1, u + 1) was read or, undirected, (u + 1, v + 1). */
  ghost predicate Joined(edges: seq<(int, int)>, directed: bool, v: int, u: int) {
    ReadPair(edges, v + 1, u + 1) || (!directed && ReadPair(edges, u + 1, v + 1))
  }

  /** The input store holds u in v's list exactly when the pair was read. */
  lemma InputGraphEdge(n: nat, edges: seq<(int, int)>, directed: bool, asSet: bool, v: int, u: int)
    requires EdgesIn(n, edges) && 0 <= v < n
    ensures u in InputGraph(n, edges, directed, asSet)[v] <==> Joined(edges, directed, v, u)
  {
    EdgesAddedMembership(seq(n, _ => []), Shifted(edges), directed, asSet, v, u);
    ShiftedCalled(edges, v, u);
    ShiftedCalled(edges, u, v);
  }

  /** The input store is a valid graph on n vertices holding exactly the pairs read, symmetric when undirected. */
  lemma InputGraphEdges(n: nat, edges: seq<(int, int)>, directed: bool, asSet: bool)
    requires EdgesIn(n, edges)
    ensures |InputGraph(n, edges, directed, asSet)| == n && ValidGraph(InputGraph(n, edges, directed, asSet))
    ensures forall v, u :: 0 <= v < n ==> (u in InputGraph(n, edges, directed, asSet)[v] <==> Joined(edges, directed, v, u))
    ensures !directed ==> Symmetric(InputGraph(n, edges, directed, asSet))
  {
    var g := InputGraph(n, edges, directed, asSet);
    forall v, u | 0 <= v < n ensures u in g[v] <==> Joined(edges, directed, v, u) {
      InputGraphEdge(n, edges, directed, asSet, v, u);
    }
    forall v, k | 0 <= v < n && 0 <= k < |g[v]| ensures 0 <= g[v][k] < n {
      var u := g[v][k];
      assert u in g[v];
      if ReadPair(edges, v + 1, u + 1) {
        var i :| 0 <= i < |edges| && edges[i] == (v + 1, u + 1);
      } else {
        var i :| 0 <= i < |edges| && edges[i] == (u + 1, v + 1);
      }
    }
  }

  /**
   * lists holds, vertex by vertex, the elements of stored counted with
   * multiplicity, in whatever order a hash container enumerates them.
   */
  ghost predicate Reordered(lists: AdjLists, stored: AdjLists) {
    |lists| == |stored| && forall v :: 0 <= v < |lists| ==> multiset(lists[v]) == multiset(stored[v])
  }

  /** Count is the multiplicity of the list's multiset. */
  lemma {:induction false} CountMultiset(l: seq<int>, x: int)
    ensures Count(l, x) == multiset(l)[x]
  {
    if l != [] {
      assert l == [l[0]] + l[1..];
      CountMultiset(l[1..], x);
    }
  }

  /** A reordering keeps every list's members and their counts, so validity and symmetry carry over. */
  lemma ReorderedValid(lists: AdjLists, stored: AdjLists)
    requires Reordered(lists, stored) && ValidGraph(stored)
    ensures ValidGraph(lists)
    ensures forall v, u :: 0 <= v < |lists| ==> (u in lists[v] <==> u in stored[v])
    ensures forall v, u :: 0 <= v < |lists| ==> Count(lists[v], u) == Count(stored[v], u)
    ensures Symmetric(stored) ==> Symmetric(lists)
  {
    forall v, u | 0 <= v < |lists| ensures Count(lists[v], u) == Count(stored[v], u) {
      CountMultiset(lists[v], u);
      CountMultiset(stored[v], u);
    }
    forall v, u | 0 <= v < |lists| ensures u in lists[v] <==> u in stored[v] {
      assert u in lists[v] <==> u in multiset(lists[v]);
      assert u in stored[v] <==> u in multiset(stored[v]);
    }
    forall v, k | 0 <= v < |lists| && 0 <= k < |lists[v]| ensures 0 <= lists[v][k] < |lists| {
      var u := lists[v][k];
      assert u in stored[v];
      var i :| 0 <= i < |stored[v]| && stored[v][i] == u;
    }
  }

  /**
   * main's input loop: a store on n vertices, then add_edge(from - 1, to - 1)
   * for each 1-based pair read.  The lists are the input store.
   */
  method ReadGraph(n: nat, edges: seq<(int, int)>, directed: bool, asSet: bool) returns (g: AdjLists)
    requires EdgesIn(n, edges)
    ensures g == InputGraph(n, edges, directed, asSet)
    ensures |g| == n && ValidGraph(g)
    ensures forall v, u :: 0 <= v < n ==> (u in g[v] <==> Joined(edges, directed, v, u))
    ensures !directed ==> Symmetric(g)
  {
    var store := new AdjListsGraph(n, directed, asSet, false);
    AddEdges(store, Shifted(edges));
    g := store.lists;
    InputGraphEdges(n, edges, directed, asSet);
  }
}
