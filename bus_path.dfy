/**
 * The bus-path program: squares joined by one-way route segments are the
 * vertices and edges of a directed edge-id store; after a reachability
 * check from the first square that any route touches, Hierholzer's walk
 * with an explicit stack and one cursor per vertex follows every edge once
 * and prints the squares in the order found.
 *
 * The routine as written never compares in- and out-degrees.  The flag
 * `checkBalance` selects the evidently intended version, which returns the
 * empty path unless the degrees allow an Euler circuit (every vertex
 * balanced) or an Euler path (one vertex with one more edge out than in,
 * one with one more in than out, the rest balanced), and then walks from
 * the path's start; `checkBalance == false` is the program as written.
 */
module BusPath {
  import opened Graphs
  import opened GraphStore
  import opened EdgeGraph
  import Cycles
  import Dijkstra

  /** Some square is touched by a route. */
  ghost predicate SomeVisible(isolated: seq<bool>) {
    exists v :: 0 <= v < |isolated| && !isolated[v]
  }

  /** The smallest index not marked isolated. */
  function FirstVisible(isolated: seq<bool>): (v: int)
    requires SomeVisible(isolated)
    ensures 0 <= v < |isolated| && !isolated[v]
    ensures forall w :: 0 <= w < v ==> isolated[w]
    decreases |isolated|
  {
    if !isolated[0] then 0
    else
      assert SomeVisible(isolated[1..]) by {
        var w :| 0 <= w < |isolated| && !isolated[w];
        assert isolated[1..][w - 1] == isolated[w];
      }
      1 + FirstVisible(isolated[1..])
  }

  /**
   * impl::skip_isolated_(max_v, isolated): the first index that is not
   * isolated, or max_v when that comes first.  The flag is read before the
   * bound is checked, so some index must be non-isolated.
   */
  method SkipIsolated(maxV: int, isolated: seq<bool>) returns (v: int)
    requires SomeVisible(isolated) && 0 <= maxV
    ensures v == if maxV < FirstVisible(isolated) then maxV else FirstVisible(isolated)
  {
    v := 0;
    while isolated[v] && v < maxV
      invariant 0 <= v <= FirstVisible(isolated) && v <= maxV
      decreases maxV - v
    {
      v := v + 1;
    }
  }

  /** Every non-isolated vertex is reachable along out-edges from the first non-isolated one. */
  ghost predicate ConnectedWithoutIsolated(h: AdjLists, isolated: seq<bool>) {
    SomeVisible(isolated) && ReachesVisible(h, isolated, FirstVisible(isolated))
  }

  /** Every non-isolated vertex is reachable along out-edges from s. */
  ghost predicate ReachesVisible(h: AdjLists, isolated: seq<bool>, s: int) {
    forall v :: 0 <= v < |isolated| && !isolated[v] ==> Reaches(h, s, v)
  }

  /** The number of queue entries already visited: the second half of the search's measure. */
  ghost function Marked(q: seq<int>, visited: seq<bool>): nat
    decreases |q|
  {
    if q == [] then 0 else (if 0 <= q[0] < |visited| && visited[q[0]] then 1 else 0) + Marked(q[1..], visited)
  }

  lemma {:induction false} MarkedAppend(a: seq<int>, b: seq<int>, visited: seq<bool>)
    ensures Marked(a + b, visited) == Marked(a, visited) + Marked(b, visited)
    decreases |a|
  {
    if a != [] {
      assert (a + b)[1..] == a[1..] + b;
      MarkedAppend(a[1..], b, visited);
    } else {
      assert a + b == b;
    }
  }

  lemma {:induction false} MarkedNone(b: seq<int>, visited: seq<bool>)
    requires forall i :: 0 <= i < |b| ==> 0 <= b[i] < |visited| && !visited[b[i]]
    ensures Marked(b, visited) == 0
    decreases |b|
  {
    if b != [] {
      MarkedNone(b[1..], visited);
    }
  }

  /**
   * The search state of is_connected_without_isolated: visited vertices and
   * queued ones are reachable from s, s is visited or queued, and every
   * edge out of a visited vertex leads to a visited or a queued one.
   */
  ghost predicate Searching(h: AdjLists, s: int, visited: seq<bool>, queue: seq<int>) {
    && ValidGraph(h) && |visited| == |h| && 0 <= s < |h|
    && (visited[s] || s in queue)
    && (forall i :: 0 <= i < |queue| ==> 0 <= queue[i] < |h| && Reaches(h, s, queue[i]))
    && (forall x :: 0 <= x < |h| && visited[x] ==> Reaches(h, s, x))
    && (forall x, k :: 0 <= x < |h| && visited[x] && 0 <= k < |h[x]| ==> visited[h[x][k]] || h[x][k] in queue)
  }

  /** Visiting the front v and queueing its unvisited neighbours keeps the search state. */
  lemma SearchStep(h: AdjLists, s: int, visited: seq<bool>, queue: seq<int>, pushed: seq<int>)
    requires Searching(h, s, visited, queue) && queue != []
    requires forall i :: 0 <= i < |pushed| ==> pushed[i] in h[queue[0]]
    requires forall u :: u in h[queue[0]] && 0 <= u < |h| && !visited[queue[0] := true][u] ==> u in pushed
    ensures Searching(h, s, visited[queue[0] := true], (queue + pushed)[1..])
  {
    var v := queue[0];
    var visited', queue' := visited[v := true], (queue + pushed)[1..];
    assert queue' == queue[1..] + pushed;
    forall i | 0 <= i < |pushed| ensures 0 <= pushed[i] < |h| && Reaches(h, s, pushed[i]) {
      EdgeReaches(h, v, pushed[i]);
      ReachesTrans(h, s, v, pushed[i]);
    }
    forall x, k | 0 <= x < |h| && visited'[x] && 0 <= k < |h[x]| ensures visited'[h[x][k]] || h[x][k] in queue' {
      var u := h[x][k];
      if x != v && !visited'[u] {
        assert u in queue && u != queue[0];
        var i :| 0 <= i < |queue| && queue[i] == u;
        assert queue'[i - 1] == u;
      }
    }
    if !visited'[s] {
      var i :| 0 <= i < |queue| && queue[i] == s;
      assert queue'[i - 1] == s;
    }
  }

  /** Walks from s stay inside a set that holds s and is closed under edges. */
  lemma {:induction false} WalkStaysIn(h: AdjLists, inS: seq<bool>, p: seq<int>, i: int)
    requires |inS| == |h| && IsWalk(h, p) && inS[p[0]] && 0 <= i < |p|
    requires forall x, k :: 0 <= x < |h| && inS[x] && 0 <= k < |h[x]| ==> 0 <= h[x][k] < |h| && inS[h[x][k]]
    ensures inS[p[i]]
    decreases i
  {
    if i > 0 {
      WalkStaysIn(h, inS, p, i - 1);
      assert p[i - 1 + 1] in h[p[i - 1]];
      var k :| 0 <= k < |h[p[i - 1]]| && h[p[i - 1]][k] == p[i];
    }
  }

  /** A closed set holding s holds every vertex s reaches. */
  lemma ClosedReaches(h: AdjLists, inS: seq<bool>, s: int, t: int)
    requires |inS| == |h| && 0 <= s < |h| && inS[s]
    requires forall x, k :: 0 <= x < |h| && inS[x] && 0 <= k < |h[x]| ==> 0 <= h[x][k] < |h| && inS[h[x][k]]
    requires Reaches(h, s, t)
    ensures 0 <= t < |h| && inS[t]
  {
    var p :| IsWalkFromTo(h, p, s, t);
    WalkStaysIn(h, inS, p, |p| - 1);
  }

  /**
   * The loop over neighbors_by_reference(v): every neighbour u not yet
   * visited is pushed at the back of the queue, in the set's order, which
   * is unspecified.
   */
  method PushUnvisited(g: FastNeighborsGraph, v: int, visited: seq<bool>, queue: seq<int>) returns (queue': seq<int>)
    requires g.Valid() && g.EndsInRange() && 0 <= v < g.nVertices && |visited| == g.nVertices
    ensures |queue| <= |queue'| && queue'[..|queue|] == queue
    ensures forall i :: |queue| <= i < |queue'| ==> queue'[i] in g.Heads()[v] && !visited[queue'[i]]
    ensures forall u :: u in g.Heads()[v] && !visited[u] ==> u in queue'[|queue|..]
  {
    var nbrs := g.Neighbors(v);
    ghost var h := g.Heads();
    queue' := queue;
    var todo := nbrs;
    while todo != {}
      invariant todo <= nbrs
      invariant |queue| <= |queue'| && queue'[..|queue|] == queue
      invariant forall i :: |queue| <= i < |queue'| ==> queue'[i] in h[v] && !visited[queue'[i]]
      invariant forall u :: u in nbrs - todo && !visited[u] ==> u in queue'[|queue|..]
      decreases |todo|
    {
      var u := Dijkstra.NextKey(todo);
      assert u in h[v];
      if !visited[u] {
        ghost var q0 := queue';
        queue' := queue' + [u];
        Appended(q0, u, |queue|);
      }
      todo := todo - {u};
    }
  }

  /** Appending to a queue keeps its first k entries and adds one after the rest. */
  lemma Appended(q: seq<int>, u: int, k: int)
    requires 0 <= k <= |q|
    ensures (q + [u])[..k] == q[..k] && (q + [u])[k..] == q[k..] + [u]
  {
  }

  /**
   * The queue loop of is_connected_without_isolated: pop the front, mark
   * it visited and queue its unvisited neighbours.  Afterwards the visited
   * vertices are exactly those reachable from s.
   */
  method SearchFrom(g: FastNeighborsGraph, s: int) returns (visited: seq<bool>)
    requires g.Valid() && g.EndsInRange() && 0 <= s < g.nVertices
    ensures |visited| == g.nVertices
    ensures forall t :: 0 <= t < g.nVertices ==> (visited[t] <==> Reaches(g.Heads(), s, t))
  {
    var n := g.nVertices;
    ghost var h := g.Heads();
    visited := seq(n, _ => false);
    var queue := [s];
    ReachesRefl(h, s);
    while queue != []
      invariant Searching(h, s, visited, queue)
      decreases |IndicesWith(visited, false)|, Marked(queue, visited)
    {
      var v := queue[0];
      ghost var visited0 := visited;
      visited := visited[v := true];
      var queue1 := PushUnvisited(g, v, visited, queue);
      ghost var pushed := queue1[|queue|..];
      assert queue1 == queue + pushed;
      SearchStep(h, s, visited0, queue, pushed);
      if visited0[v] {
        assert visited == visited0;
        MarkedNone(pushed, visited);
        MarkedAppend(queue[1..], pushed, visited);
        assert queue1[1..] == queue[1..] + pushed;
      } else {
        IndicesWithUpdate(visited0, v, true, false);
      }
      queue := queue1[1..];
    }
    forall t | Reaches(h, s, t) ensures 0 <= t < n && visited[t] {
      ClosedReaches(h, visited, s, t);
    }
  }

  /**
   * is_connected_without_isolated(g, isolated): false for a store without
   * edges; otherwise true exactly when every non-isolated vertex is
   * reachable along out-edges from the first non-isolated one.  The search
   * marks a vertex when it leaves the queue, so a vertex can be queued more
   * than once.
   */
  method IsConnectedWithoutIsolated(g: FastNeighborsGraph, isolated: seq<bool>) returns (r: bool)
    requires g.Valid() && g.EndsInRange() && |isolated| == g.nVertices
    requires g.nEdges > 0 ==> SomeVisible(isolated)
    ensures r <==> g.nEdges > 0 && ConnectedWithoutIsolated(g.Heads(), isolated)
  {
    if g.nEdges == 0 {
      return false;
    }
    var s := SkipIsolated(g.nVertices, isolated);
    r := VisibleReached(g, isolated, s);
  }

  /**
   * The search from s and the check after it: true exactly when every
   * non-isolated vertex was visited, that is, is reachable from s.
   */
  method VisibleReached(g: FastNeighborsGraph, isolated: seq<bool>, s: int) returns (r: bool)
    requires g.Valid() && g.EndsInRange() && |isolated| == g.nVertices && 0 <= s < g.nVertices
    ensures r <==> ReachesVisible(g.Heads(), isolated, s)
  {
    var n := g.nVertices;
    var visited := SearchFrom(g, s);
    var v := 0;
    while v < n
      invariant 0 <= v <= n
      invariant forall w :: 0 <= w < v ==> visited[w] || isolated[w]
    {
      if !visited[v] && !isolated[v] {
        return false;
      }
      v := v + 1;
    }
    return true;
  }

  /** Ids of the edges not yet followed. */
  ghost function Unused(m: int, used: set<int>): set<int> {
    set e | 0 <= e < m && e !in used
  }

  /** The edges into u not yet followed; deg_in[u] counts them. */
  ghost function IntoUnused(ends: seq<int>, used: set<int>, u: int): set<int> {
    set e | 0 <= e < |ends| && e !in used && ends[e] == u
  }

  /** The edges into u among the ids counted so far; deg_in[u] while it is computed. */
  ghost function IntoCounted(ends: seq<int>, counted: set<int>, u: int): set<int> {
    set e | e in counted && 0 <= e < |ends| && ends[e] == u
  }

  /**
   * The counters differ by 1 at s, by -1 at t and not at all elsewhere:
   * with s != t the degree rule of an Euler path from s to t, with s == t
   * that of an Euler circuit (every vertex balanced).
   */
  ghost predicate Differences(degOut: seq<int>, degIn: seq<int>, s: int, t: int) {
    && |degOut| == |degIn| && 0 <= s < |degOut| && 0 <= t < |degOut|
    && forall u :: 0 <= u < |degOut| ==> degOut[u] - degIn[u] == (if u == s then 1 else 0) - (if u == t then 1 else 0)
  }

  /** For each vertex below n, the number of ids that name it: out-degrees over tails, in-degrees over heads. */
  ghost function Counts(n: nat, ids: seq<int>): seq<int> {
    seq(n, u => |IndicesWith(ids, u)|)
  }

  /**
   * The ends the corrected routine walks between: the degrees allow an
   * Euler path from s to t, and a circuit starts at the first non-isolated
   * vertex.
   */
  ghost predicate EulerEnds(g: FastNeighborsGraph, isolated: seq<bool>, s: int, t: int)
    reads g
  {
    && Differences(Counts(g.nVertices, g.tails), Counts(g.nVertices, g.edgeEnds), s, t)
    && (s == t ==> SomeVisible(isolated) && s == FirstVisible(isolated))
  }

  /** What Differences says at one vertex u. */
  lemma DifferenceAt(degOut: seq<int>, degIn: seq<int>, s: int, t: int, u: int)
    requires |degOut| == |degIn| && 0 <= u < |degOut|
    ensures Differences(degOut, degIn, s, t) ==>
      degOut[u] - degIn[u] == (if u == s then 1 else 0) - (if u == t then 1 else 0)
  {
  }

  /** Two pairs of ends of the same counters: both are circuits, or both are the same path. */
  lemma EndsUnique(degOut: seq<int>, degIn: seq<int>, s: int, t: int, x: int, y: int)
    requires Differences(degOut, degIn, s, t) && Differences(degOut, degIn, x, y)
    ensures (s == t) == (x == y) && (s != t ==> x == s && y == t)
  {
    if s != t {
      assert degOut[s] - degIn[s] == 1 && degOut[t] - degIn[t] == -1;
    } else {
      assert degOut[x] - degIn[x] == 0;
    }
  }

  /** Every edge leaves a vertex that is not marked isolated: what main's input loop guarantees. */
  ghost predicate TailsVisible(g: FastNeighborsGraph, isolated: seq<bool>)
    reads g
  {
    VisibleTails(g.tails, isolated)
  }

  ghost predicate VisibleTails(tails: seq<int>, isolated: seq<bool>) {
    forall e :: 0 <= e < |tails| ==> 0 <= tails[e] < |isolated| && !isolated[tails[e]]
  }

  /**
   * The degree loop: deg_out[v] = degree(v) and, over every vertex's ids,
   * ++deg_in[edge_end(e)].  Afterwards deg_in[u] is the number of edges
   * into u.
   */
  method Degrees(g: FastNeighborsGraph) returns (degOut: seq<int>, degIn: seq<int>)
    requires g.Valid() && g.EndsInRange()
    ensures |degOut| == g.nVertices && |degIn| == g.nVertices
    ensures forall u :: 0 <= u < g.nVertices ==> degOut[u] == |g.adjLists[u]| == |IndicesWith(g.tails, u)|
    ensures forall u :: 0 <= u < g.nVertices ==> degIn[u] == |IndicesWith(g.edgeEnds, u)|
  {
    var n := g.nVertices;
    degOut := seq(n, _ => 0);
    degIn := seq(n, _ => 0);
    ghost var counted: set<int> := {};
    var v := 0;
    while v < n
      invariant 0 <= v <= n && |degOut| == n && |degIn| == n
      invariant forall u :: 0 <= u < n ==> degOut[u] == if u < v then |g.adjLists[u]| else 0
      invariant forall e :: e in counted <==> 0 <= e < g.nEdges && g.tails[e] < v
      invariant forall u :: 0 <= u < n ==> degIn[u] == |IntoCounted(g.edgeEnds, counted, u)|
    {
      g.DegreeCount(v);
      degOut := degOut[v := g.Degree(v)];
      degIn, counted := CountHeads(g, v, degIn, counted);
      v := v + 1;
    }
    forall u | 0 <= u < n ensures degIn[u] == |IndicesWith(g.edgeEnds, u)| && degOut[u] == |IndicesWith(g.tails, u)| {
      assert IntoCounted(g.edgeEnds, counted, u) == IndicesWith(g.edgeEnds, u);
      g.DegreeCount(u);
    }
  }

  /** The inner degree loop: ++deg_in[edge_end(e)] for every id e of v. */
  method CountHeads(g: FastNeighborsGraph, v: int, degIn: seq<int>, ghost counted: set<int>)
    returns (degIn': seq<int>, ghost counted': set<int>)
    requires g.Valid() && g.EndsInRange() && 0 <= v < g.nVertices && |degIn| == g.nVertices
    requires forall e :: e in counted <==> 0 <= e < g.nEdges && g.tails[e] < v
    requires forall u :: 0 <= u < g.nVertices ==> degIn[u] == |IntoCounted(g.edgeEnds, counted, u)|
    ensures |degIn'| == g.nVertices
    ensures forall e :: e in counted' <==> 0 <= e < g.nEdges && g.tails[e] < v + 1
    ensures forall u :: 0 <= u < g.nVertices ==> degIn'[u] == |IntoCounted(g.edgeEnds, counted', u)|
  {
    var n := g.nVertices;
    var l := g.adjLists[v];
    degIn', counted' := degIn, counted;
    var i := 0;
    while i < |l|
      invariant 0 <= i <= |l| && |degIn'| == n
      invariant forall e :: e in counted' <==> 0 <= e < g.nEdges && (g.tails[e] < v || e in l[..i])
      invariant forall u :: 0 <= u < n ==> degIn'[u] == |IntoCounted(g.edgeEnds, counted', u)|
    {
      var e := l[i];
      var u := g.edgeEnds[e];
      CountOne(g, counted', v, i);
      degIn' := degIn'[u := degIn'[u] + 1];
      SliceSnoc(l, i);
      counted' := counted' + {e};
      i := i + 1;
    }
    assert l[..i] == l;
    forall e | e in counted' ensures 0 <= e < g.nEdges && g.tails[e] < v + 1 {
    }
    forall e | 0 <= e < g.nEdges && g.tails[e] < v + 1 ensures e in counted' {
    }
  }

  lemma SliceSnoc(l: seq<int>, i: int)
    requires 0 <= i < |l|
    ensures l[..i + 1] == l[..i] + [l[i]]
  {
  }

  /** Counting the i-th id of v adds it to the count of its head only. */
  lemma CountOne(g: FastNeighborsGraph, counted: set<int>, v: int, i: int)
    requires g.Valid() && 0 <= v < g.nVertices && 0 <= i < |g.adjLists[v]|
    requires forall e :: e in counted <==> 0 <= e < g.nEdges && (g.tails[e] < v || e in g.adjLists[v][..i])
    ensures g.adjLists[v][i] !in counted
    ensures forall u :: (IntoCounted(g.edgeEnds, counted + {g.adjLists[v][i]}, u) ==
      IntoCounted(g.edgeEnds, counted, u) + (if u == g.edgeEnds[g.adjLists[v][i]] then {g.adjLists[v][i]} else {}))
  {
    var e := g.adjLists[v][i];
    assert Ascending(g.adjLists[v]);
    assert forall k :: 0 <= k < i ==> g.adjLists[v][..i][k] < e;
    assert e !in g.adjLists[v][..i];
  }

  /** Cursors: deg_out[u] edges of u are left, and the followed ones are the first ones of u's list. */
  ghost predicate Cursors(g: FastNeighborsGraph, degOut: seq<int>, used: set<int>)
    reads g
    requires g.Valid()
  {
    && |degOut| == g.nVertices
    && (forall u :: 0 <= u < g.nVertices ==> 0 <= degOut[u] <= |g.adjLists[u]|)
    && (forall e :: e in used ==> 0 <= e < g.nEdges)
    && (forall e :: 0 <= e < g.nEdges ==>
          (e in used <==> e in g.adjLists[g.tails[e]][..|g.adjLists[g.tails[e]]| - degOut[g.tails[e]]]))
  }

  /** deg_in[u] is the number of unfollowed edges into u. */
  ghost predicate InDegrees(g: FastNeighborsGraph, degIn: seq<int>, used: set<int>)
    reads g
  {
    && |degIn| == g.nVertices
    && forall u :: 0 <= u < g.nVertices ==> degIn[u] == |IntoUnused(g.edgeEnds, used, u)|
  }

  /**
   * The stack and the popped vertices: the stack starts at s and each
   * stacked vertex was entered by the trail edge below it; the i-th popped
   * vertex was entered by links[i].  Those edges are the followed ones,
   * none twice.
   */
  ghost predicate Linked(g: FastNeighborsGraph, s: int, stack: seq<int>, path: seq<int>,
                         used: set<int>, trail: seq<int>, links: seq<int>)
    reads g
    requires g.Valid()
  {
    && (forall i :: 0 <= i < |stack| ==> 0 <= stack[i] < g.nVertices)
    && (stack != [] ==> stack[0] == s && |trail| == |stack| - 1 && |links| == |path|)
    && (stack == [] ==> trail == [] && |links| + 1 == |path| && path[|path| - 1] == s)
    && (forall i :: 0 <= i < |trail| ==>
          0 <= trail[i] < g.nEdges && g.tails[trail[i]] == stack[i] && g.edgeEnds[trail[i]] == stack[i + 1])
    && (forall i :: 0 <= i < |links| ==> 0 <= links[i] < g.nEdges && g.edgeEnds[links[i]] == path[i])
    && NoDup(trail) && NoDup(links) && (forall i :: 0 <= i < |trail| ==> trail[i] !in links)
    && (forall e :: e in used <==> e in trail || e in links)
  }

  /**
   * The vertices ever stacked: they hold s, the stack and the heads of the
   * followed edges, and each one still on no stack has no edge left.
   */
  ghost predicate Explored(g: FastNeighborsGraph, s: int, degOut: seq<int>, stack: seq<int>, used: set<int>, seen: set<int>)
    reads g
  {
    && s in seen
    && (forall i :: 0 <= i < |stack| ==> stack[i] in seen)
    && (forall e :: e in used && 0 <= e < |g.edgeEnds| ==> g.edgeEnds[e] in seen)
    && (forall x :: x in seen ==> 0 <= x < g.nVertices && x < |degOut| && (x in stack || degOut[x] == 0))
  }

  /**
   * On a store whose degrees allow an Euler path from s to t (t == s for a
   * circuit): before the first pop the top has one more unfollowed edge out
   * than in and t one more in than out; afterwards the surplus sits at the
   * top and the stacked vertex at junction j; every other vertex has as many
   * unfollowed edges in as out, all of them once the stack is empty.  The
   * popped vertices read backwards are joined by their links, the last link
   * leaving the junction; the first vertex popped is t.
   */
  ghost predicate Balancing(g: FastNeighborsGraph, t: int, degOut: seq<int>, degIn: seq<int>, stack: seq<int>,
                            path: seq<int>, links: seq<int>, j: int)
    reads g
    requires g.Valid()
  {
    && |degOut| == g.nVertices && |degIn| == g.nVertices
    && (stack != [] ==> 0 <= j < |stack|)
    && (stack != [] ==> forall u :: 0 <= u < g.nVertices ==>
          degOut[u] - degIn[u] == (if u == stack[|stack| - 1] then 1 else 0) - (if u == Sink(t, stack, path, j) then 1 else 0))
    && (stack == [] ==> forall u :: 0 <= u < g.nVertices ==> degOut[u] == degIn[u])
    && (path == [] ==> j == 0)
    && (path != [] ==> path[0] == t)
    && (forall i :: 0 <= i < |links| && i + 1 < |path| ==> 0 <= links[i] < g.nEdges && g.tails[links[i]] == path[i + 1])
    && (forall i :: 0 <= i < |links| && i + 1 == |path| && 0 <= j < |stack| ==>
          0 <= links[i] < g.nEdges && g.tails[links[i]] == stack[j])
  }

  /** The vertex with one more unfollowed edge in than out: t before the first pop, then the junction. */
  function Sink(t: int, stack: seq<int>, path: seq<int>, j: int): int
    requires 0 <= j < |stack|
  {
    if path == [] then t else stack[j]
  }

  /** Following the next edge e of the top v: the cursor of v moves on and e is used. */
  lemma PushCursors(g: FastNeighborsGraph, degOut: seq<int>, used: set<int>, v: int)
    requires g.Valid() && Cursors(g, degOut, used) && 0 <= v < g.nVertices && degOut[v] > 0
    ensures var e := g.adjLists[v][|g.adjLists[v]| - degOut[v]];
      && 0 <= e < g.nEdges && e !in used && g.tails[e] == v
      && Cursors(g, degOut[v := degOut[v] - 1], used + {e})
  {
    var c := |g.adjLists[v]| - degOut[v];
    var e := g.adjLists[v][c];
    var degOut' := degOut[v := degOut[v] - 1];
    assert g.adjLists[v][..c + 1] == g.adjLists[v][..c] + [e];
    assert Ascending(g.adjLists[v]);
    forall d | 0 <= d < g.nEdges
      ensures d in used + {e} <==> d in g.adjLists[g.tails[d]][..|g.adjLists[g.tails[d]]| - degOut'[g.tails[d]]]
    {
    }
  }

  /** Following e into u takes e off u's count of unfollowed in-edges. */
  lemma PushInDegrees(g: FastNeighborsGraph, degIn: seq<int>, used: set<int>, e: int)
    requires g.Valid() && g.EndsInRange() && InDegrees(g, degIn, used) && 0 <= e < g.nEdges && e !in used
    ensures var u := g.edgeEnds[e]; degIn[u] >= 1 && InDegrees(g, degIn[u := degIn[u] - 1], used + {e})
  {
    var u := g.edgeEnds[e];
    assert e in IntoUnused(g.edgeEnds, used, u);
    assert IntoUnused(g.edgeEnds, used + {e}, u) == IntoUnused(g.edgeEnds, used, u) - {e};
    forall w | 0 <= w < g.nVertices && w != u ensures IntoUnused(g.edgeEnds, used + {e}, w) == IntoUnused(g.edgeEnds, used, w) {
    }
  }

  /** Stacking the head u of the followed edge e. */
  lemma PushLinked(g: FastNeighborsGraph, s: int, stack: seq<int>, path: seq<int>, used: set<int>,
                   trail: seq<int>, links: seq<int>, e: int)
    requires g.Valid() && g.EndsInRange() && Linked(g, s, stack, path, used, trail, links) && stack != []
    requires 0 <= e < g.nEdges && e !in used && g.tails[e] == stack[|stack| - 1]
    ensures Linked(g, s, stack + [g.edgeEnds[e]], path, used + {e}, trail + [e], links)
  {
    var stack', trail' := stack + [g.edgeEnds[e]], trail + [e];
    forall i | 0 <= i < |trail'|
      ensures 0 <= trail'[i] < g.nEdges && g.tails[trail'[i]] == stack'[i] && g.edgeEnds[trail'[i]] == stack'[i + 1]
    {
      if i < |trail| {
        assert trail'[i] == trail[i] && stack'[i] == stack[i] && stack'[i + 1] == stack[i + 1];
      }
    }
  }

  /** A followed edge's head joins the explored vertices. */
  lemma PushExplored(g: FastNeighborsGraph, s: int, degOut: seq<int>, stack: seq<int>, used: set<int>,
                     seen: set<int>, v: int, e: int)
    requires g.Valid() && g.EndsInRange() && Explored(g, s, degOut, stack, used, seen)
    requires stack != [] && v == stack[|stack| - 1] && |degOut| == g.nVertices && 0 <= v < |degOut| && 0 <= e < g.nEdges
    ensures Explored(g, s, degOut[v := degOut[v] - 1], stack + [g.edgeEnds[e]], used + {e}, seen + {g.edgeEnds[e]})
  {
    var stack', degOut', seen' := stack + [g.edgeEnds[e]], degOut[v := degOut[v] - 1], seen + {g.edgeEnds[e]};
    assert forall i :: 0 <= i < |stack| ==> stack'[i] == stack[i];
    assert stack'[|stack|] == g.edgeEnds[e];
    forall x | x in seen' ensures 0 <= x < g.nVertices && x < |degOut'| && (x in stack' || degOut'[x] == 0) {
      if x == g.edgeEnds[e] {
        assert stack'[|stack|] == x;
      } else if x in stack {
        var i :| 0 <= i < |stack| && stack[i] == x;
        assert stack'[i] == x;
      } else {
        assert x != v && degOut'[x] == degOut[x];
      }
    }
  }

  /** Stacking u over v moves the surplus from v to u. */
  lemma PushBalancing(g: FastNeighborsGraph, t: int, degOut: seq<int>, degIn: seq<int>, stack: seq<int>,
                      path: seq<int>, links: seq<int>, j: int, v: int, u: int)
    requires g.Valid() && Balancing(g, t, degOut, degIn, stack, path, links, j) && stack != []
    requires 0 <= v < g.nVertices && v == stack[|stack| - 1] && 0 <= u < g.nVertices
    ensures Balancing(g, t, degOut[v := degOut[v] - 1], degIn[u := degIn[u] - 1], stack + [u], path, links, j)
  {
    var stack' := stack + [u];
    assert stack'[j] == stack[j] && stack'[|stack'| - 1] == u;
    assert Sink(t, stack', path, j) == Sink(t, stack, path, j);
  }

  /** Popping the exhausted top x: it becomes the next vertex of the path. */
  lemma PopLinked(g: FastNeighborsGraph, s: int, stack: seq<int>, path: seq<int>, used: set<int>,
                  trail: seq<int>, links: seq<int>)
    requires g.Valid() && Linked(g, s, stack, path, used, trail, links) && stack != []
    ensures var k := |stack| - 1;
      if k > 0 then Linked(g, s, stack[..k], path + [stack[k]], used, trail[..k - 1], links + [trail[k - 1]])
      else Linked(g, s, [], path + [stack[k]], used, [], links)
  {
    var k := |stack| - 1;
    if k > 0 {
      var t := trail[k - 1];
      var trail', links', path' := trail[..k - 1], links + [t], path + [stack[k]];
      assert trail == trail' + [t];
      forall i | 0 <= i < |links'| ensures 0 <= links'[i] < g.nEdges && g.edgeEnds[links'[i]] == path'[i] {
        if i < |links| {
          assert links'[i] == links[i] && path'[i] == path[i];
        }
      }
      forall i, i' | 0 <= i < i' < |links'| ensures links'[i] != links'[i'] {
        if i' == |links| {
          assert links'[i'] == trail[k - 1] && links'[i] == links[i];
        } else {
          assert links'[i] == links[i] && links'[i'] == links[i'];
        }
      }
      forall i | 0 <= i < |trail'| ensures trail'[i] !in links' {
        assert trail'[i] == trail[i] && trail[i] != trail[k - 1];
      }
    }
  }

  /** Popping keeps the explored vertices: an exhausted vertex may leave the stack. */
  lemma PopExplored(g: FastNeighborsGraph, s: int, degOut: seq<int>, stack: seq<int>, used: set<int>, seen: set<int>)
    requires Explored(g, s, degOut, stack, used, seen) && stack != []
    requires 0 <= stack[|stack| - 1] < |degOut| && degOut[stack[|stack| - 1]] == 0
    ensures Explored(g, s, degOut, stack[..|stack| - 1], used, seen)
  {
    var k := |stack| - 1;
    forall x | x in seen ensures x in stack[..k] || degOut[x] == 0 {
      if x in stack && x != stack[k] {
        var i :| 0 <= i < |stack| && stack[i] == x;
        assert stack[..k][i] == x;
      }
    }
  }

  /** The exhausted top has no surplus of out-edges, so it is the sink. */
  lemma PopJunction(g: FastNeighborsGraph, t: int, degOut: seq<int>, degIn: seq<int>, stack: seq<int>,
                    path: seq<int>, links: seq<int>, j: int)
    requires g.Valid() && Balancing(g, t, degOut, degIn, stack, path, links, j) && stack != []
    requires 0 <= stack[|stack| - 1] < g.nVertices
    requires degOut[stack[|stack| - 1]] == 0 && degIn[stack[|stack| - 1]] >= 0
    ensures stack[|stack| - 1] == Sink(t, stack, path, j)
  {
    var x := stack[|stack| - 1];
    assert degOut[x] - degIn[x] == 1 - (if x == Sink(t, stack, path, j) then 1 else 0);
  }

  /** Popping the sink x from above y: y's edge e into x becomes the last link and y the junction. */
  lemma PopInner(g: FastNeighborsGraph, t: int, degOut: seq<int>, degIn: seq<int>, stack: seq<int>,
                 path: seq<int>, links: seq<int>, j: int, e: int)
    requires g.Valid() && Balancing(g, t, degOut, degIn, stack, path, links, j) && |stack| >= 2
    requires stack[|stack| - 1] == Sink(t, stack, path, j) && |links| == |path|
    requires 0 <= e < g.nEdges && g.tails[e] == stack[|stack| - 2]
    ensures Balancing(g, t, degOut, degIn, stack[..|stack| - 1], path + [stack[|stack| - 1]], links + [e], |stack| - 2)
  {
    var k := |stack| - 1;
    var path', links', stack' := path + [stack[k]], links + [e], stack[..k];
    forall i | 0 <= i < |links'| && i + 1 < |path'| ensures 0 <= links'[i] < g.nEdges && g.tails[links'[i]] == path'[i + 1] {
      assert links'[i] == links[i];
    }
    forall i | 0 <= i < |links'| && i + 1 == |path'| && 0 <= k - 1 < |stack'|
      ensures 0 <= links'[i] < g.nEdges && g.tails[links'[i]] == stack'[k - 1]
    {
    }
    assert stack'[|stack'| - 1] == stack'[k - 1] == Sink(t, stack', path', k - 1);
    if path == [] {
      assert path'[0] == stack[k];
    } else {
      assert path'[0] == path[0];
    }
  }

  /** Popping the bottom, which is the sink: the stack is empty and every vertex is balanced. */
  lemma PopLast(g: FastNeighborsGraph, t: int, degOut: seq<int>, degIn: seq<int>, stack: seq<int>,
                path: seq<int>, links: seq<int>, j: int)
    requires g.Valid() && Balancing(g, t, degOut, degIn, stack, path, links, j) && |stack| == 1
    requires stack[0] == Sink(t, stack, path, j) && |links| == |path|
    ensures Balancing(g, t, degOut, degIn, [], path + [stack[0]], links, j)
  {
    var path' := path + [stack[0]];
    forall i | 0 <= i < |links| && i + 1 < |path'| ensures 0 <= links[i] < g.nEdges && g.tails[links[i]] == path'[i + 1] {
      if i + 1 < |path| {
      } else {
        assert path != [] && stack[j] == stack[0];
      }
    }
  }

  /** The state of the stack walk from s towards t: every invariant above, Balancing only when balance was checked. */
  ghost predicate Walking(g: FastNeighborsGraph, s: int, t: int, checkBalance: bool, degOut: seq<int>, degIn: seq<int>,
                          stack: seq<int>, path: seq<int>, used: set<int>, trail: seq<int>, links: seq<int>,
                          seen: set<int>, j: int)
    reads g
    requires g.Valid()
  {
    var walked := Cursors(g, degOut, used) && InDegrees(g, degIn, used)
      && Linked(g, s, stack, path, used, trail, links) && Explored(g, s, degOut, stack, used, seen);
    match checkBalance
    case true => walked && Balancing(g, t, degOut, degIn, stack, path, links, j)
    case false => walked
  }

  /**
   * Popping the exhausted top: it goes on the path, the trail edge into it
   * becomes a link, and the walk's state is kept (primed: after the step).
   */
  lemma Popped(g: FastNeighborsGraph, s: int, t: int, checkBalance: bool, degOut: seq<int>, degIn: seq<int>,
               stack: seq<int>, path: seq<int>, used: set<int>, trail: seq<int>, links: seq<int>,
               seen: set<int>, j: int, stack': seq<int>, path': seq<int>, trail': seq<int>, links': seq<int>, j': int)
    requires g.Valid() && g.EndsInRange() && stack != []
    requires Walking(g, s, t, checkBalance, degOut, degIn, stack, path, used, trail, links, seen, j)
    requires degOut[stack[|stack| - 1]] == 0
    requires stack' == stack[..|stack| - 1] && path' == path + [stack[|stack| - 1]]
    requires |stack| > 1 ==> trail' == trail[..|stack| - 2] && links' == links + [trail[|stack| - 2]] && j' == |stack| - 2
    requires |stack| == 1 ==> trail' == trail && links' == links && j' == j
    ensures Walking(g, s, t, checkBalance, degOut, degIn, stack', path', used, trail', links', seen, j')
  {
    var k := |stack| - 1;
    assert Cursors(g, degOut, used) && InDegrees(g, degIn, used);
    PopLinked(g, s, stack, path, used, trail, links);
    assert Linked(g, s, stack', path', used, trail', links');
    PopExplored(g, s, degOut, stack, used, seen);
    assert Explored(g, s, degOut, stack', used, seen);
    if checkBalance {
      assert Balancing(g, t, degOut, degIn, stack, path, links, j);
      assert degIn[stack[k]] == |IntoUnused(g.edgeEnds, used, stack[k])|;
      PoppedBalancing(g, t, degOut, degIn, stack, path, trail, links, j, stack', path', links', j');
      assert Balancing(g, t, degOut, degIn, stack', path', links', j');
    }
  }

  /** The balance part of Popped, from the facts about the top that Linked and InDegrees give. */
  lemma PoppedBalancing(g: FastNeighborsGraph, t: int, degOut: seq<int>, degIn: seq<int>,
                        stack: seq<int>, path: seq<int>, trail: seq<int>, links: seq<int>,
                        j: int, stack': seq<int>, path': seq<int>, links': seq<int>, j': int)
    requires g.Valid() && stack != [] && Balancing(g, t, degOut, degIn, stack, path, links, j)
    requires 0 <= stack[|stack| - 1] < g.nVertices && degOut[stack[|stack| - 1]] == 0 && degIn[stack[|stack| - 1]] >= 0
    requires |links| == |path| && |trail| == |stack| - 1
    requires |stack| > 1 ==> 0 <= trail[|stack| - 2] < g.nEdges && g.tails[trail[|stack| - 2]] == stack[|stack| - 2]
    requires stack' == stack[..|stack| - 1] && path' == path + [stack[|stack| - 1]]
    requires |stack| > 1 ==> links' == links + [trail[|stack| - 2]] && j' == |stack| - 2
    requires |stack| == 1 ==> links' == links && j' == j
    ensures Balancing(g, t, degOut, degIn, stack', path', links', j')
  {
    var k := |stack| - 1;
    PopJunction(g, t, degOut, degIn, stack, path, links, j);
    if k > 0 {
      PopInner(g, t, degOut, degIn, stack, path, links, j, trail[k - 1]);
    } else {
      PopLast(g, t, degOut, degIn, stack, path, links, j);
    }
  }

  /**
   * Following the next edge e of the top v into u: e is used, u is
   * stacked, and the walk's state is kept (primed: after the step).
   */
  lemma Pushed(g: FastNeighborsGraph, s: int, t: int, checkBalance: bool, degOut: seq<int>, degIn: seq<int>,
               stack: seq<int>, path: seq<int>, used: set<int>, trail: seq<int>, links: seq<int>,
               seen: set<int>, j: int, v: int, e: int, u: int,
               degOut': seq<int>, degIn': seq<int>, stack': seq<int>, used': set<int>, trail': seq<int>, seen': set<int>)
    requires g.Valid() && g.EndsInRange() && stack != []
    requires Walking(g, s, t, checkBalance, degOut, degIn, stack, path, used, trail, links, seen, j)
    requires v == stack[|stack| - 1] && degOut[v] > 0
    requires e == g.adjLists[v][|g.adjLists[v]| - degOut[v]] && u == g.edgeEnds[e]
    requires degOut' == degOut[v := degOut[v] - 1] && degIn' == degIn[u := degIn[u] - 1] && stack' == stack + [u]
    requires used' == used + {e} && trail' == trail + [e] && seen' == seen + {u}
    ensures |Unused(g.nEdges, used')| < |Unused(g.nEdges, used)|
    ensures Walking(g, s, t, checkBalance, degOut', degIn', stack', path, used', trail', links, seen', j)
  {
    assert Cursors(g, degOut, used) && InDegrees(g, degIn, used);
    PushCursors(g, degOut, used, v);
    PushInDegrees(g, degIn, used, e);
    PushLinked(g, s, stack, path, used, trail, links, e);
    PushExplored(g, s, degOut, stack, used, seen, v, e);
    if checkBalance {
      PushBalancing(g, t, degOut, degIn, stack, path, links, j, v, u);
    }
    UnusedShrinks(g.nEdges, used, e);
  }

  lemma UnusedShrinks(m: int, used: set<int>, e: int)
    requires 0 <= e < m && e !in used
    ensures |Unused(m, used + {e})| < |Unused(m, used)|
  {
    assert Unused(m, used + {e}) == Unused(m, used) - {e};
  }

  /** At the end every explored vertex is exhausted, so the explored set is closed under edges. */
  lemma ExploredClosed(g: FastNeighborsGraph, s: int, degOut: seq<int>, used: set<int>, seen: set<int>)
    requires g.Valid() && g.EndsInRange() && Cursors(g, degOut, used) && Explored(g, s, degOut, [], used, seen)
    ensures forall x, k :: 0 <= x < g.nVertices && x in seen && 0 <= k < |g.Heads()[x]| ==>
      0 <= g.Heads()[x][k] < g.nVertices && g.Heads()[x][k] in seen
  {
    var h := g.Heads();
    forall x, k | 0 <= x < g.nVertices && x in seen && 0 <= k < |h[x]| ensures 0 <= h[x][k] < g.nVertices && h[x][k] in seen {
      var e := g.adjLists[x][k];
      assert g.adjLists[x][..|g.adjLists[x]|] == g.adjLists[x];
      assert e in used;
    }
  }

  /** The sequence read backwards: std::reverse. */
  function Reversed(s: seq<int>): (r: seq<int>)
    ensures |r| == |s| && forall i :: 0 <= i < |s| ==> r[i] == s[|s| - 1 - i]
  {
    seq(|s|, i requires 0 <= i < |s| => s[|s| - 1 - i])
  }

  /**
   * The printed path P is entered edge by edge: ids[t] is an edge into
   * P[t + 1], and no edge is used twice.
   */
  ghost predicate Entered(g: FastNeighborsGraph, p: seq<int>, ids: seq<int>)
    reads g
  {
    EnteredEnds(g.nEdges, g.edgeEnds, p, ids)
  }

  ghost predicate EnteredEnds(nEdges: int, ends: seq<int>, p: seq<int>, ids: seq<int>) {
    && |ids| + 1 == |p| && NoDup(ids)
    && forall t :: 0 <= t < |ids| ==> 0 <= ids[t] < nEdges && 0 <= ids[t] < |ends| && ends[ids[t]] == p[t + 1]
  }

  /** P is a walk along the edges ids: each ids[t] leaves P[t]. */
  ghost predicate Leaves(g: FastNeighborsGraph, p: seq<int>, ids: seq<int>)
    reads g
  {
    LeavesTails(g.tails, p, ids)
  }

  ghost predicate LeavesTails(tails: seq<int>, p: seq<int>, ids: seq<int>) {
    && |ids| + 1 == |p|
    && forall t :: 0 <= t < |ids| ==> 0 <= ids[t] < |tails| && tails[ids[t]] == p[t]
  }

  /**
   * find_full_euler_path_if_exists(g, isolated).  As written
   * (checkBalance false): the empty path when the connectivity check fails;
   * otherwise the vertices in the order the stack walk from the first
   * non-isolated vertex pops them, reversed.  Corrected (checkBalance
   * true): the empty path unless the degrees allow an Euler path (or
   * circuit) and every non-isolated vertex is reachable from its start;
   * otherwise the walk from that start, which ends at the path's other end
   * and leaves each vertex by the edge that enters the next.  Either way the
   * path enters its vertices by distinct edges, and when every edge leaves a
   * non-isolated vertex it has n_edges + 1 vertices, so every edge is
   * followed exactly once.
   */
  method FindFullEulerPathIfExists(g: FastNeighborsGraph, isolated: seq<bool>, checkBalance: bool)
    returns (path: seq<int>, ghost ids: seq<int>)
    requires g.Valid() && g.EndsInRange() && |isolated| == g.nVertices
    requires g.nEdges > 0 ==> SomeVisible(isolated)
    ensures !checkBalance ==> (path == [] <==> !(g.nEdges > 0 && ConnectedWithoutIsolated(g.Heads(), isolated)))
    ensures checkBalance ==> (path == [] <==>
      !(g.nEdges > 0 && exists s, t :: EulerEnds(g, isolated, s, t) && ReachesVisible(g.Heads(), isolated, s)))
    ensures path != [] ==> Entered(g, path, ids)
    ensures path != [] && !checkBalance ==> path[0] == FirstVisible(isolated)
    ensures path != [] && checkBalance ==> EulerEnds(g, isolated, path[0], path[|path| - 1]) && Leaves(g, path, ids)
    ensures path != [] && TailsVisible(g, isolated) ==> |path| == g.nEdges + 1
  {
    path := [];
    ids := [];
    if !checkBalance {
      var connected := IsConnectedWithoutIsolated(g, isolated);
      if !connected {
        return;
      }
      var degOut, degIn := Degrees(g);
      var s := SkipIsolated(g.nVertices, isolated);
      path, ids := WalkAndReverse(g, isolated, s, s, false, degOut, degIn);
      return;
    }
    path, ids := CheckedWalk(g, isolated);
  }

  /**
   * The corrected branch of the routine: no edge, no pair of ends the
   * degrees allow, or a start that misses some non-isolated vertex gives
   * the empty path; otherwise the walk from the start s, ending at t.
   */
  method CheckedWalk(g: FastNeighborsGraph, isolated: seq<bool>) returns (path: seq<int>, ghost ids: seq<int>)
    requires g.Valid() && g.EndsInRange() && |isolated| == g.nVertices
    requires g.nEdges > 0 ==> SomeVisible(isolated)
    ensures path == [] <==>
      !(g.nEdges > 0 && exists s, t :: EulerEnds(g, isolated, s, t) && ReachesVisible(g.Heads(), isolated, s))
    ensures path != [] ==> Entered(g, path, ids)
    ensures path != [] ==> EulerEnds(g, isolated, path[0], path[|path| - 1]) && Leaves(g, path, ids)
    ensures path != [] && TailsVisible(g, isolated) ==> |path| == g.nEdges + 1
  {
    path := [];
    ids := [];
    if g.nEdges == 0 {
      return;
    }
    var degOut, degIn := Degrees(g);
    DegreeCounts(g, degOut, degIn);
    var found, s, t := FindEnds(degOut, degIn);
    if !found {
      assert forall x, y :: !EulerEnds(g, isolated, x, y);
      return;
    }
    if s == -1 {
      s := SkipIsolated(g.nVertices, isolated);
      t := s;
    }
    assert EulerEnds(g, isolated, s, t);
    forall x, y | EulerEnds(g, isolated, x, y) ensures x == s {
      EndsUnique(degOut, degIn, s, t, x, y);
    }
    var connected := VisibleReached(g, isolated, s);
    if !connected {
      assert forall x, y :: EulerEnds(g, isolated, x, y) ==> !ReachesVisible(g.Heads(), isolated, x);
      return;
    }
    path, ids := WalkAndReverse(g, isolated, s, t, true, degOut, degIn);
    assert EulerEnds(g, isolated, s, t) && ReachesVisible(g.Heads(), isolated, s);
  }

  /** With the counters equal to the degrees they are the Counts of tails and heads. */
  lemma DegreeCounts(g: FastNeighborsGraph, degOut: seq<int>, degIn: seq<int>)
    requires g.Valid() && |degOut| == g.nVertices && |degIn| == g.nVertices
    requires forall u :: 0 <= u < g.nVertices ==> degOut[u] == |IndicesWith(g.tails, u)|
    requires forall u :: 0 <= u < g.nVertices ==> degIn[u] == |IndicesWith(g.edgeEnds, u)|
    ensures degOut == Counts(g.nVertices, g.tails) && degIn == Counts(g.nVertices, g.edgeEnds)
  {
  }

  /**
   * The degree check of the corrected routine: s has one more edge out than
   * in and t one more in than out, or s == t == -1 when every vertex is
   * balanced; false when no pair of ends fits the counters.
   */
  method FindEnds(degOut: seq<int>, degIn: seq<int>) returns (found: bool, s: int, t: int)
    requires |degOut| == |degIn|
    ensures found && s == -1 ==> t == -1 && forall u :: 0 <= u < |degOut| ==> degOut[u] == degIn[u]
    ensures found && s != -1 ==> s != t && Differences(degOut, degIn, s, t)
    ensures !found ==> forall x, y :: !Differences(degOut, degIn, x, y)
  {
    s, t := -1, -1;
    var v := 0;
    while v < |degOut|
      invariant 0 <= v <= |degOut| && -1 <= s < v && -1 <= t < v && (s == -1 || s != t)
      invariant forall u :: 0 <= u < v ==> degOut[u] - degIn[u] == (if u == s then 1 else 0) - (if u == t then 1 else 0)
    {
      var d := degOut[v] - degIn[v];
      if d == 1 && s == -1 {
        s := v;
      } else if d == -1 && t == -1 {
        t := v;
      } else if d != 0 {
        forall x, y ensures !Differences(degOut, degIn, x, y) {
          DifferenceAt(degOut, degIn, x, y, v);
          if d == 1 {
            DifferenceAt(degOut, degIn, x, y, s);
          } else if d == -1 {
            DifferenceAt(degOut, degIn, x, y, t);
          }
        }
        return false, s, t;
      }
      v := v + 1;
    }
    if (s == -1) != (t == -1) {
      forall x, y ensures !Differences(degOut, degIn, x, y) {
        DifferenceAt(degOut, degIn, x, y, if s == -1 then t else s);
        if 0 <= x < |degOut| && 0 <= y < |degOut| {
          DifferenceAt(degOut, degIn, x, y, x);
          DifferenceAt(degOut, degIn, x, y, y);
        }
      }
      return false, s, t;
    }
    found := true;
  }

  /** Before the walk: only s is stacked, nothing is followed, and the counters are the degrees. */
  lemma StartWalk(g: FastNeighborsGraph, s: int, t: int, checkBalance: bool, degOut: seq<int>, degIn: seq<int>)
    requires g.Valid() && g.EndsInRange() && 0 <= s < g.nVertices
    requires |degOut| == g.nVertices && |degIn| == g.nVertices
    requires forall u :: 0 <= u < g.nVertices ==> degOut[u] == |g.adjLists[u]|
    requires forall u :: 0 <= u < g.nVertices ==> degIn[u] == |IndicesWith(g.edgeEnds, u)|
    requires checkBalance ==> Differences(degOut, degIn, s, t)
    ensures Walking(g, s, t, checkBalance, degOut, degIn, [s], [], {}, [], [], {s}, 0)
  {
    forall u | 0 <= u < g.nVertices ensures degIn[u] == |IntoUnused(g.edgeEnds, {}, u)| {
      assert IntoUnused(g.edgeEnds, {}, u) == IndicesWith(g.edgeEnds, u);
    }
    forall e | 0 <= e < g.nEdges ensures e !in g.adjLists[g.tails[e]][..|g.adjLists[g.tails[e]]| - degOut[g.tails[e]]] {
    }
  }

  /** After the walk: the popped vertices read backwards form the path the method promises. */
  lemma FinishWalk(g: FastNeighborsGraph, isolated: seq<bool>, s: int, t: int, checkBalance: bool, degOut: seq<int>,
                   degIn: seq<int>, path: seq<int>, used: set<int>, links: seq<int>, seen: set<int>, j: int)
    requires g.Valid() && g.EndsInRange() && |isolated| == g.nVertices
    requires 0 <= s < g.nVertices && ReachesVisible(g.Heads(), isolated, s)
    requires Walking(g, s, t, checkBalance, degOut, degIn, [], path, used, [], links, seen, j)
    ensures var p, ids := Reversed(path), Reversed(links);
      && p != [] && p[0] == s && Entered(g, p, ids)
      && (TailsVisible(g, isolated) ==> |p| == g.nEdges + 1)
      && (checkBalance ==> p[|p| - 1] == t && Leaves(g, p, ids))
  {
    assert Cursors(g, degOut, used) && Linked(g, s, [], path, used, [], links) && Explored(g, s, degOut, [], used, seen);
    EulerEnd(g, isolated, s, degOut, used, seen, links);
    ReversedEntered(g, s, path, used, links);
    if checkBalance {
      assert Balancing(g, t, degOut, degIn, [], path, links, j);
      ReversedLeaves(g, t, degOut, degIn, path, links, j);
    }
  }

  /** The popped vertices read backwards start at s and are entered by the links read backwards. */
  lemma ReversedEntered(g: FastNeighborsGraph, s: int, path: seq<int>, used: set<int>, links: seq<int>)
    requires g.Valid() && Linked(g, s, [], path, used, [], links)
    ensures var p, ids := Reversed(path), Reversed(links); p != [] && p[0] == s && Entered(g, p, ids)
  {
    var p, ids := Reversed(path), Reversed(links);
    ReversedNoDup(links);
    forall k | 0 <= k < |ids| ensures 0 <= ids[k] < g.nEdges && 0 <= ids[k] < |g.edgeEnds| && g.edgeEnds[ids[k]] == p[k + 1] {
      assert ids[k] == links[|links| - 1 - k] && p[k + 1] == path[|path| - 1 - (k + 1)];
    }
  }

  /** With balance checked, the links read backwards leave the popped vertices read backwards, which end at t. */
  lemma ReversedLeaves(g: FastNeighborsGraph, t: int, degOut: seq<int>, degIn: seq<int>, path: seq<int>, links: seq<int>, j: int)
    requires g.Valid() && Balancing(g, t, degOut, degIn, [], path, links, j) && |links| + 1 == |path|
    ensures var p := Reversed(path); p[|p| - 1] == t && Leaves(g, p, Reversed(links))
  {
    var p, ids := Reversed(path), Reversed(links);
    assert p[|p| - 1] == path[0];
    forall k | 0 <= k < |ids| ensures 0 <= ids[k] < |g.tails| && g.tails[ids[k]] == p[k] {
      assert ids[k] == links[|links| - 1 - k] && p[k] == path[|path| - 1 - k];
    }
  }

  /** What the loop body of WalkAndReverse indexes by: the top and its cursor are in range. */
  lemma WalkingTop(g: FastNeighborsGraph, s: int, t: int, checkBalance: bool, degOut: seq<int>, degIn: seq<int>,
                   stack: seq<int>, path: seq<int>, used: set<int>, trail: seq<int>, links: seq<int>,
                   seen: set<int>, j: int)
    requires g.Valid() && g.EndsInRange() && stack != []
    requires Walking(g, s, t, checkBalance, degOut, degIn, stack, path, used, trail, links, seen, j)
    ensures var v := stack[|stack| - 1];
      && 0 <= v < g.nVertices && |degOut| == g.nVertices && |degIn| == g.nVertices
      && 0 <= degOut[v] <= |g.adjLists[v]| && |trail| == |stack| - 1
      && (degOut[v] > 0 ==>
            var e := g.adjLists[v][|g.adjLists[v]| - degOut[v]];
            0 <= e < g.nEdges && 0 <= g.edgeEnds[e] < g.nVertices)
  {
    var v := stack[|stack| - 1];
    assert Cursors(g, degOut, used) && InDegrees(g, degIn, used) && Linked(g, s, stack, path, used, trail, links);
    assert 0 <= v < g.nVertices;
    if degOut[v] > 0 {
      var e := g.adjLists[v][|g.adjLists[v]| - degOut[v]];
      assert 0 <= e < |g.tails|;
    }
  }

  /** One pop of WalkAndReverse: the exhausted top v goes on the path. */
  method PopStep(g: FastNeighborsGraph, s: int, ghost t: int, checkBalance: bool, dOut: seq<int>, dIn: seq<int>,
                 stack: seq<int>, path: seq<int>, ghost used: set<int>, ghost trail: seq<int>, ghost links: seq<int>,
                 ghost seen: set<int>, ghost j: int)
    returns (stack': seq<int>, path': seq<int>, ghost trail': seq<int>, ghost links': seq<int>, ghost j': int)
    requires g.Valid() && g.EndsInRange() && stack != []
    requires Walking(g, s, t, checkBalance, dOut, dIn, stack, path, used, trail, links, seen, j)
    requires 0 <= stack[|stack| - 1] < |dOut| && dOut[stack[|stack| - 1]] == 0
    ensures stack' == stack[..|stack| - 1] && path' == path + [stack[|stack| - 1]]
    ensures Walking(g, s, t, checkBalance, dOut, dIn, stack', path', used, trail', links', seen, j')
  {
    WalkingTop(g, s, t, checkBalance, dOut, dIn, stack, path, used, trail, links, seen, j);
    var k := |stack| - 1;
    path' := path + [stack[k]];
    trail', links', j' := trail, links, j;
    if k > 0 {
      links' := links + [trail[k - 1]];
      trail' := trail[..k - 1];
      j' := k - 1;
    }
    stack' := stack[..k];
    Popped(g, s, t, checkBalance, dOut, dIn, stack, path, used, trail, links, seen, j, stack', path', trail', links', j');
  }

  /** One push of WalkAndReverse: the next edge e of the top v is followed and its head u stacked. */
  method PushStep(g: FastNeighborsGraph, s: int, ghost t: int, checkBalance: bool, dOut: seq<int>, dIn: seq<int>,
                  stack: seq<int>, path: seq<int>, ghost used: set<int>, ghost trail: seq<int>, ghost links: seq<int>,
                  ghost seen: set<int>, ghost j: int)
    returns (stack': seq<int>, dOut': seq<int>, dIn': seq<int>, ghost used': set<int>, ghost trail': seq<int>,
             ghost seen': set<int>)
    requires g.Valid() && g.EndsInRange() && stack != []
    requires Walking(g, s, t, checkBalance, dOut, dIn, stack, path, used, trail, links, seen, j)
    requires 0 <= stack[|stack| - 1] < |dOut| && dOut[stack[|stack| - 1]] != 0
    ensures |Unused(g.nEdges, used')| < |Unused(g.nEdges, used)|
    ensures Walking(g, s, t, checkBalance, dOut', dIn', stack', path, used', trail', links, seen', j)
  {
    WalkingTop(g, s, t, checkBalance, dOut, dIn, stack, path, used, trail, links, seen, j);
    var v := stack[|stack| - 1];
    assert g.Degree(v) == |g.adjLists[v]|;
    var e := g.adjLists[v][g.Degree(v) - dOut[v]];
    var u := g.edgeEnds[e];
    stack' := stack + [u];
    dIn' := dIn[u := dIn[u] - 1];
    dOut' := dOut[v := dOut[v] - 1];
    used' := used + {e};
    trail' := trail + [e];
    seen' := seen + {u};
    Pushed(g, s, t, checkBalance, dOut, dIn, stack, path, used, trail, links, seen, j, v, e, u,
           dOut', dIn', stack', used', trail', seen');
  }

  /**
   * The part of the routine after the checks: the stack walk from s, while
   * the stack is not empty, pops its top if it has no unfollowed edge left,
   * else follows the next one and stacks its head; the popped vertices,
   * reversed, are the path.  t is the end the degree check expects, if
   * balance was checked.
   */
  method WalkAndReverse(g: FastNeighborsGraph, ghost isolated: seq<bool>, s: int, ghost t: int, checkBalance: bool,
                        degOut: seq<int>, degIn: seq<int>)
    returns (path: seq<int>, ghost ids: seq<int>)
    requires g.Valid() && g.EndsInRange() && |isolated| == g.nVertices
    requires 0 <= s < g.nVertices && ReachesVisible(g.Heads(), isolated, s)
    requires |degOut| == g.nVertices && |degIn| == g.nVertices
    requires forall u :: 0 <= u < g.nVertices ==> degOut[u] == |g.adjLists[u]|
    requires forall u :: 0 <= u < g.nVertices ==> degIn[u] == |IndicesWith(g.edgeEnds, u)|
    requires checkBalance ==> Differences(degOut, degIn, s, t)
    ensures path != [] && path[0] == s && Entered(g, path, ids)
    ensures TailsVisible(g, isolated) ==> |path| == g.nEdges + 1
    ensures checkBalance ==> path[|path| - 1] == t && Leaves(g, path, ids)
  {
    StartWalk(g, s, t, checkBalance, degOut, degIn);
    var stack := [s];
    var dOut, dIn := degOut, degIn;
    path := [];
    ghost var used, seen, j := {}, {s}, 0;
    ghost var links := [];
    ghost var trail: seq<int> := [];
    while stack != []
      invariant Walking(g, s, t, checkBalance, dOut, dIn, stack, path, used, trail, links, seen, j)
      decreases |Unused(g.nEdges, used)|, |stack|
    {
      var v := stack[|stack| - 1];
      WalkingTop(g, s, t, checkBalance, dOut, dIn, stack, path, used, trail, links, seen, j);
      if dOut[v] == 0 {
        stack, path, trail, links, j := PopStep(g, s, t, checkBalance, dOut, dIn, stack, path, used, trail, links, seen, j);
      } else {
        stack, dOut, dIn, used, trail, seen := PushStep(g, s, t, checkBalance, dOut, dIn, stack, path, used, trail, links, seen, j);
      }
    }
    FinishWalk(g, isolated, s, t, checkBalance, dOut, dIn, path, used, links, seen, j);
    path := Reversed(path);
    ids := Reversed(links);
  }

  /**
   * When the walk stops, the explored vertices are closed under edges; if
   * every edge leaves a non-isolated vertex, reachability from s puts every
   * tail among them, so every edge was followed.
   */
  lemma EulerEnd(g: FastNeighborsGraph, isolated: seq<bool>, s: int, degOut: seq<int>, used: set<int>,
                 seen: set<int>, links: seq<int>)
    requires g.Valid() && g.EndsInRange() && |isolated| == g.nVertices
    requires 0 <= s < g.nVertices && ReachesVisible(g.Heads(), isolated, s)
    requires Cursors(g, degOut, used) && Explored(g, s, degOut, [], used, seen)
    requires NoDup(links) && forall e :: e in used <==> e in links
    ensures TailsVisible(g, isolated) ==> |links| == g.nEdges
  {
    if TailsVisible(g, isolated) {
      AllFollowed(g, isolated, s, degOut, used, seen);
      DistinctIds(links, g.nEdges);
    }
  }

  /** Every edge leaves a vertex reachable from s, hence an explored one, so it was followed. */
  lemma AllFollowed(g: FastNeighborsGraph, isolated: seq<bool>, s: int, degOut: seq<int>, used: set<int>, seen: set<int>)
    requires g.Valid() && g.EndsInRange() && |isolated| == g.nVertices && TailsVisible(g, isolated)
    requires 0 <= s < g.nVertices && ReachesVisible(g.Heads(), isolated, s)
    requires Cursors(g, degOut, used) && Explored(g, s, degOut, [], used, seen)
    ensures forall e :: 0 <= e < g.nEdges ==> e in used
  {
    ExploredClosed(g, s, degOut, used, seen);
    var h := g.Heads();
    var n := g.nVertices;
    var inS := seq(n, x requires 0 <= x < n => x in seen);
    forall e | 0 <= e < g.nEdges ensures e in used {
      var x := g.tails[e];
      ClosedReaches(h, inS, s, x);
      assert g.adjLists[x][..|g.adjLists[x]|] == g.adjLists[x];
    }
  }

  /** Distinct ids that are exactly 0 .. m - 1 number m. */
  lemma DistinctIds(links: seq<int>, m: int)
    requires NoDup(links) && m >= 0 && forall e :: e in links <==> 0 <= e < m
    ensures |links| == m
  {
    Cycles.DistinctCard(links);
    Cycles.RangeCard(m);
    assert (set x | x in links) == Range(m);
  }

  lemma ReversedNoDup(l: seq<int>)
    requires NoDup(l)
    ensures NoDup(Reversed(l))
  {
    var r := Reversed(l);
    forall i, j | 0 <= i < j < |r| ensures r[i] != r[j] {
      assert r[i] == l[|l| - 1 - i] && r[j] == l[|l| - 1 - j];
    }
  }

  /** The hops of one route [prev, next_1, ..., next_len]: (prev, next_1), (next_1, next_2), ... */
  function Hops(r: seq<int>): (h: seq<(int, int)>)
    ensures |h| == (if |r| == 0 then 0 else |r| - 1)
    ensures forall k :: 0 <= k < |h| ==> h[k] == (r[k], r[k + 1])
  {
    if |r| == 0 then [] else seq(|r| - 1, k requires 0 <= k < |r| - 1 => (r[k], r[k + 1]))
  }

  /** The hops of all routes, route by route: the add_edge calls of main, 1-based. */
  function RouteHops(routes: seq<seq<int>>): seq<(int, int)>
    decreases |routes|
  {
    if routes == [] then [] else RouteHops(routes[..|routes| - 1]) + Hops(routes[|routes| - 1])
  }

  /** Every route has its first square and all squares lie in 1 .. n. */
  ghost predicate RoutesIn(n: int, routes: seq<seq<int>>) {
    forall i :: 0 <= i < |routes| ==> |routes[i]| >= 1 && forall k :: 0 <= k < |routes[i]| ==> 1 <= routes[i][k] <= n
  }

  /** Square x appears on some route. */
  ghost predicate Mentioned(routes: seq<seq<int>>, x: int) {
    exists i :: 0 <= i < |routes| && x in routes[i]
  }

  /** main's isolated vector: the squares of 1 .. n on no route, 0-based. */
  ghost function Unmentioned(n: nat, routes: seq<seq<int>>): seq<bool> {
    seq(n, v => !Mentioned(routes, v + 1))
  }

  /** For each square 1 .. n, the number of hops leaving it (out) or entering it. */
  ghost function HopCounts(n: nat, hops: seq<(int, int)>, out: bool): seq<int> {
    seq(n, u => |HopsWith(hops, u + 1, out)|)
  }

  /**
   * The squares s and t the corrected program rides between: the hops allow
   * an Euler path from s to t, and a circuit starts at the first square on
   * a route.
   */
  ghost predicate EulerSquares(n: nat, hops: seq<(int, int)>, isolated: seq<bool>, s: int, t: int) {
    && Differences(HopCounts(n, hops, true), HopCounts(n, hops, false), s - 1, t - 1)
    && (s == t ==> SomeVisible(isolated) && s == FirstVisible(isolated) + 1)
  }

  /** The indices of the hops leaving u (out) or entering u (not out). */
  ghost function HopsWith(hops: seq<(int, int)>, u: int, out: bool): set<int> {
    set e | 0 <= e < |hops| && (if out then hops[e].0 else hops[e].1) == u
  }

  /**
   * The printed squares enter every hop once: ids lists distinct hops, the
   * t-th one ends at squares[t + 1].
   */
  ghost predicate EntersEveryHop(hops: seq<(int, int)>, squares: seq<int>, ids: seq<int>) {
    && |ids| + 1 == |squares| && |ids| == |hops| && NoDup(ids)
    && forall t :: 0 <= t < |ids| ==> 0 <= ids[t] < |hops| && hops[ids[t]].1 == squares[t + 1]
  }

  /** The printed squares ride every hop once, in order: the t-th hop taken goes from squares[t] to squares[t + 1]. */
  ghost predicate RidesEveryHop(hops: seq<(int, int)>, squares: seq<int>, ids: seq<int>) {
    && EntersEveryHop(hops, squares, ids)
    && forall t :: 0 <= t < |ids| ==> hops[ids[t]] == (squares[t], squares[t + 1])
  }

  lemma {:induction false} RouteHopsIn(n: int, routes: seq<seq<int>>)
    requires RoutesIn(n, routes)
    ensures EdgesIn(n, RouteHops(routes))
    decreases |routes|
  {
    if routes != [] {
      RouteHopsIn(n, routes[..|routes| - 1]);
      var r := routes[|routes| - 1];
      assert forall k :: 0 <= k < |r| ==> 1 <= r[k] <= n;
    }
  }

  /** Taking one more route mentions its squares too. */
  lemma MentionedSnoc(routes: seq<seq<int>>, i: int, x: int)
    requires 0 <= i < |routes|
    ensures Mentioned(routes[..i + 1], x) <==> Mentioned(routes[..i], x) || x in routes[i]
  {
    if Mentioned(routes[..i + 1], x) && x !in routes[i] {
      var k :| 0 <= k < i + 1 && x in routes[..i + 1][k];
      assert routes[..i][k] == routes[..i + 1][k];
    }
    if Mentioned(routes[..i], x) {
      var k :| 0 <= k < i && x in routes[..i][k];
      assert routes[..i + 1][k] == routes[..i][k];
    }
    if x in routes[i] {
      assert routes[..i + 1][i] == routes[i];
    }
  }

  /** The store matches the hops read so far, edge by edge. */
  ghost predicate Holds(g: FastNeighborsGraph, hops: seq<(int, int)>)
    reads g
    requires g.Valid()
  {
    g.nEdges == |hops| && Matches(g.nVertices, g.tails, g.edgeEnds, g.Heads(), hops)
  }

  /** Tails, heads and adjacency lists of the store built by reading the hops. */
  ghost predicate Matches(n: nat, tails: seq<int>, ends: seq<int>, heads: AdjLists, hops: seq<(int, int)>) {
    && EdgesIn(n, hops) && |tails| == |hops| && |ends| == |hops|
    && (forall e :: 0 <= e < |hops| ==> tails[e] == hops[e].0 - 1 && ends[e] == hops[e].1 - 1)
    && heads == InputGraph(n, hops, true, false)
  }

  /** Both ends of every hop read so far are marked non-isolated. */
  ghost predicate Marks(isolated: seq<bool>, hops: seq<(int, int)>) {
    forall e :: 0 <= e < |hops| ==>
      (0 <= hops[e].0 - 1 < |isolated| && 0 <= hops[e].1 - 1 < |isolated| && !isolated[hops[e].0 - 1] && !isolated[hops[e].1 - 1])
  }


  /** After j steps of a route: the hops of its first j + 1 squares are added and those squares are marked. */
  /** marks is isolated with the squares of read marked non-isolated. */
  ghost predicate MarkedOff(marks: seq<bool>, isolated: seq<bool>, read: seq<int>) {
    |marks| == |isolated| && forall v :: 0 <= v < |isolated| ==> (marks[v] <==> isolated[v] && v + 1 !in read)
  }

  /**
   * The state of the loop over one route after square j: prev is that
   * square, the hops up to it are added and the squares up to it marked.
   */
  ghost predicate ReadSoFar(g: FastNeighborsGraph, n: nat, r: seq<int>, isolated: seq<bool>, pre: seq<(int, int)>,
                            j: int, prev: int, hops: seq<(int, int)>, marks: seq<bool>)
    reads g
  {
    && 0 <= j <= |r| - 1 && prev == r[j] && hops == pre + Hops(r[..j + 1])
    && g.Valid() && g.EndsInRange() && g.nVertices == n && Holds(g, hops) && Marks(marks, hops)
    && |marks| == n && |isolated| == n
    && MarkedOff(marks, isolated, r[..j + 1])
  }

  /**
   * One route of main's input loop: its first square is marked, then each
   * next square is marked and the hop from the previous one is added.
   */
  method ReadRoute(g: FastNeighborsGraph, r: seq<int>, isolated: seq<bool>, ghost pre: seq<(int, int)>)
    returns (isolated': seq<bool>)
    requires g.Valid() && g.EndsInRange() && g.directed && |r| >= 1 && |isolated| == g.nVertices
    requires forall k :: 0 <= k < |r| ==> 1 <= r[k] <= g.nVertices
    requires Holds(g, pre) && Marks(isolated, pre)
    modifies g
    ensures g.Valid() && g.EndsInRange() && g.nVertices == old(g.nVertices)
    ensures Holds(g, pre + Hops(r)) && Marks(isolated', pre + Hops(r))
    ensures MarkedOff(isolated', isolated, r)
  {
    var n := g.nVertices;
    var prev := r[0];
    isolated' := isolated[prev - 1 := false];
    ghost var hops := pre;
    StartRead(g, r, isolated, pre, prev, isolated');
    var j := 0;
    while j < |r| - 1
      invariant ReadSoFar(g, n, r, isolated, pre, j, prev, hops, isolated')
      decreases |r| - j
    {
      isolated', hops := ReadStep(g, n, r, isolated, pre, j, prev, isolated', hops);
      prev := r[j + 1];
      j := j + 1;
    }
    EndRead(g, n, r, isolated, pre, j, prev, hops, isolated');
  }

  /** Before the loop: the first square is marked and no hop of the route is added yet. */
  lemma StartRead(g: FastNeighborsGraph, r: seq<int>, isolated: seq<bool>, pre: seq<(int, int)>, prev: int, isolated': seq<bool>)
    requires g.Valid() && g.EndsInRange() && |r| >= 1 && |isolated| == g.nVertices
    requires forall k :: 0 <= k < |r| ==> 1 <= r[k] <= g.nVertices
    requires Holds(g, pre) && Marks(isolated, pre) && prev == r[0] && isolated' == isolated[prev - 1 := false]
    ensures ReadSoFar(g, g.nVertices, r, isolated, pre, 0, prev, pre, isolated')
  {
    ReadFirst(r, isolated, pre, prev, isolated');
  }

  /** The first square of the route is marked. */
  lemma ReadFirst(r: seq<int>, isolated: seq<bool>, pre: seq<(int, int)>, prev: int, isolated': seq<bool>)
    requires |r| >= 1 && prev == r[0] && 1 <= prev <= |isolated| && Marks(isolated, pre)
    requires isolated' == isolated[prev - 1 := false]
    ensures pre == pre + Hops(r[..0 + 1]) && Marks(isolated', pre)
    ensures MarkedOff(isolated', isolated, r[..0 + 1])
  {
    MarksCleared(isolated, pre, prev - 1);
    assert r[..0 + 1] == [prev];
    assert Hops(r[..0 + 1]) == [];
    assert pre == pre + Hops(r[..0 + 1]);
  }

  /** After the loop: every hop of the route is added and every square of it is marked. */
  lemma EndRead(g: FastNeighborsGraph, n: nat, r: seq<int>, isolated: seq<bool>, pre: seq<(int, int)>,
                j: int, prev: int, hops: seq<(int, int)>, marks: seq<bool>)
    requires ReadSoFar(g, n, r, isolated, pre, j, prev, hops, marks) && j >= |r| - 1
    ensures g.Valid() && g.EndsInRange() && g.nVertices == n
    ensures Holds(g, pre + Hops(r)) && Marks(marks, pre + Hops(r))
    ensures |marks| == |isolated| && forall v :: 0 <= v < |isolated| ==> (marks[v] <==> isolated[v] && v + 1 !in r)
  {
    assert r[..j + 1] == r;
  }

  /** One pass of the loop over a route: the hop from prev to the next square is added and that square marked. */
  method ReadStep(g: FastNeighborsGraph, n: nat, r: seq<int>, isolated: seq<bool>, ghost pre: seq<(int, int)>,
                  j: int, prev: int, marks: seq<bool>, ghost hops: seq<(int, int)>)
    returns (marks': seq<bool>, ghost hops': seq<(int, int)>)
    requires (forall k :: 0 <= k < |r| ==> 1 <= r[k] <= n) && |isolated| == n && g.directed
    requires j < |r| - 1 && ReadSoFar(g, n, r, isolated, pre, j, prev, hops, marks)
    modifies g
    ensures ReadSoFar(g, n, r, isolated, pre, j + 1, r[j + 1], hops', marks')
  {
    marks' := AddHop(g, prev, r[j + 1], marks, hops);
    hops' := hops + [(prev, r[j + 1])];
    ReadHop(r, isolated, pre, j, marks, hops, marks', hops');
  }

  /** One hop of a route: add_edge(prev - 1, next - 1) and mark next. */
  method AddHop(g: FastNeighborsGraph, prev: int, next: int, isolated: seq<bool>, ghost hops: seq<(int, int)>)
    returns (isolated': seq<bool>)
    requires g.Valid() && g.EndsInRange() && g.directed && |isolated| == g.nVertices
    requires 1 <= prev <= g.nVertices && 1 <= next <= g.nVertices && Holds(g, hops)
    modifies g
    ensures g.Valid() && g.EndsInRange() && g.nVertices == old(g.nVertices)
    ensures Holds(g, hops + [(prev, next)]) && isolated' == isolated[next - 1 := false]
  {
    ghost var n, tails0, ends0, heads0 := g.nVertices, g.tails, g.edgeEnds, g.Heads();
    g.AddEdge(prev - 1, next - 1);
    isolated' := isolated[next - 1 := false];
    HopAdded(g, n, tails0, ends0, heads0, hops, prev, next);
  }

  /** The store after add_edge(prev - 1, next - 1) holds the hops read and the new one. */
  lemma HopAdded(g: FastNeighborsGraph, n: nat, tails: seq<int>, ends: seq<int>, heads: AdjLists, hops: seq<(int, int)>,
                 prev: int, next: int)
    requires Matches(n, tails, ends, heads, hops) && 1 <= prev <= n && 1 <= next <= n
    requires g.Valid() && g.directed && g.nVertices == n && g.nEdges == |hops| + 1
    requires g.tails == tails + [prev - 1] && g.edgeEnds == ends + [next - 1]
    requires g.Heads() == EdgeAdded(heads, prev - 1, next - 1, g.directed, false)
    ensures Holds(g, hops + [(prev, next)])
  {
    MatchesSnoc(n, tails, ends, heads, hops, prev, next);
  }

  /** Reading the next square of the route: it is marked and the hop into it is recorded. */
  lemma ReadHop(r: seq<int>, isolated: seq<bool>, pre: seq<(int, int)>, j: int,
                isolatedJ: seq<bool>, hops: seq<(int, int)>, isolatedJ': seq<bool>, hops': seq<(int, int)>)
    requires 0 <= j < |r| - 1 && (forall k :: 0 <= k < |r| ==> 1 <= r[k] <= |isolated|) && |isolatedJ| == |isolated|
    requires hops == pre + Hops(r[..j + 1]) && Marks(isolatedJ, hops)
    requires MarkedOff(isolatedJ, isolated, r[..j + 1])
    requires isolatedJ' == isolatedJ[r[j + 1] - 1 := false] && hops' == hops + [(r[j], r[j + 1])]
    ensures hops' == pre + Hops(r[..j + 1 + 1]) && Marks(isolatedJ', hops')
    ensures MarkedOff(isolatedJ', isolated, r[..j + 1 + 1])
  {
    var read := r[..j + 1];
    assert 1 <= r[j] <= |isolated| && 1 <= r[j + 1] <= |isolated|;
    assert read[j] == r[j];
    ReadUnmarked(isolated, read, isolatedJ, r[j]);
    MarksCleared(isolatedJ, hops, r[j + 1] - 1);
    MarksSnoc(isolatedJ', hops, r[j], r[j + 1]);
    HopsRead(r, pre, j, hops, hops');
    MarkedRead(isolated, r, j, isolatedJ, isolatedJ');
  }

  /** The hops after reading square j + 1 of the route. */
  lemma HopsRead(r: seq<int>, pre: seq<(int, int)>, j: int, hops: seq<(int, int)>, hops': seq<(int, int)>)
    requires 0 <= j < |r| - 1 && hops == pre + Hops(r[..j + 1]) && hops' == hops + [(r[j], r[j + 1])]
    ensures hops' == pre + Hops(r[..j + 1 + 1])
  {
    HopsSnoc(r, j);
  }

  /** A square already read is not marked isolated. */
  lemma ReadUnmarked(isolated: seq<bool>, read: seq<int>, marks: seq<bool>, x: int)
    requires |marks| == |isolated| && 0 <= x - 1 < |isolated| && x in read
    requires MarkedOff(marks, isolated, read)
    ensures !marks[x - 1]
  {
  }

  /** The marks after reading square j + 1 of the route: a square is still isolated when it was and is not that one. */
  lemma MarkedRead(isolated: seq<bool>, r: seq<int>, j: int, marks: seq<bool>, marks': seq<bool>)
    requires 0 <= j < |r| - 1 && |marks| == |isolated| && 0 <= r[j + 1] - 1 < |isolated|
    requires marks' == marks[r[j + 1] - 1 := false]
    requires MarkedOff(marks, isolated, r[..j + 1])
    ensures MarkedOff(marks', isolated, r[..j + 1 + 1])
  {
    var read, x := r[..j + 1], r[j + 1];
    assert r[..j + 1 + 1] == read + [x];
    forall v | 0 <= v < |isolated| ensures marks'[v] <==> isolated[v] && v + 1 !in read + [x] {
      assert v + 1 in read + [x] <==> v + 1 in read || v + 1 == x;
    }
  }

  /** Marking one more square non-isolated keeps the marks of the hops read. */
  lemma MarksCleared(isolated: seq<bool>, hops: seq<(int, int)>, x: int)
    requires Marks(isolated, hops) && 0 <= x < |isolated|
    ensures Marks(isolated[x := false], hops)
  {
  }

  /** A hop whose two ends are marked can join the marked hops. */
  lemma MarksSnoc(isolated: seq<bool>, hops: seq<(int, int)>, a: int, b: int)
    requires Marks(isolated, hops) && 0 <= a - 1 < |isolated| && 0 <= b - 1 < |isolated|
    requires !isolated[a - 1] && !isolated[b - 1]
    ensures Marks(isolated, hops + [(a, b)])
  {
    var hops' := hops + [(a, b)];
    forall e | 0 <= e < |hops| ensures hops'[e] == hops[e] {
    }
  }

  /** One more square of the route adds the hop from the previous one. */
  lemma HopsSnoc(r: seq<int>, j: int)
    requires 0 <= j < |r| - 1
    ensures Hops(r[..j + 1 + 1]) == Hops(r[..j + 1]) + [(r[j], r[j + 1])]
  {
    var a, b := Hops(r[..j + 1 + 1]), Hops(r[..j + 1]) + [(r[j], r[j + 1])];
    forall k | 0 <= k < |a| ensures a[k] == b[k] {
    }
  }

  /** The store after add_edge(prev - 1, next - 1) matches the hops with (prev, next) appended. */
  lemma MatchesSnoc(n: nat, tails: seq<int>, ends: seq<int>, heads: AdjLists, hops: seq<(int, int)>, prev: int, next: int)
    requires Matches(n, tails, ends, heads, hops) && 1 <= prev <= n && 1 <= next <= n
    ensures Matches(n, tails + [prev - 1], ends + [next - 1], EdgeAdded(heads, prev - 1, next - 1, true, false),
                    hops + [(prev, next)])
  {
    var hops', tails', ends' := hops + [(prev, next)], tails + [prev - 1], ends + [next - 1];
    forall e | 0 <= e < |hops'| ensures tails'[e] == hops'[e].0 - 1 && ends'[e] == hops'[e].1 - 1 {
      if e < |hops| {
        assert hops'[e] == hops[e] && tails'[e] == tails[e] && ends'[e] == ends[e];
      }
    }
    InputGraphSnoc(n, hops, prev, next);
  }

  /** Reading one more pair adds one more directed edge to the input graph. */
  lemma InputGraphSnoc(n: nat, hops: seq<(int, int)>, prev: int, next: int)
    requires EdgesIn(n, hops) && 1 <= prev <= n && 1 <= next <= n
    ensures EdgesIn(n, hops + [(prev, next)])
    ensures InputGraph(n, hops + [(prev, next)], true, false) == EdgeAdded(InputGraph(n, hops, true, false), prev - 1, next - 1, true, false)
  {
    EdgesInSnoc(n, hops, prev, next);
    ShiftedSnoc(hops, prev, next);
    EdgesAddedSnoc(seq(n, _ => []), Shifted(hops), (prev - 1, next - 1), true, false);
  }

  lemma EdgesInSnoc(n: nat, hops: seq<(int, int)>, prev: int, next: int)
    requires EdgesIn(n, hops) && 1 <= prev <= n && 1 <= next <= n
    ensures EdgesIn(n, hops + [(prev, next)])
  {
    var hops' := hops + [(prev, next)];
    forall i | 0 <= i < |hops'| ensures 1 <= hops'[i].0 <= n && 1 <= hops'[i].1 <= n {
      if i < |hops| {
        assert hops'[i] == hops[i];
      }
    }
  }

  lemma ShiftedSnoc(hops: seq<(int, int)>, prev: int, next: int)
    ensures Shifted(hops + [(prev, next)]) == Shifted(hops) + [(prev - 1, next - 1)]
  {
    var hops', c := hops + [(prev, next)], (prev - 1, next - 1);
    forall i | 0 <= i < |hops'| ensures Shifted(hops')[i] == (Shifted(hops) + [c])[i] {
      if i < |hops| {
        assert hops'[i] == hops[i];
      }
    }
  }

  /** The tails and heads of the store are those of the hops, so both count the same degrees. */
  lemma HopDegrees(n: nat, tails: seq<int>, ends: seq<int>, heads: AdjLists, hops: seq<(int, int)>)
    requires Matches(n, tails, ends, heads, hops)
    ensures Counts(n, tails) == HopCounts(n, hops, true) && Counts(n, ends) == HopCounts(n, hops, false)
  {
    forall u | 0 <= u < n
      ensures IndicesWith(tails, u) == HopsWith(hops, u + 1, true)
      ensures IndicesWith(ends, u) == HopsWith(hops, u + 1, false)
    {
    }
  }

  /**
   * main, without its I/O: read the routes into a directed store over
   * n_squares squares, find the path, and print its length and its squares,
   * 1-based.  As written, the printed squares are empty exactly when the
   * routes' squares are not all reachable from the first one along hops;
   * otherwise they start at that square and enter every hop exactly once.
   * Corrected, they are empty unless the hops allow an Euler path (or
   * circuit) whose start reaches every square on a route; otherwise they
   * ride every hop once, from that start to the path's other end.
   */
  method BusPath(nSquares: nat, routes: seq<seq<int>>, checkBalance: bool)
    returns (count: int, squares: seq<int>, ghost ids: seq<int>)
    requires RoutesIn(nSquares, routes)
    ensures EdgesIn(nSquares, RouteHops(routes)) && count == |squares|
    ensures var hops, isolated := RouteHops(routes), Unmentioned(nSquares, routes);
      !checkBalance ==> (squares == [] <==>
        !(|hops| > 0 && ConnectedWithoutIsolated(InputGraph(nSquares, hops, true, false), isolated)))
    ensures var hops, isolated := RouteHops(routes), Unmentioned(nSquares, routes);
      checkBalance ==> (squares == [] <==>
        !(|hops| > 0 && exists s, t :: EulerSquares(nSquares, hops, isolated, s, t)
                                    && ReachesVisible(InputGraph(nSquares, hops, true, false), isolated, s - 1)))
    ensures squares != [] ==> EntersEveryHop(RouteHops(routes), squares, ids)
    ensures squares != [] && !checkBalance ==>
      SomeVisible(Unmentioned(nSquares, routes)) && squares[0] == FirstVisible(Unmentioned(nSquares, routes)) + 1
    ensures squares != [] && checkBalance ==>
      RidesEveryHop(RouteHops(routes), squares, ids) && EulerSquares(nSquares, RouteHops(routes), Unmentioned(nSquares, routes), squares[0], squares[|squares| - 1])
  {
    var g := new FastNeighborsGraph(nSquares, true);
    var isolated := seq(nSquares, _ => true);
    ghost var hops: seq<(int, int)> := [];
    EmptyHolds(g);
    RoutesStart(nSquares, routes, isolated);
    var i := 0;
    while i < |routes|
      invariant 0 <= i <= |routes| && hops == RouteHops(routes[..i])
      invariant g.Valid() && g.EndsInRange() && g.nVertices == nSquares && g.directed
      invariant Holds(g, hops) && Marks(isolated, hops)
      invariant isolated == Unmentioned(nSquares, routes[..i])
    {
      ghost var isolated0, hops0 := isolated, hops;
      RouteIn(nSquares, routes, i);
      isolated := ReadRoute(g, routes[i], isolated, hops);
      hops := hops + Hops(routes[i]);
      RoutesSnoc(nSquares, routes, i, isolated0, hops0, isolated, hops);
      i := i + 1;
    }
    RoutesEnd(nSquares, routes, i, isolated, hops);
    squares, ids := PrintedPath(g, isolated, checkBalance, hops);
    count := |squares|;
  }

  /** The store the constructor returns holds no hop. */
  lemma EmptyHolds(g: FastNeighborsGraph)
    requires g.Valid() && g.nEdges == 0 && g.adjLists == seq(g.nVertices, _ => []) && g.edgeEnds == [] && g.tails == []
    ensures Holds(g, [])
  {
    EmptyInput(g.nVertices);
    assert g.Heads() == seq(g.nVertices, _ => []);
  }

  /** Reading no hop leaves every list of the input store empty. */
  lemma EmptyInput(n: nat)
    ensures EdgesIn(n, []) && InputGraph(n, [], true, false) == seq(n, _ => [])
  {
    assert Shifted([]) == [];
  }

  /** Before the first route: no hop is read and every square is isolated. */
  lemma RoutesStart(n: nat, routes: seq<seq<int>>, isolated: seq<bool>)
    requires isolated == seq(n, _ => true)
    ensures [] == RouteHops(routes[..0]) && Marks(isolated, [])
    ensures isolated == Unmentioned(n, routes[..0])
  {
    assert routes[..0] == [];
  }

  /** One more route read: its hops follow the earlier ones and its squares are marked. */
  lemma RoutesSnoc(n: nat, routes: seq<seq<int>>, i: int, isolated: seq<bool>, hops: seq<(int, int)>,
                   isolated': seq<bool>, hops': seq<(int, int)>)
    requires 0 <= i < |routes| && hops == RouteHops(routes[..i]) && hops' == hops + Hops(routes[i])
    requires isolated == Unmentioned(n, routes[..i]) && MarkedOff(isolated', isolated, routes[i])
    ensures hops' == RouteHops(routes[..i + 1])
    ensures isolated' == Unmentioned(n, routes[..i + 1])
  {
    RouteHopsSnoc(routes, i);
    UnmentionedSnoc(n, routes, i, isolated, isolated');
  }

  lemma RouteIn(n: int, routes: seq<seq<int>>, i: int)
    requires RoutesIn(n, routes) && 0 <= i < |routes|
    ensures |routes[i]| >= 1 && forall k :: 0 <= k < |routes[i]| ==> 1 <= routes[i][k] <= n
  {
  }

  lemma RouteHopsSnoc(routes: seq<seq<int>>, i: int)
    requires 0 <= i < |routes|
    ensures RouteHops(routes[..i + 1]) == RouteHops(routes[..i]) + Hops(routes[i])
  {
    assert routes[..i + 1][..i] == routes[..i];
  }

  /** A square stays unmentioned after one more route exactly when that route does not mention it. */
  lemma UnmentionedSnoc(n: nat, routes: seq<seq<int>>, i: int, isolated: seq<bool>, isolated': seq<bool>)
    requires 0 <= i < |routes| && isolated == Unmentioned(n, routes[..i]) && MarkedOff(isolated', isolated, routes[i])
    ensures isolated' == Unmentioned(n, routes[..i + 1])
  {
    var u := Unmentioned(n, routes[..i + 1]);
    forall v | 0 <= v < n ensures isolated'[v] == u[v] {
      MentionedSnoc(routes, i, v + 1);
      assert isolated[v] == !Mentioned(routes[..i], v + 1);
      assert u[v] == !Mentioned(routes[..i + 1], v + 1);
    }
  }

  /** After the last route: the hops and marks are those of all the routes. */
  lemma RoutesEnd(n: nat, routes: seq<seq<int>>, i: int, isolated: seq<bool>, hops: seq<(int, int)>)
    requires i == |routes| && hops == RouteHops(routes[..i])
    requires isolated == Unmentioned(n, routes[..i])
    ensures hops == RouteHops(routes) && isolated == Unmentioned(n, routes)
  {
    AllRoutes(routes, i);
  }

  lemma AllRoutes(routes: seq<seq<int>>, i: int)
    requires i == |routes|
    ensures routes[..i] == routes
  {
  }

  /**
   * The rest of main: find the path and shift it to 1-based squares.  The
   * outcome is stated on the hops read, through the store that holds them.
   */
  method PrintedPath(g: FastNeighborsGraph, isolated: seq<bool>, checkBalance: bool, ghost hops: seq<(int, int)>)
    returns (squares: seq<int>, ghost ids: seq<int>)
    requires g.Valid() && g.EndsInRange() && |isolated| == g.nVertices && Holds(g, hops) && Marks(isolated, hops)
    ensures EdgesIn(g.nVertices, hops)
    ensures !checkBalance ==> (squares == [] <==>
      !(|hops| > 0 && ConnectedWithoutIsolated(InputGraph(g.nVertices, hops, true, false), isolated)))
    ensures checkBalance ==> (squares == [] <==>
      !(|hops| > 0 && exists s, t :: EulerSquares(g.nVertices, hops, isolated, s, t)
                                  && ReachesVisible(InputGraph(g.nVertices, hops, true, false), isolated, s - 1)))
    ensures squares != [] ==> EntersEveryHop(hops, squares, ids)
    ensures squares != [] && !checkBalance ==> SomeVisible(isolated) && squares[0] == FirstVisible(isolated) + 1
    ensures squares != [] && checkBalance ==>
      RidesEveryHop(hops, squares, ids) && EulerSquares(g.nVertices, hops, isolated, squares[0], squares[|squares| - 1])
  {
    MarkedTails(g.tails, hops, isolated);
    MarkedVisible(hops, isolated);
    var path;
    path, ids := FindFullEulerPathIfExists(g, isolated, checkBalance);
    squares := seq(|path|, k requires 0 <= k < |path| => path[k] + 1);
    if checkBalance {
      PrintedChecked(g, isolated, hops, path, ids, squares);
    } else {
      PrintedAsWritten(g, isolated, hops, path, ids, squares);
    }
    if path != [] {
      EnteredSquares(hops, g.edgeEnds, path, ids, squares);
    }
  }

  /** As written, what the routine promises of the store, shifted to squares, is what PrintedPath promises of the hops. */
  lemma PrintedAsWritten(g: FastNeighborsGraph, isolated: seq<bool>, hops: seq<(int, int)>, path: seq<int>, ids: seq<int>,
                         squares: seq<int>)
    requires g.Valid() && |isolated| == g.nVertices && Holds(g, hops)
    requires path == [] <==> !(g.nEdges > 0 && ConnectedWithoutIsolated(g.Heads(), isolated))
    requires path != [] ==> path[0] == FirstVisible(isolated)
    requires |squares| == |path| && forall k :: 0 <= k < |path| ==> squares[k] == path[k] + 1
    ensures squares == [] <==> !(|hops| > 0 && ConnectedWithoutIsolated(InputGraph(g.nVertices, hops, true, false), isolated))
    ensures squares != [] ==> SomeVisible(isolated) && squares[0] == FirstVisible(isolated) + 1
  {
  }

  /** With the degree check, what the routine promises of the store, shifted to squares, is what PrintedPath promises of the hops. */
  lemma PrintedChecked(g: FastNeighborsGraph, isolated: seq<bool>, hops: seq<(int, int)>, path: seq<int>, ids: seq<int>,
                       squares: seq<int>)
    requires g.Valid() && |isolated| == g.nVertices && Holds(g, hops) && TailsVisible(g, isolated)
    requires path == [] <==>
      !(g.nEdges > 0 && exists s, t :: EulerEnds(g, isolated, s, t) && ReachesVisible(g.Heads(), isolated, s))
    requires path != [] ==> Entered(g, path, ids) && |path| == g.nEdges + 1
    requires path != [] ==> EulerEnds(g, isolated, path[0], path[|path| - 1]) && Leaves(g, path, ids)
    requires |squares| == |path| && forall k :: 0 <= k < |path| ==> squares[k] == path[k] + 1
    ensures squares == [] <==>
      !(|hops| > 0 && exists s, t :: EulerSquares(g.nVertices, hops, isolated, s, t)
                                  && ReachesVisible(InputGraph(g.nVertices, hops, true, false), isolated, s - 1))
    ensures squares != [] ==>
      RidesEveryHop(hops, squares, ids) && EulerSquares(g.nVertices, hops, isolated, squares[0], squares[|squares| - 1])
  {
    EulerSquaresEnds(g, isolated, hops);
    if path != [] {
      RiddenSquares(hops, g.tails, g.edgeEnds, path, ids, squares);
      assert EulerEnds(g, isolated, path[0], path[|path| - 1]);
    }
  }

  /** The corrected check on the store and on the hops ask the same: the ends shift by one. */
  lemma EulerSquaresEnds(g: FastNeighborsGraph, isolated: seq<bool>, hops: seq<(int, int)>)
    requires g.Valid() && Holds(g, hops)
    ensures forall s, t :: EulerEnds(g, isolated, s, t) <==> EulerSquares(g.nVertices, hops, isolated, s + 1, t + 1)
    ensures (exists s, t :: EulerEnds(g, isolated, s, t) && ReachesVisible(g.Heads(), isolated, s)) <==>
      (exists s, t :: EulerSquares(g.nVertices, hops, isolated, s, t) && ReachesVisible(g.Heads(), isolated, s - 1))
  {
    HopDegrees(g.nVertices, g.tails, g.edgeEnds, g.Heads(), hops);
    if exists s, t :: EulerEnds(g, isolated, s, t) && ReachesVisible(g.Heads(), isolated, s) {
      var s, t :| EulerEnds(g, isolated, s, t) && ReachesVisible(g.Heads(), isolated, s);
      assert EulerSquares(g.nVertices, hops, isolated, s + 1, t + 1) && ReachesVisible(g.Heads(), isolated, s + 1 - 1);
    }
    if exists s, t :: EulerSquares(g.nVertices, hops, isolated, s, t) && ReachesVisible(g.Heads(), isolated, s - 1) {
      var s, t :| EulerSquares(g.nVertices, hops, isolated, s, t) && ReachesVisible(g.Heads(), isolated, s - 1);
      assert EulerEnds(g, isolated, s - 1, t - 1);
    }
  }

  /** Some square is marked once some hop is read. */
  lemma MarkedVisible(hops: seq<(int, int)>, isolated: seq<bool>)
    requires Marks(isolated, hops)
    ensures |hops| > 0 ==> SomeVisible(isolated)
  {
    if |hops| > 0 {
      assert !isolated[hops[0].0 - 1];
    }
  }

  /** Every edge of the store leaves a square some route mentions. */
  lemma MarkedTails(tails: seq<int>, hops: seq<(int, int)>, isolated: seq<bool>)
    requires |tails| == |hops| && (forall e :: 0 <= e < |hops| ==> tails[e] == hops[e].0 - 1)
    requires Marks(isolated, hops)
    ensures VisibleTails(tails, isolated)
  {
  }

  /** The path the store returns, shifted to 1-based squares, enters every hop once. */
  lemma EnteredSquares(hops: seq<(int, int)>, ends: seq<int>, path: seq<int>, ids: seq<int>, squares: seq<int>)
    requires |ends| == |hops| && (forall e :: 0 <= e < |hops| ==> ends[e] == hops[e].1 - 1)
    requires EnteredEnds(|hops|, ends, path, ids) && |path| == |hops| + 1
    requires |squares| == |path| && forall k :: 0 <= k < |path| ==> squares[k] == path[k] + 1
    ensures EntersEveryHop(hops, squares, ids)
  {
  }

  /** A walk along the store's edges that enters every edge, shifted to 1-based squares, rides every hop. */
  lemma RiddenSquares(hops: seq<(int, int)>, tails: seq<int>, ends: seq<int>, path: seq<int>, ids: seq<int>, squares: seq<int>)
    requires |tails| == |hops| && (forall e :: 0 <= e < |hops| ==> tails[e] == hops[e].0 - 1)
    requires |ends| == |hops| && (forall e :: 0 <= e < |hops| ==> ends[e] == hops[e].1 - 1)
    requires EnteredEnds(|hops|, ends, path, ids) && LeavesTails(tails, path, ids) && |path| == |hops| + 1
    requires |squares| == |path| && forall k :: 0 <= k < |path| ==> squares[k] == path[k] + 1
    ensures RidesEveryHop(hops, squares, ids)
  {
    EnteredSquares(hops, ends, path, ids, squares);
    forall t | 0 <= t < |ids| ensures hops[ids[t]] == (squares[t], squares[t + 1]) {
      assert hops[ids[t]].0 == tails[ids[t]] + 1 == squares[t];
      assert hops[ids[t]].1 == ends[ids[t]] + 1 == squares[t + 1];
    }
  }

  /** Two routes leaving square 1: 1 -> 2 and 1 -> 3. */
  const forkRoutes: seq<seq<int>> := [[1, 2], [1, 3]]
  const forkHops: seq<(int, int)> := [(1, 2), (1, 3)]

  lemma ForkHops()
    ensures RoutesIn(3, forkRoutes) && RouteHops(forkRoutes) == forkHops
  {
    assert forkRoutes[..1] == [[1, 2]] && [[1, 2]][..0] == [];
    assert Hops([1, 2]) == [(1, 2)] && Hops([1, 3]) == [(1, 3)];
  }

  lemma ForkInput()
    ensures EdgesIn(3, forkHops) && InputGraph(3, forkHops, true, false) == [[1, 2], [], []]
  {
    var empty: AdjLists := seq(3, _ => []);
    assert Shifted(forkHops) == [(0, 1), (0, 2)];
    assert [(0, 1), (0, 2)][..1] == [(0, 1)] && [(0, 1)][..0] == [];
    assert EdgesAdded(empty, [], true, false) == empty;
    assert Inserted([], 1, false) == [1] && Inserted([1], 2, false) == [1, 2];
    assert EdgeAdded(empty, 0, 1, true, false) == [[1], [], []];
    assert EdgesAdded(empty, [(0, 1)], true, false) == [[1], [], []];
  }

  lemma ForkMentioned()
    ensures Unmentioned(3, forkRoutes) == [false, false, false]
  {
    assert 1 in forkRoutes[0] && 2 in forkRoutes[0] && 3 in forkRoutes[1];
    assert Mentioned(forkRoutes, 1) && Mentioned(forkRoutes, 2) && Mentioned(forkRoutes, 3);
  }

  /**
   * As written: the fork passes the connectivity check, so main (without the
   * balance check) prints a non-empty sequence of squares.
   */
  lemma ForkPrinted()
    ensures RoutesIn(3, forkRoutes) && RouteHops(forkRoutes) == forkHops && EdgesIn(3, forkHops)
    ensures ConnectedWithoutIsolated(InputGraph(3, forkHops, true, false), Unmentioned(3, forkRoutes))
  {
    ForkHops();
    ForkInput();
    ForkMentioned();
    ForkConnected();
  }

  /** The fork's graph, 0-based: square 0 reaches the other two. */
  lemma ForkConnected()
    ensures ConnectedWithoutIsolated([[1, 2], [], []], [false, false, false])
  {
    var h: AdjLists := [[1, 2], [], []];
    var isolated := [false, false, false];
    assert SomeVisible(isolated) by { assert !isolated[0]; }
    assert FirstVisible(isolated) == 0;
    forall v | 0 <= v < |isolated| && !isolated[v] ensures Reaches(h, 0, v) {
      if v == 0 {
        ReachesRefl(h, 0);
      } else {
        assert v in h[0];
        EdgeReaches(h, 0, v);
      }
    }
  }

  /** ... yet no sequence of squares rides both hops once: the second would start where the first ends, at 2 or 3, but both start at 1. */
  lemma ForkNotRidden(squares: seq<int>, ids: seq<int>)
    ensures !RidesEveryHop(RouteHops(forkRoutes), squares, ids)
  {
    ForkHops();
    if EntersEveryHop(forkHops, squares, ids) {
      assert forkHops[ids[0]].1 == squares[1];
      assert forkHops[ids[1]].0 != squares[1];
    }
  }

  /** Corrected: square 1 has two hops out and none in, so no pair of squares passes the degree check. */
  lemma ForkNoEnds()
    ensures forall s, t :: !EulerSquares(3, RouteHops(forkRoutes), Unmentioned(3, forkRoutes), s, t)
  {
    ForkHops();
    assert HopsWith(forkHops, 1, true) == {0, 1};
    assert HopsWith(forkHops, 1, false) == {};
    var out, into := HopCounts(3, forkHops, true), HopCounts(3, forkHops, false);
    assert out[0] - into[0] == 2;
  }

  /** One route through three squares: 1 -> 2 -> 3. */
  const lineRoutes: seq<seq<int>> := [[1, 2, 3]]
  const lineHops: seq<(int, int)> := [(1, 2), (2, 3)]

  lemma LineHops()
    ensures RoutesIn(3, lineRoutes) && RouteHops(lineRoutes) == lineHops
  {
    assert lineRoutes[..0] == [];
    assert Hops([1, 2, 3]) == lineHops;
  }

  lemma LineMentioned()
    ensures Unmentioned(3, lineRoutes) == [false, false, false]
  {
    assert 1 in lineRoutes[0] && 2 in lineRoutes[0] && 3 in lineRoutes[0];
    assert Mentioned(lineRoutes, 1) && Mentioned(lineRoutes, 2) && Mentioned(lineRoutes, 3);
  }

  lemma LineInput()
    ensures EdgesIn(3, lineHops) && InputGraph(3, lineHops, true, false) == [[1], [2], []]
  {
    var empty: AdjLists := seq(3, _ => []);
    assert Shifted(lineHops) == [(0, 1), (1, 2)];
    assert [(0, 1), (1, 2)][..1] == [(0, 1)] && [(0, 1)][..0] == [];
    assert EdgesAdded(empty, [], true, false) == empty;
    assert Inserted([], 1, false) == [1] && Inserted([], 2, false) == [2];
    assert EdgeAdded(empty, 0, 1, true, false) == [[1], [], []];
    assert EdgesAdded(empty, [(0, 1)], true, false) == [[1], [], []];
  }

  /**
   * Corrected: the line's hops allow the Euler path from square 1 to square
   * 3, and square 1 reaches every square, so the corrected main prints the
   * squares of a ride from 1 to 3 over both hops.
   */
  lemma LineAccepted()
    ensures RoutesIn(3, lineRoutes) && |RouteHops(lineRoutes)| > 0
    ensures EulerSquares(3, RouteHops(lineRoutes), Unmentioned(3, lineRoutes), 1, 3)
    ensures ReachesVisible(InputGraph(3, RouteHops(lineRoutes), true, false), Unmentioned(3, lineRoutes), 0)
  {
    LineHops();
    LineMentioned();
    LineInput();
    LineDegrees();
    LineReached();
  }

  /** Square 1 has one hop out, square 3 one hop in, square 2 one of each. */
  lemma LineDegrees()
    ensures Differences(HopCounts(3, lineHops, true), HopCounts(3, lineHops, false), 0, 2)
  {
    assert HopsWith(lineHops, 1, true) == {0} && HopsWith(lineHops, 1, false) == {};
    assert HopsWith(lineHops, 2, true) == {1} && HopsWith(lineHops, 2, false) == {0};
    assert HopsWith(lineHops, 3, true) == {} && HopsWith(lineHops, 3, false) == {1};
  }

  /** The line's graph, 0-based: square 0 reaches every square. */
  lemma LineReached()
    ensures ReachesVisible([[1], [2], []], [false, false, false], 0)
  {
    var h: AdjLists := [[1], [2], []];
    ReachesRefl(h, 0);
    assert 1 in h[0] && 2 in h[1];
    EdgeReaches(h, 0, 1);
    EdgeReaches(h, 1, 2);
    ReachesTrans(h, 0, 1, 2);
  }
}
