/**
 * The nearest-subway grid (E_find_sub): the cells of an n x m grid are the
 * vertices, numbered row-major by encode_pair, neighbouring cells are joined
 * by undirected edges, and a breadth-first search started from every cell
 * with a subway gives each cell its distance to the nearest one, which is
 * the smallest Manhattan distance to a subway cell.
 */
module Manhattan {
  import opened Graphs
  import opened GraphStore
  import opened PairEncoding
  import Bfs

  const INT32_MAX := 0x7fff_ffff

  function Abs(a: int): int {
    if a < 0 then -a else a
  }

  /** The Manhattan distance between the cells with row-major codes a and b. */
  function Distance(m: int, a: int, b: int): (d: int)
    requires m > 0
    ensures d >= 0
  {
    Abs(a / m - b / m) + Abs(a % m - b % m)
  }

  /** The edges the constructor adds out of v: to its right and to its bottom neighbour. */
  ghost predicate GridStep(n: int, m: int, v: int, u: int) {
    m > 0 && 0 <= v < n * m && ((v % m < m - 1 && u == v + 1) || (v / m < n - 1 && u == v + m))
  }

  /** Cells a Manhattan distance 1 apart. */
  ghost predicate Adjacent(n: int, m: int, v: int, u: int) {
    m > 0 && 0 <= v < n * m && 0 <= u < n * m && Distance(m, v, u) == 1
  }

  /** The row and column of a cell code, and the code of a row and column. */
  lemma {:induction false} Cell(n: int, m: int, i: int, j: int)
    requires m > 0 && 0 <= i < n && 0 <= j < m
    ensures 0 <= EncodePair(i, j, m) < n * m
    ensures EncodePair(i, j, m) / m == i && EncodePair(i, j, m) % m == j
  {
    CodeInRange(n, m, i, j);
    DivModUnique(m, i, j);
  }

  /** Every code in [0, n * m) is a cell. */
  lemma {:induction false} CodeCell(n: int, m: int, c: int)
    requires m > 0 && 0 <= c < n * m
    ensures 0 <= c / m < n && 0 <= c % m < m && c == (c / m) * m + c % m
  {
    QuotientInRange(n, m, c);
  }

  /** A constructor edge joins cells at distance 1, and every such pair is an edge one way or the other. */
  lemma {:induction false} StepsAreAdjacent(n: int, m: int, v: int, u: int)
    requires m > 0
    ensures Adjacent(n, m, v, u) <==> GridStep(n, m, v, u) || GridStep(n, m, u, v)
    ensures !(GridStep(n, m, v, u) && GridStep(n, m, u, v))
  {
    if GridStep(n, m, v, u) {
      StepAdjacent(n, m, v, u);
    }
    if GridStep(n, m, u, v) {
      StepAdjacent(n, m, u, v);
    }
    if Adjacent(n, m, v, u) {
      AdjacentIsStep(n, m, v, u);
    }
  }

  /** Cells at distance 1 are a right or a bottom step apart, one way or the other. */
  lemma {:induction false} AdjacentIsStep(n: int, m: int, v: int, u: int)
    requires Adjacent(n, m, v, u)
    ensures GridStep(n, m, v, u) || GridStep(n, m, u, v)
  {
    CodeCell(n, m, v);
    CodeCell(n, m, u);
    var vi, vj, ui, uj := v / m, v % m, u / m, u % m;
    assert Abs(vi - ui) + Abs(vj - uj) == 1;
    if vi == ui {
      if uj == vj + 1 {
        assert u == v + 1 && vj < m - 1;
      } else {
        assert v == u + 1 && uj < m - 1;
      }
    } else {
      assert vj == uj;
      if ui == vi + 1 {
        assert u == vi * m + m + vj;
        assert u == v + m && vi < n - 1;
      } else {
        assert v == ui * m + m + uj;
        assert v == u + m && ui < n - 1;
      }
    }
  }

  lemma {:induction false} StepAdjacent(n: int, m: int, v: int, u: int)
    requires GridStep(n, m, v, u)
    ensures Adjacent(n, m, v, u)
  {
    CodeCell(n, m, v);
    var (i, j) := (v / m, v % m);
    if j < m - 1 && u == v + 1 {
      assert u == EncodePair(i, j + 1, m);
      Cell(n, m, i, j + 1);
    } else {
      assert u == EncodePair(i + 1, j, m);
      Cell(n, m, i + 1, j);
    }
  }

  /** The store the constructor leaves: each neighbouring cell once, the extra list empty. */
  ghost predicate IsManhattanGraph(n: int, m: int, g: AdjLists) {
    m > 0 && |g| == n * m + 1 && forall v, u :: 0 <= v < |g| ==> Count(g[v], u) == (if Adjacent(n, m, v, u) then 1 else 0)
  }

  /** The subway cells among the first k, in increasing order: the constructor's subs. */
  ghost function SubsBefore(hasSub: seq<bool>, k: int): seq<int>
    requires 0 <= k <= |hasSub|
    decreases k
  {
    if k == 0 then [] else SubsBefore(hasSub, k - 1) + (if hasSub[k - 1] then [k - 1] else [])
  }

  /** subs holds exactly the subway cells below k, each once, in increasing order. */
  lemma {:induction false} SubsBeforeMembers(hasSub: seq<bool>, k: int)
    requires 0 <= k <= |hasSub|
    ensures var s := SubsBefore(hasSub, k);
      && (forall v :: v in s <==> 0 <= v < k && hasSub[v])
      && (forall a :: 0 <= a < |s| ==> 0 <= s[a] < k)
      && (forall a, b :: 0 <= a < b < |s| ==> s[a] < s[b])
    decreases k
  {
    if k > 0 {
      SubsBeforeMembers(hasSub, k - 1);
    }
  }

  /** The edges out of cell (i, j): right when j < m - 1, bottom when i < n - 1, both inside the grid. */
  lemma {:induction false} CellSteps(n: int, m: int, i: int, j: int)
    requires m > 0 && 0 <= i < n && 0 <= j < m
    ensures var v := EncodePair(i, j, m);
      && 0 <= v < n * m
      && EncodePair(i, j + 1, m) == v + 1 && EncodePair(i + 1, j, m) == v + m
      && (j < m - 1 ==> v + 1 < n * m) && (i < n - 1 ==> v + m < n * m)
      && forall u :: GridStep(n, m, v, u) <==> (j < m - 1 && u == v + 1) || (i < n - 1 && u == v + m)
  {
    Cell(n, m, i, j);
    if j < m - 1 {
      CodeInRange(n, m, i, j + 1);
    }
    if i < n - 1 {
      CodeInRange(n, m, i + 1, j);
    }
  }

  /** The logged add_edge calls are exactly the constructor edges out of the first k cells, each once. */
  ghost predicate StepsLogged(n: int, m: int, calls: seq<(int, int)>, k: int) {
    forall v, u :: multiset(calls)[(v, u)] == (if 0 <= v < k && GridStep(n, m, v, u) then 1 else 0)
  }

  /** Logging the edges out of cell code extends the log from the first code cells to the first code + 1. */
  lemma StepsLoggedNext(n: int, m: int, i: int, j: int, code: int, calls: seq<(int, int)>, calls': seq<(int, int)>)
    requires m > 0 && 0 <= i < n && 0 <= j < m && code == EncodePair(i, j, m)
    requires StepsLogged(n, m, calls, code)
    requires forall v, u :: (multiset(calls')[(v, u)] ==
      multiset(calls)[(v, u)] + (if v == code && ((j < m - 1 && u == code + 1) || (i < n - 1 && u == code + m)) then 1 else 0))
    ensures StepsLogged(n, m, calls', code + 1)
  {
    CellSteps(n, m, i, j);
    forall v, u ensures multiset(calls')[(v, u)] == (if 0 <= v < code + 1 && GridStep(n, m, v, u) then 1 else 0) {
      assert multiset(calls)[(v, u)] == (if 0 <= v < code && GridStep(n, m, v, u) then 1 else 0);
    }
  }

  /** The constructor's two add_edge calls for cell (i, j), logged. */
  method AddCellEdges(g: AdjListsGraph, n: int, m: int, i: int, j: int, ghost code: int, ghost init: seq<seq<int>>, ghost calls: seq<(int, int)>)
    returns (ghost calls': seq<(int, int)>)
    requires m > 0 && 0 <= i < n && 0 <= j < m && code == EncodePair(i, j, m) && 0 <= code < n * m
    requires (j < m - 1 ==> code + 1 < n * m) && (i < n - 1 ==> code + m < n * m)
    requires g.Valid() && !g.directed && |g.lists| == n * m + 1
    requires |init| == |g.lists| && CallsInRange(calls, |init|, false) && g.lists == EdgesAdded(init, calls, false, g.asSet)
    modifies g
    ensures g.Valid() && g.nVertices == old(g.nVertices)
    ensures CallsInRange(calls', |init|, false) && g.lists == EdgesAdded(init, calls', false, g.asSet)
    ensures forall v, u :: (multiset(calls')[(v, u)] ==
      multiset(calls)[(v, u)] + (if v == code && ((j < m - 1 && u == code + 1) || (i < n - 1 && u == code + m)) then 1 else 0))
  {
    var v := EncodePair(i, j, m);
    var right := EncodePair(i, j + 1, m);
    var bottom := EncodePair(i + 1, j, m);
    assert right == code + 1 && bottom == code + m;
    calls' := calls;
    if j < m - 1 {
      calls' := AddEdgeLogged(g, v, right, init, calls');
    }
    if i < n - 1 {
      calls' := AddEdgeLogged(g, v, bottom, init, calls');
    }
  }

  /** subs holds exactly the subway cells below k, in increasing order. */
  ghost predicate Listed(subs: seq<int>, hasSub: seq<bool>, k: int) {
    && (forall a, b :: 0 <= a < b < |subs| ==> subs[a] < subs[b])
    && (forall v :: v in subs <==> 0 <= v < k && 0 <= v < |hasSub| && hasSub[v])
  }

  /** Two increasing sequences with the same members are the same sequence. */
  lemma {:induction false} ListedUnique(a: seq<int>, b: seq<int>)
    requires forall i, j :: 0 <= i < j < |a| ==> a[i] < a[j]
    requires forall i, j :: 0 <= i < j < |b| ==> b[i] < b[j]
    requires forall x :: x in a <==> x in b
    ensures a == b
    decreases |a| + |b|
  {
    assert b != [] ==> b[0] in b;
    if a != [] {
      assert a[0] in a;
      assert a[0] in b && b != [];
      assert b[0] in a;
      var i :| 0 <= i < |b| && b[i] == a[0];
      var j :| 0 <= j < |a| && a[j] == b[0];
      forall x ensures x in a[1..] <==> x in b[1..] {
        if x in a[1..] {
          var k :| 0 <= k < |a[1..]| && a[1..][k] == x;
          assert a[0] < a[k + 1];
        }
        if x in b[1..] {
          var k :| 0 <= k < |b[1..]| && b[1..][k] == x;
          assert b[0] < b[k + 1];
        }
        assert x in a <==> x == a[0] || x in a[1..] by { assert a == [a[0]] + a[1..]; }
        assert x in b <==> x == b[0] || x in b[1..] by { assert b == [b[0]] + b[1..]; }
      }
      ListedUnique(a[1..], b[1..]);
      assert a == [a[0]] + a[1..] && b == [b[0]] + b[1..];
    }
  }

  /** The store after the constructor's first k cells: their edges logged, their subway cells listed. */
  ghost predicate CellsAdded(g: AdjListsGraph, n: int, m: int, hasSub: seq<bool>, init: seq<seq<int>>,
                             calls: seq<(int, int)>, subs: seq<int>, k: int)
    reads g
  {
    && 0 <= k <= |hasSub| && g.Valid() && !g.directed && |g.lists| == |hasSub| + 1
    && |init| == |g.lists| && CallsInRange(calls, |init|, false) && g.lists == EdgesAdded(init, calls, false, g.asSet)
    && StepsLogged(n, m, calls, k) && Listed(subs, hasSub, k)
  }


  /**
   * One cell (i, j) of the constructor's loops: its edges, and when it has a
   * subway its code appended to subs with its distance set to 0.
   */
  method AddCell(g: AdjListsGraph, n: int, m: int, hasSub: seq<bool>, i: int, j: int, subs: seq<int>, distances: seq<int>,
                 ghost code: int, ghost init: seq<seq<int>>, ghost calls: seq<(int, int)>)
    returns (subs': seq<int>, distances': seq<int>, ghost calls': seq<(int, int)>)
    requires m > 0 && 0 <= i < n && 0 <= j < m && code == EncodePair(i, j, m)
    requires |hasSub| == n * m && |distances| == |hasSub|
    requires CellsAdded(g, n, m, hasSub, init, calls, subs, code)
    modifies g
    ensures CellsAdded(g, n, m, hasSub, init, calls', subs', code + 1) && g.nVertices == old(g.nVertices)
    ensures |distances'| == |hasSub| && forall v :: 0 <= v < |hasSub| ==> distances'[v] == (if v == code && hasSub[v] then 0 else distances[v])
  {
    var v := EncodePair(i, j, m);
    Cell(n, m, i, j);
    CellSteps(n, m, i, j);
    calls' := AddCellEdges(g, n, m, i, j, code, init, calls);
    StepsLoggedNext(n, m, i, j, code, calls, calls');
    subs', distances' := subs, distances;
    if hasSub[v] {
      distances' := distances'[v := 0];
      subs' := subs' + [v];
    }
    ListedNext(subs, hasSub, code, subs');
  }

  /** Cell k, listed when it has a subway, extends the list of the subway cells below k to those below k + 1. */
  lemma ListedNext(subs: seq<int>, hasSub: seq<bool>, k: int, subs': seq<int>)
    requires Listed(subs, hasSub, k) && 0 <= k < |hasSub|
    requires subs' == if hasSub[k] then subs + [k] else subs
    ensures Listed(subs', hasSub, k + 1)
  {
    if hasSub[k] {
      forall a, b | 0 <= a < b < |subs'| ensures subs'[a] < subs'[b] {
        assert subs'[a] == subs[a] && subs[a] in subs;
        if b < |subs| {
          assert subs'[b] == subs[b];
        }
      }
    }
  }

  /**
   * The j loop of the constructor for row i: the edges of its cells, and
   * each subway cell's code appended to subs with its distance set to 0.
   */
  method AddRow(g: AdjListsGraph, n: int, m: int, hasSub: seq<bool>, i: int, subs: seq<int>, distances: seq<int>,
                ghost done: int, ghost init: seq<seq<int>>, ghost calls: seq<(int, int)>)
    returns (subs': seq<int>, distances': seq<int>, ghost calls': seq<(int, int)>)
    requires m > 0 && 0 <= i < n && done == i * m && 0 <= done && done + m <= |hasSub|
    requires |hasSub| == n * m && |distances| == |hasSub|
    requires CellsAdded(g, n, m, hasSub, init, calls, subs, done)
    modifies g
    ensures CellsAdded(g, n, m, hasSub, init, calls', subs', done + m) && g.nVertices == old(g.nVertices)
    ensures |distances'| == |hasSub|
  {
    subs', distances', calls' := subs, distances, calls;
    ghost var next := done;
    var j := 0;
    while j < m
      invariant 0 <= j <= m && next == done + j && |distances'| == |hasSub|
      invariant CellsAdded(g, n, m, hasSub, init, calls', subs', next) && g.nVertices == old(g.nVertices)
    {
      assert next == EncodePair(i, j, m);
      subs', distances', calls' := AddCell(g, n, m, hasSub, i, j, subs', distances', next, init, calls');
      next := next + 1;
      j := j + 1;
    }
  }

  /** Row i < n starts at code i * m, and its m cells end within the grid. */
  lemma RowStart(n: int, m: int, i: int, done: int)
    requires m > 0 && 0 <= i < n && done == i * m
    ensures 0 <= done && done + m == (i + 1) * m && done + m <= n * m
  {
    MulMono(0, i, m);
    MulMono(i + 1, n, m);
  }

  /** The i loop of the constructor, over the rows of the grid. */
  method AddRows(g: AdjListsGraph, n: int, m: int, hasSub: seq<bool>, distances0: seq<int>, ghost init: seq<seq<int>>)
    returns (subs: seq<int>, distances: seq<int>, ghost calls: seq<(int, int)>)
    requires n > 0 && m > 0 && |hasSub| == n * m && |distances0| == n * m
    requires g.Valid() && !g.directed && |g.lists| == n * m + 1 && g.lists == init
    modifies g
    ensures CellsAdded(g, n, m, hasSub, init, calls, subs, n * m) && g.nVertices == old(g.nVertices)
    ensures |distances| == n * m
  {
    distances := distances0;
    subs := [];
    calls := [];
    ghost var done := 0;
    var i := 0;
    while i < n
      invariant 0 <= i <= n && done == i * m && 0 <= done <= n * m && |distances| == n * m
      invariant CellsAdded(g, n, m, hasSub, init, calls, subs, done) && g.nVertices == old(g.nVertices)
    {
      RowStart(n, m, i, done);
      subs, distances, calls := AddRow(g, n, m, hasSub, i, subs, distances, done, init, calls);
      done := done + m;
      i := i + 1;
    }
  }

  /** The logged calls, folded into empty lists, give the grid store. */
  lemma ManhattanCounts(n: int, m: int, init: seq<seq<int>>, calls: seq<(int, int)>)
    requires n > 0 && m > 0 && init == seq(n * m + 1, _ => []) && CallsInRange(calls, |init|, false)
    requires StepsLogged(n, m, calls, n * m)
    ensures IsManhattanGraph(n, m, EdgesAdded(init, calls, false, false))
  {
    var g := EdgesAdded(init, calls, false, false);
    forall v, u | 0 <= v < |g| ensures Count(g[v], u) == (if Adjacent(n, m, v, u) then 1 else 0) {
      EdgesAddedCount(init, calls, false, v, u);
      StepsAreAdjacent(n, m, v, u);
      assert init[v] == [] && Count(init[v], u) == 0;
      assert multiset(calls)[(v, u)] == (if 0 <= v < n * m && GridStep(n, m, v, u) then 1 else 0);
      assert multiset(calls)[(u, v)] == (if 0 <= u < n * m && GridStep(n, m, u, v) then 1 else 0);
    }
  }

  /**
   * The nested loops of the ManhattanGraph constructor: the store, and the
   * subway cells in code order with distances_ 0 at each.
   */
  method BuildGrid(n: int, m: int, hasSub: seq<bool>) returns (g: AdjListsGraph, subs: seq<int>, distances: seq<int>)
    requires n > 0 && m > 0 && |hasSub| == n * m
    ensures fresh(g) && g.Valid() && !g.directed && !g.asSet && g.nVertices == n * m
    ensures IsManhattanGraph(n, m, g.lists) && subs == SubsBefore(hasSub, n * m) && |distances| == n * m
  {
    g := new AdjListsGraph(n * m, false, false, true);
    ghost var init := g.lists;
    ghost var calls;
    subs, distances, calls := AddRows(g, n, m, hasSub, seq(n * m, _ => INT32_MAX), init);
    ManhattanCounts(n, m, init, calls);
    SubsBeforeMembers(hasSub, n * m);
    ListedUnique(subs, SubsBefore(hasSub, n * m));
  }

  /**
   * ManhattanGraph(n, m, has_sub): the grid store, then distances_ is
   * replaced by the BFS dist vector from all subway cells (prev unset -1).
   */
  method ManhattanGraph(n: int, m: int, hasSub: seq<bool>) returns (g: AdjListsGraph, distances: seq<int>)
    requires n > 0 && m > 0 && |hasSub| == n * m
    ensures fresh(g) && g.Valid() && !g.directed && !g.asSet && g.nVertices == n * m
    ensures IsManhattanGraph(n, m, g.lists)
    ensures |distances| == n * m + 1 && forall t :: 0 <= t < |distances| ==> distances[t] >= -1
    ensures forall t :: 0 <= t < |distances| ==> (distances[t] >= 0 <==> ReachableFromSet(g.lists, SubsBefore(hasSub, n * m), t))
    ensures forall t, p :: 0 <= t < |distances| && IsWalkFromSet(g.lists, SubsBefore(hasSub, n * m), p, t) ==> distances[t] <= |p| - 1
    ensures forall t :: 0 <= t < |distances| && distances[t] >= 0 ==>
      exists p :: IsWalkFromSet(g.lists, SubsBefore(hasSub, n * m), p, t) && |p| == distances[t] + 1
  {
    var subs;
    g, subs, distances := BuildGrid(n, m, hasSub);
    var lists := g.lists;
    StoreValid(n, m, lists);
    SubsBeforeMembers(hasSub, n * m);
    Bfs.AllVerticesClosed(lists);
    var dist, prev := Bfs.ShortestPaths(lists, subs, -1, Range(|lists|));
    distances := dist;
  }

  /** Every stored neighbour of the grid store is a cell. */
  lemma StoreValid(n: int, m: int, g: AdjLists)
    requires IsManhattanGraph(n, m, g)
    ensures ValidGraph(g)
    ensures forall v, u :: 0 <= v < |g| ==> (u in g[v] <==> Adjacent(n, m, v, u))
  {
    forall v, u | 0 <= v < |g| ensures u in g[v] <==> Adjacent(n, m, v, u) {
      assert Count(g[v], u) == (if Adjacent(n, m, v, u) then 1 else 0);
    }
    forall v, k | 0 <= v < |g| && 0 <= k < |g[v]| ensures 0 <= g[v][k] < |g| {
      assert g[v][k] in g[v];
      assert Adjacent(n, m, v, g[v][k]);
    }
  }

  /** Along a walk of the grid store the Manhattan distance grows by at most one per edge. */
  lemma {:induction false} WalkAtLeastDistance(n: int, m: int, g: AdjLists, p: seq<int>)
    requires IsManhattanGraph(n, m, g) && IsWalk(g, p) && 0 <= p[0] < n * m
    ensures 0 <= p[|p| - 1] < n * m && Distance(m, p[0], p[|p| - 1]) <= |p| - 1
    decreases |p|
  {
    if |p| > 1 {
      var q := p[..|p| - 1];
      assert IsWalk(g, q);
      WalkAtLeastDistance(n, m, g, q);
      StoreValid(n, m, g);
      assert p[|p| - 1] in g[q[|q| - 1]];
    }
  }

  /** Between two cells there is a walk with exactly as many edges as their Manhattan distance. */
  lemma {:induction false} StaircaseWalk(n: int, m: int, g: AdjLists, a: int, b: int) returns (p: seq<int>)
    requires IsManhattanGraph(n, m, g) && 0 <= a < n * m && 0 <= b < n * m
    ensures IsWalkFromTo(g, p, a, b) && |p| == Distance(m, a, b) + 1
    decreases Distance(m, a, b)
  {
    if a == b {
      p := [a];
    } else {
      CodeCell(n, m, a);
      CodeCell(n, m, b);
      var (ai, aj, bi, bj) := (a / m, a % m, b / m, b % m);
      var (ci, cj) := if aj < bj then (ai, aj + 1) else if aj > bj then (ai, aj - 1)
        else if ai < bi then (ai + 1, aj) else (ai - 1, aj);
      Cell(n, m, ci, cj);
      var c := EncodePair(ci, cj, m);
      assert ai != bi || aj != bj;
      assert Distance(m, a, c) == 1 && Distance(m, c, b) == Distance(m, a, b) - 1;
      var q := StaircaseWalk(n, m, g, c, b);
      StoreValid(n, m, g);
      assert c in g[a];
      p := [a] + q;
      assert IsWalk(g, p) by {
        forall k | 0 <= k < |p| - 1 ensures p[k + 1] in g[p[k]] {
          if k > 0 {
            assert p[k] == q[k - 1] && p[k + 1] == q[k];
          }
        }
      }
    }
  }

  /** The extra list n * m is not reached from any cell. */
  lemma ExtraUnreached(n: int, m: int, g: AdjLists, sources: seq<int>)
    requires IsManhattanGraph(n, m, g) && forall k :: 0 <= k < |sources| ==> 0 <= sources[k] < n * m
    ensures !ReachableFromSet(g, sources, n * m)
  {
    if ReachableFromSet(g, sources, n * m) {
      var p :| IsWalkFromSet(g, sources, p, n * m);
      WalkAtLeastDistance(n, m, g, p);
    }
  }

  /** Every cell is reachable from a non-empty set of cells; nothing is reachable from none. */
  lemma CellsReachable(n: int, m: int, g: AdjLists, sources: seq<int>, t: int)
    requires IsManhattanGraph(n, m, g) && forall k :: 0 <= k < |sources| ==> 0 <= sources[k] < n * m
    requires 0 <= t < n * m
    ensures ReachableFromSet(g, sources, t) <==> sources != []
  {
    if sources != [] {
      var p := StaircaseWalk(n, m, g, sources[0], t);
      assert IsWalkFromSet(g, sources, p, t);
    }
  }

  /** No walk from the sources to t is shorter than the distance to the nearest source. */
  lemma WalkFromSourceBound(n: int, m: int, g: AdjLists, sources: seq<int>, p: seq<int>, t: int)
    requires IsManhattanGraph(n, m, g) && forall k :: 0 <= k < |sources| ==> 0 <= sources[k] < n * m
    requires IsWalkFromSet(g, sources, p, t)
    ensures 0 <= p[0] < n * m && p[0] in sources && Distance(m, p[0], t) <= |p| - 1
  {
    WalkAtLeastDistance(n, m, g, p);
  }

  /**
   * What the grid's BFS distances mean: with no subway every cell gets -1;
   * otherwise every cell gets the Manhattan distance to its nearest subway,
   * and the extra list n * m is never reached.
   */
  lemma NearestSubway(n: int, m: int, hasSub: seq<bool>, g: AdjLists, distances: seq<int>)
    requires n > 0 && m > 0 && |hasSub| == n * m && IsManhattanGraph(n, m, g) && |distances| == n * m + 1
    requires forall t :: 0 <= t < |distances| ==> distances[t] >= -1
    requires forall t :: 0 <= t < |distances| ==> (distances[t] >= 0 <==> ReachableFromSet(g, SubsBefore(hasSub, n * m), t))
    requires forall t, p :: 0 <= t < |distances| && IsWalkFromSet(g, SubsBefore(hasSub, n * m), p, t) ==> distances[t] <= |p| - 1
    requires forall t :: 0 <= t < |distances| && distances[t] >= 0 ==>
      exists p :: IsWalkFromSet(g, SubsBefore(hasSub, n * m), p, t) && |p| == distances[t] + 1
    ensures distances[n * m] == -1
    ensures forall t :: 0 <= t < n * m ==> (distances[t] == -1 <==> forall s :: 0 <= s < n * m ==> !hasSub[s])
    ensures forall t, s :: 0 <= t < n * m && 0 <= s < n * m && hasSub[s] ==> distances[t] <= Distance(m, s, t)
    ensures forall t :: 0 <= t < n * m && distances[t] >= 0 ==>
      exists s :: 0 <= s < n * m && hasSub[s] && distances[t] == Distance(m, s, t)
  {
    var subs := SubsBefore(hasSub, n * m);
    SubsBeforeMembers(hasSub, n * m);
    ExtraUnreached(n, m, g, subs);
    forall t, s | 0 <= t < n * m && 0 <= s < n * m && hasSub[s] ensures distances[t] <= Distance(m, s, t) {
      var p := StaircaseWalk(n, m, g, s, t);
      assert IsWalkFromSet(g, subs, p, t);
    }
    forall t | 0 <= t < n * m ensures distances[t] == -1 <==> forall s :: 0 <= s < n * m ==> !hasSub[s] {
      CellsReachable(n, m, g, subs, t);
      if subs != [] {
        assert subs[0] in subs;
      }
    }
    forall t | 0 <= t < n * m && distances[t] >= 0 ensures exists s :: 0 <= s < n * m && hasSub[s] && distances[t] == Distance(m, s, t) {
      var p :| IsWalkFromSet(g, subs, p, t) && |p| == distances[t] + 1;
      WalkFromSourceBound(n, m, g, subs, p, t);
      var q := StaircaseWalk(n, m, g, p[0], t);
      assert IsWalkFromSet(g, subs, q, t);
    }
  }

  /** main between input and output: the distances it prints, one per cell. */
  method FindSubways(n: int, m: int, hasSub: seq<bool>) returns (distances: seq<int>)
    requires n > 0 && m > 0 && |hasSub| == n * m
    ensures |distances| == n * m + 1
    ensures forall t :: 0 <= t < n * m ==> (distances[t] == -1 <==> forall s :: 0 <= s < n * m ==> !hasSub[s])
    ensures forall t, s :: 0 <= t < n * m && 0 <= s < n * m && hasSub[s] ==> distances[t] <= Distance(m, s, t)
    ensures forall t :: 0 <= t < n * m && distances[t] >= 0 ==>
      exists s :: 0 <= s < n * m && hasSub[s] && distances[t] == Distance(m, s, t)
  {
    var g;
    g, distances := ManhattanGraph(n, m, hasSub);
    NearestSubway(n, m, hasSub, g.lists, distances);
  }
}
