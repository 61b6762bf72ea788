/**
 * The multicoloured-graph program: every pair of cities i < j is joined by
 * a road of colour R or B.  The program orients each R road i -> j and each
 * B road j -> i and answers YES exactly when the resulting tournament has
 * no cycle, decided by the three-colour search.
 */
module Multicolored {
  import opened Graphs
  import opened GraphStore
  import opened Cycles

  /**
   * has_cycle_impl_(g, v, colors): the search from the white vertex v,
   * entered from the top of the search path `stack`.  A reported cycle is
   * a real one; otherwise v and everything reached is black.
   */
  method HasCycleFrom(g: AdjLists, v: int, colors: array<int>, ghost stack: seq<int>, ghost done: seq<int>)
    returns (cycle: bool, ghost done': seq<int>)
    requires ValidGraph(g) && colors.Length == |g|
    requires Coloured(g, colors[..], stack, done) && 0 <= v < |g| && colors[v] == 0
    requires stack != [] ==> v in g[stack[|stack| - 1]]
    modifies colors
    ensures Progressed(old(colors[..]), colors[..])
    ensures cycle ==> HasCycle(g)
    ensures !cycle ==> Coloured(g, colors[..], stack, done') && colors[v] == 2
    decreases |IndicesWith(colors[..], 0)|
  {
    ghost var colors0 := colors[..];
    ScanStart(g, v, stack, done, colors0);
    colors[v] := 1;
    ghost var path := stack + [v];
    ghost var cur := done;
    var k := 0;
    while k < |g[v]|
      invariant Scan(g, v, k, path, cur, colors0, colors[..])
    {
      var u := g[v][k];
      if colors[u] == 1 {
        BackEdge(g, colors[..], path, cur, u);
        return true, cur;
      }
      if colors[u] == 0 {
        FewerWith(colors0, colors[..], 0, v);
        ghost var colors1, cur1 := colors[..], cur;
        var found;
        found, cur := HasCycleFrom(g, u, colors, path, cur);
        if found {
          return true, cur;
        }
        ScanChild(g, v, k, path, cur1, colors0, colors1, cur, colors[..]);
      } else {
        ScanBlack(g, v, k, path, cur, colors0, colors[..]);
      }
      k := k + 1;
    }
    ScanEnd(g, v, stack, cur, colors0, colors[..]);
    colors[v] := 2;
    cycle, done' := false, [v] + cur;
  }

  /** has_cycle(g): a search from every still-white vertex; true exactly when g has a cycle. */
  method HasCycleCheck(g: AdjLists) returns (b: bool)
    requires ValidGraph(g)
    ensures b <==> HasCycle(g)
  {
    var colors := new int[|g|](_ => 0);
    ColouredStart(g);
    assert colors[..] == seq(|g|, _ => 0);
    ghost var done: seq<int> := [];
    var v := 0;
    while v < |g|
      invariant Swept(g, v, colors[..], done)
    {
      if colors[v] == 0 {
        ghost var c1, d1 := colors[..], done;
        var found;
        found, done := HasCycleFrom(g, v, colors, [], done);
        if found {
          return true;
        }
        SweptVisit(g, v, c1, d1, colors[..], done);
      } else {
        SweptSkip(g, v, colors[..], done);
      }
      v := v + 1;
    }
    SweptAll(g, colors[..], done);
    return false;
  }

  /** Row i of the input holds the colours of the roads from i to i+1, i+2, ..., n-1. */
  ghost predicate RowsShape(n: int, rows: seq<string>) {
    |rows| == (if n >= 1 then n - 1 else 0) &&
    forall i :: 0 <= i < |rows| ==> |rows[i]| == n - 1 - i
  }

  /** The road v -> u of the tournament: R roads go up, all others go down. */
  ghost predicate Road(n: int, rows: seq<string>, v: int, u: int)
    requires RowsShape(n, rows)
  {
    (0 <= v < u < n && rows[v][u - v - 1] == 'R') || (0 <= u < v < n && rows[u][v - u - 1] != 'R')
  }

  /** The pair {v, u} comes before the k-th road of row i in reading order. */
  ghost predicate Read(i: int, k: int, v: int, u: int) {
    var lo := if v < u then v else u;
    var hi := if v < u then u else v;
    lo < i || (lo == i && hi < i + 1 + k)
  }

  /** The lists hold each road read so far exactly once and nothing else. */
  ghost predicate Built(n: int, rows: seq<string>, lists: seq<seq<int>>, i: int, k: int)
    requires RowsShape(n, rows)
  {
    |lists| == n &&
    forall v, u :: 0 <= v < n ==> Count(lists[v], u) == if Road(n, rows, v, u) && Read(i, k, v, u) then 1 else 0
  }

  /** Appending the road for the pair (i, i+1+k) reads one more road. */
  lemma BuiltStep(n: int, rows: seq<string>, lists: seq<seq<int>>, i: int, k: int)
    requires RowsShape(n, rows) && 0 <= i < |rows| && 0 <= k < |rows[i]| && Built(n, rows, lists, i, k)
    ensures var next := i + 1 + k;
      var from := if rows[i][k] == 'R' then i else next;
      var to := if rows[i][k] == 'R' then next else i;
      Built(n, rows, EdgeAdded(lists, from, to, true, false), i, k + 1)
  {
    var next := i + 1 + k;
    var from := if rows[i][k] == 'R' then i else next;
    var to := if rows[i][k] == 'R' then next else i;
    var lists' := EdgeAdded(lists, from, to, true, false);
    assert lists'[from] == lists[from] + [to];
    forall v, u | 0 <= v < n
      ensures Count(lists'[v], u) == if Road(n, rows, v, u) && Read(i, k + 1, v, u) then 1 else 0
    {
      if v == from {
        CountAppend(lists[from], to, u);
      }
    }
  }

  /** The end of row i is the start of row i + 1. */
  lemma BuiltRow(n: int, rows: seq<string>, lists: seq<seq<int>>, i: int)
    requires RowsShape(n, rows) && 0 <= i < |rows| && Built(n, rows, lists, i, |rows[i]|)
    ensures Built(n, rows, lists, i + 1, 0)
  {
    forall v, u | 0 <= v < n && Road(n, rows, v, u)
      ensures Read(i, |rows[i]|, v, u) <==> Read(i + 1, 0, v, u)
    {
    }
  }

  /** The inner loop of main: one road per character of row i, in order. */
  method AddRow(g: AdjListsGraph, n: int, rows: seq<string>, i: int)
    requires RowsShape(n, rows) && 0 <= i < |rows|
    requires g.Valid() && g.directed && !g.asSet && g.extra == 0 && Built(n, rows, g.lists, i, 0)
    modifies g
    ensures g.Valid() && g.nVertices == old(g.nVertices) && Built(n, rows, g.lists, i + 1, 0)
  {
    var next := i + 1;
    var k := 0;
    while k < |rows[i]|
      invariant 0 <= k <= |rows[i]| && next == i + 1 + k
      invariant g.Valid() && g.nVertices == old(g.nVertices) && Built(n, rows, g.lists, i, k)
    {
      BuiltStep(n, rows, g.lists, i, k);
      if rows[i][k] == 'R' {
        g.AddEdge(i, next);
      } else {
        g.AddEdge(next, i);
      }
      next := next + 1;
      k := k + 1;
    }
    BuiltRow(n, rows, g.lists, i);
  }

  /**
   * main, without its I/O: the directed vector store of the tournament,
   * and the answer YES exactly when it has no cycle.  Each road is stored
   * once, in the direction its colour gives.
   */
  method Multicolored(n: nat, rows: seq<string>) returns (g: AdjListsGraph, yes: bool)
    requires RowsShape(n, rows)
    ensures g.Valid() && |g.lists| == n
    ensures forall v, u :: 0 <= v < n ==> Count(g.lists[v], u) == if Road(n, rows, v, u) then 1 else 0
    ensures forall v, u :: 0 <= v < n && 0 <= u < n && v != u ==> (u in g.lists[v] <==> v !in g.lists[u])
    ensures yes <==> !HasCycle(g.lists)
  {
    g := new AdjListsGraph(n, true, false, false);
    var i := 0;
    while i < n - 1
      invariant 0 <= i && (n >= 1 ==> i <= n - 1)
      invariant g.Valid() && g.directed && !g.asSet && g.extra == 0 && g.nVertices == n
      invariant Built(n, rows, g.lists, i, 0)
    {
      AddRow(g, n, rows, i);
      i := i + 1;
    }
    forall v, u | 0 <= v < n && Road(n, rows, v, u) ensures Read(i, 0, v, u) {
    }
    forall v, k | 0 <= v < n && 0 <= k < |g.lists[v]| ensures 0 <= g.lists[v][k] < n {
      assert Count(g.lists[v], g.lists[v][k]) != 0;
    }
    forall v, u | 0 <= v < n && 0 <= u < n && v != u ensures u in g.lists[v] <==> v !in g.lists[u] {
      assert Count(g.lists[v], u) != 0 <==> Road(n, rows, v, u);
      assert Count(g.lists[u], v) != 0 <==> Road(n, rows, u, v);
    }
    var cycle := HasCycleCheck(g.lists);
    yes := !cycle;
  }
}
