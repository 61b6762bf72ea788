/**
 * The three-colour depth-first search shared by the cycle check, the cycle
 * search and the topological sort: 0 is unvisited, 1 is on the current
 * search path, 2 is finished.  The facts here are stated once and used by
 * each program's own search.
 */
module Cycles {
  import opened Graphs
  import opened GraphStore

  /** s lists the vertices so that every edge between two of them goes forward. */
  ghost predicate Forward(g: AdjLists, s: seq<int>) {
    forall i, j :: 0 <= i < |s| && 0 <= j < |s| && 0 <= s[i] < |g| && s[j] in g[s[i]] ==> i < j
  }

  /** s is a topological order: every vertex once, every edge forward. */
  ghost predicate TopologicalOrder(g: AdjLists, s: seq<int>) {
    IsPermutation(s, |g|) && Forward(g, s)
  }

  /**
   * The colouring invariant of the search.  The grey vertices are exactly
   * those of the search path `stack`, a walk without repeats; the black
   * vertices are exactly those of `done`, once each, in an order where every
   * edge among them goes forward; and no edge leaves the black vertices.
   */
  ghost predicate Coloured(g: AdjLists, color: seq<int>, stack: seq<int>, done: seq<int>) {
    |color| == |g| && (stack == [] || IsWalk(g, stack)) && NoDup(stack) && NoDup(done) &&
    (forall x :: 0 <= x < |g| ==> 0 <= color[x] <= 2) &&
    (forall x :: 0 <= x < |g| ==> (color[x] == 1 <==> x in stack)) &&
    (forall i :: 0 <= i < |done| ==> 0 <= done[i] < |g| && color[done[i]] == 2) &&
    (forall x :: 0 <= x < |g| && color[x] == 2 ==> x in done) &&
    (forall x, u :: 0 <= x < |g| && color[x] == 2 && u in g[x] ==> 0 <= u < |g| && color[u] == 2) &&
    Forward(g, done)
  }

  /** Before any search: all white, empty path, nothing finished. */
  lemma ColouredStart(g: AdjLists)
    requires ValidGraph(g)
    ensures Coloured(g, seq(|g|, _ => 0), [], [])
  {
  }

  /** Colouring a white vertex grey, reached by an edge from the top of the path, extends the path. */
  lemma Enter(g: AdjLists, color: seq<int>, stack: seq<int>, done: seq<int>, v: int)
    requires ValidGraph(g) && Coloured(g, color, stack, done) && 0 <= v < |g| && color[v] == 0
    requires stack != [] ==> v in g[stack[|stack| - 1]]
    ensures Coloured(g, color[v := 1], stack + [v], done)
  {
    var s := stack + [v];
    if stack != [] {
      WalkConcat(g, stack, [stack[|stack| - 1], v]);
      assert stack + [stack[|stack| - 1], v][1..] == s;
    } else {
      assert IsWalk(g, s);
    }
    forall x | 0 <= x < |g| ensures color[v := 1][x] == 1 <==> x in s {
      assert x in s <==> x in stack || x == v;
    }
    forall i, j | 0 <= i < j < |s| ensures s[i] != s[j] {
      if j == |stack| {
        assert s[i] in stack;
      } else {
        assert s[i] == stack[i] && s[j] == stack[j];
      }
    }
    forall x | 0 <= x < |g| && color[v := 1][x] == 2 ensures x in done {
      assert x != v;
    }
  }

  /** An edge from the top of the path back to a grey vertex closes a cycle. */
  lemma BackEdge(g: AdjLists, color: seq<int>, stack: seq<int>, done: seq<int>, u: int)
    requires Coloured(g, color, stack, done) && stack != [] && 0 <= u < |g| && color[u] == 1
    requires u in g[stack[|stack| - 1]]
    ensures HasCycle(g)
  {
    var k :| 0 <= k < |stack| && stack[k] == u;
    var c := stack[k..] + [u];
    assert IsCycle(g, c) by {
      forall i | 0 <= i < |c| - 1 ensures c[i + 1] in g[c[i]] {
        if i < |stack| - k - 1 {
          assert c[i] == stack[k + i] && c[i + 1] == stack[k + i + 1];
        } else {
          assert c[i] == stack[|stack| - 1];
        }
      }
    }
  }

  /**
   * A grey vertex at the top of the path whose neighbours are all black is
   * finished: it turns black and goes in front of the finished vertices,
   * since all its edges lead to them and no edge leads from them to it.
   */
  lemma Finish(g: AdjLists, color: seq<int>, stack: seq<int>, done: seq<int>, v: int)
    requires ValidGraph(g) && Coloured(g, color, stack + [v], done) && 0 <= v < |g|
    requires forall u :: u in g[v] ==> color[u] == 2
    ensures Coloured(g, color[v := 2], stack, [v] + done)
  {
    var s := stack + [v];
    assert color[v] == 1 by {
      assert s[|stack|] == v;
    }
    assert v !in stack by {
      forall k | 0 <= k < |stack| ensures stack[k] != v {
        assert s[k] == stack[k] && s[|stack|] == v;
      }
    }
    if stack != [] {
      assert IsWalk(g, stack) by {
        forall i | 0 <= i < |stack| ensures 0 <= stack[i] < |g| {
          assert stack[i] == s[i];
        }
        forall i | 0 <= i < |stack| - 1 ensures stack[i + 1] in g[stack[i]] {
          assert stack[i] == s[i] && stack[i + 1] == s[i + 1];
        }
      }
    }
    assert NoDup(stack) by {
      forall i, j | 0 <= i < j < |stack| ensures stack[i] != stack[j] {
        assert stack[i] == s[i] && stack[j] == s[j];
      }
    }
    var d := [v] + done;
    assert v !in done;
    forall x | 0 <= x < |g| ensures color[v := 2][x] == 1 <==> x in stack {
      assert x in s <==> x in stack || x == v;
    }
    assert v !in g[v];
    assert forall x :: 0 <= x < |g| && color[x] == 2 ==> v !in g[x];
    forall i, j | 0 <= i < |d| && 0 <= j < |d| && 0 <= d[i] < |g| && d[j] in g[d[i]] ensures i < j {
      if i > 0 {
        assert d[i] == done[i - 1] && color[d[i]] == 2;
        if j > 0 {
          assert d[j] == done[j - 1];
        }
      }
    }
    forall x | 0 <= x < |g| && color[v := 2][x] == 2 ensures x in d {
      if x != v {
        assert x in done;
      }
    }
  }

  /** The index of a vertex in a sequence that contains it. */
  ghost function IndexOf(s: seq<int>, x: int): (i: int)
    requires x in s
    ensures 0 <= i < |s| && s[i] == x
  {
    var i :| 0 <= i < |s| && s[i] == x; i
  }

  /** Along a walk through vertices of s, positions in a forward order strictly increase. */
  lemma {:induction false} WalkGoesForward(g: AdjLists, s: seq<int>, p: seq<int>)
    requires Forward(g, s) && IsWalk(g, p) && |p| >= 2 && forall i :: 0 <= i < |p| ==> p[i] in s
    ensures IndexOf(s, p[0]) < IndexOf(s, p[|p| - 1])
    decreases |p|
  {
    var last := p[|p| - 1];
    var prev := p[|p| - 2];
    assert last in g[prev];
    if |p| > 2 {
      var q := p[..|p| - 1];
      assert IsWalk(g, q);
      WalkGoesForward(g, s, q);
    }
  }

  /** A graph with a topological order has no cycle. */
  lemma OrderedAcyclic(g: AdjLists, s: seq<int>)
    requires TopologicalOrder(g, s)
    ensures !HasCycle(g)
  {
    if p :| IsCycle(g, p) {
      WalkGoesForward(g, s, p);
    }
  }

  /** The elements of a sequence without repeats are as many as its length. */
  lemma {:induction false} DistinctCard(s: seq<int>)
    requires NoDup(s)
    ensures |set x | x in s| == |s|
    decreases |s|
  {
    if s != [] {
      var t := s[1..];
      assert NoDup(t);
      DistinctCard(t);
      assert (set x | x in s) == (set x | x in t) + {s[0]};
      assert s[0] !in t;
    }
  }

  /** Range(n) holds n vertices. */
  lemma {:induction false} RangeCard(n: nat)
    ensures |Range(n)| == n
    decreases n
  {
    if n > 0 {
      RangeCard(n - 1);
      var r := Range(n - 1);
      assert n - 1 !in r;
      assert Range(n) == r + {n - 1};
    }
  }

  /** A repeat-free sequence of vertices below n that misses v is shorter than n. */
  lemma ShortOfAll(s: seq<int>, n: nat, v: int)
    requires NoDup(s) && (forall i :: 0 <= i < |s| ==> 0 <= s[i] < n) && 0 <= v < n && v !in s
    ensures |s| < n
  {
    DistinctCard(s);
    RangeCard(n);
    var elems := set x | x in s;
    assert elems <= Range(n) - {v};
    SubsetCard(elems, Range(n) - {v});
  }

  /** When every vertex is finished, the finished order is a topological order. */
  lemma AllFinished(g: AdjLists, color: seq<int>, done: seq<int>)
    requires Coloured(g, color, [], done) && forall x :: 0 <= x < |g| ==> color[x] == 2
    ensures TopologicalOrder(g, done)
  {
    DistinctCard(done);
    RangeCard(|g|);
    assert (set x | x in done) == Range(|g|);
  }

  /** Colours only move forward: no vertex turns white again and a black vertex stays black. */
  ghost predicate Progressed(c0: seq<int>, c: seq<int>) {
    |c0| == |c| &&
    forall x :: 0 <= x < |c| ==> (c[x] == 0 ==> c0[x] == 0) && (c0[x] == 2 ==> c[x] == 2)
  }

  /**
   * The state of a search from v after its first k neighbours: v is grey
   * on top of `path`, those neighbours are black, `cur` are the finished
   * vertices, and the colours have only moved forward since the search of
   * v began with `color0`.
   */
  ghost predicate Scan(g: AdjLists, v: int, k: int, path: seq<int>, cur: seq<int>, color0: seq<int>, color: seq<int>) {
    ValidGraph(g) && 0 <= v < |g| && 0 <= k <= |g[v]| &&
    Coloured(g, color, path, cur) && color[v] == 1 && path != [] && path[|path| - 1] == v &&
    Progressed(color0, color) &&
    forall j :: 0 <= j < k ==> color[g[v][j]] == 2
  }

  /** Colouring the white vertex v grey starts the scan of its neighbours. */
  lemma ScanStart(g: AdjLists, v: int, stack: seq<int>, done: seq<int>, color0: seq<int>)
    requires ValidGraph(g) && Coloured(g, color0, stack, done) && 0 <= v < |g| && color0[v] == 0
    requires stack != [] ==> v in g[stack[|stack| - 1]]
    ensures Scan(g, v, 0, stack + [v], done, color0, color0[v := 1])
  {
    Enter(g, color0, stack, done, v);
  }

  /** A black neighbour needs nothing. */
  lemma ScanBlack(g: AdjLists, v: int, k: int, path: seq<int>, cur: seq<int>, color0: seq<int>, color: seq<int>)
    requires Scan(g, v, k, path, cur, color0, color) && k < |g[v]| && color[g[v][k]] == 2
    ensures Scan(g, v, k + 1, path, cur, color0, color)
  {
  }

  /** A white neighbour whose own search finished leaves the scan one step further. */
  lemma ScanChild(g: AdjLists, v: int, k: int, path: seq<int>, cur: seq<int>, color0: seq<int>, color1: seq<int>,
                  cur2: seq<int>, color2: seq<int>)
    requires Scan(g, v, k, path, cur, color0, color1) && k < |g[v]|
    requires Progressed(color1, color2) && Coloured(g, color2, path, cur2) && color2[g[v][k]] == 2
    ensures Scan(g, v, k + 1, path, cur2, color0, color2)
  {
    assert color2[v] == 1 by {
      assert path[|path| - 1] == v;
    }
  }

  /**
   * After the last neighbour v turns black and goes in front of the
   * finished vertices, of which there were fewer than all.
   */
  lemma ScanEnd(g: AdjLists, v: int, stack: seq<int>, cur: seq<int>, color0: seq<int>, color: seq<int>)
    requires 0 <= v < |g| && Scan(g, v, |g[v]|, stack + [v], cur, color0, color)
    ensures |cur| < |g| && Progressed(color0, color[v := 2])
    ensures Coloured(g, color[v := 2], stack, [v] + cur)
  {
    assert v !in cur;
    ShortOfAll(cur, |g|, v);
    forall u | u in g[v] ensures color[u] == 2 {
      var j :| 0 <= j < |g[v]| && g[v][j] == u;
    }
    Finish(g, color, stack, cur, v);
  }

  /** The state of the outer loop before vertex v: no search under way, every vertex below v finished. */
  ghost predicate Swept(g: AdjLists, v: int, color: seq<int>, done: seq<int>) {
    0 <= v <= |g| && Coloured(g, color, [], done) &&
    forall x :: 0 <= x < v ==> color[x] == 2
  }

  /** A vertex already coloured is black, as no search is under way. */
  lemma SweptSkip(g: AdjLists, v: int, color: seq<int>, done: seq<int>)
    requires Swept(g, v, color, done) && v < |g| && color[v] != 0
    ensures Swept(g, v + 1, color, done)
  {
  }

  /** A finished search from v keeps every vertex below v black and finishes v. */
  lemma SweptVisit(g: AdjLists, v: int, c1: seq<int>, d1: seq<int>, c2: seq<int>, d2: seq<int>)
    requires Swept(g, v, c1, d1) && v < |g|
    requires Progressed(c1, c2) && Coloured(g, c2, [], d2) && c2[v] == 2
    ensures Swept(g, v + 1, c2, d2)
  {
  }

  /** After the outer loop no graph with a cycle remains undetected. */
  lemma SweptAll(g: AdjLists, color: seq<int>, done: seq<int>)
    requires Swept(g, |g|, color, done)
    ensures TopologicalOrder(g, done) && !HasCycle(g)
  {
    AllFinished(g, color, done);
    OrderedAcyclic(g, done);
  }
}
