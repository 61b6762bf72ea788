/**
 * The cycle-finding program: a three-colour depth-first search that
 * records in `prev` the vertex each vertex was reached from.  Meeting a grey
 * vertex u from v records prev[u] = v and cycle_start = u, and the cycle is
 * read off by following prev from cycle_start back to itself; printed in
 * reverse it is a cycle of the graph.
 *
 * The search as written keeps scanning siblings after a child has found a
 * cycle (find_cycle_impl_ stores the child's answer in `ans` and goes on).
 * Vertices left grey by the successful child can then be met again from a
 * different path, overwriting prev and cycle_start.  `FindCycleAsWritten`
 * models that behaviour and `AsWrittenReadsOutside` exhibits a graph on which
 * the reconstruction reads prev[-1].  `FindCycle` is the evidently intended
 * search, which returns as soon as a child reports a cycle.
 */
module FindCycle {
  import opened Graphs
  import opened GraphStore
  import opened Cycles

  /** Along the search path each vertex after the first was reached from its predecessor. */
  ghost predicate Chain(prev: seq<int>, path: seq<int>) {
    forall i :: 1 <= i < |path| ==> 0 <= path[i] < |prev| && prev[path[i]] == path[i - 1]
  }

  /** Only vertices white in `colors0` have had their prev entry changed. */
  ghost predicate PrevKept(colors0: seq<int>, prev0: seq<int>, prev: seq<int>) {
    |prev0| == |prev| && |colors0| == |prev| &&
    forall x :: 0 <= x < |prev| && colors0[x] != 0 ==> prev[x] == prev0[x]
  }

  /**
   * c is what the reconstruction reads: c[0] is `start`, following prev
   * from each element gives the next and from the last gives start again,
   * and every step is an edge read backwards.
   */
  ghost predicate PrevCycle(g: AdjLists, prev: seq<int>, start: int, c: seq<int>) {
    |prev| == |g| && |c| >= 1 && c[0] == start && NoDup(c) &&
    (forall i :: 0 <= i < |c| ==> 0 <= c[i] < |g|) &&
    (forall i :: 0 <= i < |c| - 1 ==> prev[c[i]] == c[i + 1] && c[i] in g[c[i + 1]]) &&
    prev[c[|c| - 1]] == start && c[|c| - 1] in g[start]
  }

  /** A search that reports a cycle leaves cycle_start and prev reading off the cycle c. */
  ghost predicate Found(g: AdjLists, prev: seq<int>, start: int, c: seq<int>) {
    HasCycle(g) && 0 <= start < |g| && PrevCycle(g, prev, start, c)
  }

  /** c read from back to front is a cycle without repeated vertices. */
  ghost predicate BackwardCycle(g: AdjLists, c: seq<int>) {
    |c| >= 1 && NoDup(c) && (forall i :: 0 <= i < |c| ==> 0 <= c[i] < |g|) &&
    (forall i :: 0 <= i < |c| - 1 ==> c[i] in g[c[i + 1]]) && c[|c| - 1] in g[c[0]]
  }

  /** Printing such a sequence backwards and returning to its start closes a cycle. */
  lemma BackwardCycleIsCycle(g: AdjLists, c: seq<int>)
    requires BackwardCycle(g, c)
    ensures HasCycle(g)
  {
    var n := |c|;
    var p := seq(n + 1, i requires 0 <= i <= n => if i == 0 || i == n then c[0] else c[n - i]);
    forall i | 0 <= i < |p| - 1 ensures p[i + 1] in g[p[i]] {
      if i == 0 {
        assert p[1] == c[n - 1];
      } else {
        assert p[i] == c[n - i] && (p[i + 1] == c[n - i - 1] || i + 1 == n);
      }
    }
    assert IsCycle(g, p);
  }

  /** The vertices of the search path from position k to the top, top first, after path[k]. */
  ghost function PathCycle(path: seq<int>, k: int): (c: seq<int>)
    requires 0 <= k < |path|
    ensures |c| == |path| - k && c[0] == path[k]
    ensures forall i :: 1 <= i < |c| ==> c[i] == path[|path| - i]
  {
    [path[k]] + seq(|path| - 1 - k, i requires 0 <= i < |path| - 1 - k => path[|path| - 1 - i])
  }

  /**
   * An edge from the top of the path to its vertex path[k]: after
   * prev[path[k]] = top, following prev from path[k] runs down the path
   * and back to path[k].
   */
  lemma EventCycle(g: AdjLists, prev: seq<int>, path: seq<int>, k: int)
    requires |prev| == |g| && IsWalk(g, path) && NoDup(path) && Chain(prev, path)
    requires 0 <= k < |path| && path[k] in g[path[|path| - 1]]
    ensures PrevCycle(g, prev[path[k] := path[|path| - 1]], path[k], PathCycle(path, k))
  {
    var m := |path| - 1;
    var c := PathCycle(path, k);
    var p := prev[path[k] := path[m]];
    forall i, j | 0 <= i < j < |c| ensures c[i] != c[j] {
      assert c[j] == path[m + 1 - j];
      if i > 0 {
        assert c[i] == path[m + 1 - i];
      }
    }
    forall i | 0 <= i < |c| - 1 ensures p[c[i]] == c[i + 1] && c[i] in g[c[i + 1]] {
      assert c[i + 1] == path[m - i];
      if i > 0 {
        assert c[i] == path[m + 1 - i] && path[m + 1 - i] != path[k];
      }
    }
    var last := c[|c| - 1];
    if |c| > 1 {
      assert last == path[k + 1] && path[k + 1] != path[k];
    }
  }

  /** The search state of find_cycle_impl_ beyond the colours. */
  ghost predicate Traced(path: seq<int>, colorsIn: seq<int>, prevIn: seq<int>, colors: seq<int>, prev: seq<int>) {
    Chain(prev, path) && PrevKept(colorsIn, prevIn, prev) && Progressed(colorsIn, colors)
  }

  /** Recording prev[u] = v for a white neighbour u extends the chain to it and keeps the rest. */
  lemma TraceEnter(g: AdjLists, path: seq<int>, cur: seq<int>, colorsIn: seq<int>, prevIn: seq<int>,
                   colors: seq<int>, prev: seq<int>, u: int)
    requires Traced(path, colorsIn, prevIn, colors, prev) && Coloured(g, colors, path, cur) && path != []
    requires 0 <= u < |prev| && colors[u] == 0
    ensures Chain(prev[u := path[|path| - 1]], path + [u])
    ensures Traced(path, colorsIn, prevIn, colors, prev[u := path[|path| - 1]])
  {
    var p := path + [u];
    var prev' := prev[u := path[|path| - 1]];
    assert u !in path;
    forall i | 1 <= i < |p| ensures 0 <= p[i] < |prev| && prev'[p[i]] == p[i - 1] {
      if i < |path| {
        assert p[i] == path[i] && p[i - 1] == path[i - 1];
      }
    }
  }

  /** After that neighbour's search the path's entries are still in place. */
  lemma TraceReturn(g: AdjLists, path: seq<int>, cur: seq<int>, colorsIn: seq<int>, prevIn: seq<int>,
                    colors1: seq<int>, prev1: seq<int>, colors2: seq<int>, prev2: seq<int>)
    requires Traced(path, colorsIn, prevIn, colors1, prev1) && Coloured(g, colors1, path, cur)
    requires PrevKept(colors1, prev1, prev2) && Progressed(colors1, colors2)
    ensures Traced(path, colorsIn, prevIn, colors2, prev2)
  {
    forall i | 1 <= i < |path| ensures prev2[path[i]] == path[i - 1] {
      assert path[i] in path;
    }
  }

  /** What the search of v kept, seen from before v turned grey. */
  lemma TraceEnd(path: seq<int>, colors0: seq<int>, prevIn: seq<int>, v: int, colors: seq<int>, prev: seq<int>)
    requires 0 <= v < |colors0| && colors0[v] == 0 && Traced(path, colors0[v := 1], prevIn, colors, prev)
    ensures PrevKept(colors0, prevIn, prev)
  {
    assert forall x :: 0 <= x < |colors0| && colors0[x] != 0 ==> colors0[v := 1][x] != 0;
  }

  /**
   * find_cycle_impl_(g, v, colors, prev, cycle_start), returning as soon as
   * a cycle is found: v is white, prev leads along `stack + [v]` back to
   * its start.  On success cycle_start is `start` and following prev
   * from it reads the cycle `cyc`; otherwise v is black and only the prev
   * entries of white vertices were written.
   */
  method FindFrom(g: AdjLists, v: int, colors: array<int>, prev: array<int>,
                  ghost stack: seq<int>, ghost done: seq<int>)
    returns (found: bool, start: int, ghost done': seq<int>, ghost cyc: seq<int>)
    requires ValidGraph(g) && colors != prev && colors.Length == |g| && prev.Length == |g|
    requires Coloured(g, colors[..], stack, done) && 0 <= v < |g| && colors[v] == 0
    requires stack != [] ==> v in g[stack[|stack| - 1]]
    requires Chain(prev[..], stack + [v])
    modifies colors, prev
    ensures Progressed(old(colors[..]), colors[..])
    ensures found ==> Found(g, prev[..], start, cyc)
    ensures !found ==> start == -1 && Coloured(g, colors[..], stack, done') && colors[v] == 2
    ensures !found ==> PrevKept(old(colors[..]), old(prev[..]), prev[..])
    decreases |IndicesWith(colors[..], 0)|
  {
    ghost var colors0 := colors[..];
    ScanStart(g, v, stack, done, colors0);
    colors[v] := 1;
    ghost var path := stack + [v];
    ghost var colorsIn, prevIn := colors[..], prev[..];
    ghost var cur := done;
    var k := 0;
    while k < |g[v]|
      invariant Scan(g, v, k, path, cur, colors0, colors[..])
      invariant Traced(path, colorsIn, prevIn, colors[..], prev[..])
    {
      var u := g[v][k];
      if colors[u] == 1 {
        ghost var i :| 0 <= i < |path| && path[i] == u;
        BackEdge(g, colors[..], path, cur, u);
        EventCycle(g, prev[..], path, i);
        ghost var prevEv := prev[..];
        prev[u] := v;
        assert prev[..] == prevEv[u := v];
        return true, u, cur, PathCycle(path, i);
      }
      if colors[u] == 0 {
        FewerWith(colors0, colors[..], 0, v);
        TraceEnter(g, path, cur, colorsIn, prevIn, colors[..], prev[..], u);
        prev[u] := v;
        ghost var colors1, prev1, cur1 := colors[..], prev[..], cur;
        var ans;
        ans, start, cur, cyc := FindFrom(g, u, colors, prev, path, cur);
        if ans {
          return true, start, cur, cyc;
        }
        ScanChild(g, v, k, path, cur1, colors0, colors1, cur, colors[..]);
        TraceReturn(g, path, cur1, colorsIn, prevIn, colors1, prev1, colors[..], prev[..]);
      } else {
        ScanBlack(g, v, k, path, cur, colors0, colors[..]);
      }
      k := k + 1;
    }
    ScanEnd(g, v, stack, cur, colors0, colors[..]);
    TraceEnd(path, colors0, prevIn, v, colors[..], prev[..]);
    ghost var colorsEnd := colors[..];
    colors[v] := 2;
    assert colors[..] == colorsEnd[v := 2];
    found, start, done', cyc := false, -1, [v] + cur, [];
  }

  /** The reconstruction loop of find_cycle: push cycle_start, then follow prev until it comes back. */
  method ReadCycle(g: AdjLists, prev: array<int>, start: int, ghost c: seq<int>) returns (cycle: seq<int>)
    requires prev.Length == |g| && Found(g, prev[..], start, c)
    ensures cycle == c
  {
    cycle := [start];
    var w := prev[start];
    ghost var i := 1;
    while w != start
      invariant 1 <= i <= |c| && cycle == c[..i]
      invariant w == if i < |c| then c[i] else start
      invariant i < |c| ==> w != start
      decreases |c| - i
    {
      cycle := cycle + [w];
      w := prev[w];
      i := i + 1;
      if i < |c| {
        assert c[i] != c[0];
      }
    }
  }

  /**
   * find_cycle(g), with the search returning at the first cycle and
   * started only from white vertices: empty exactly when g has no cycle,
   * and otherwise a cycle of g without repeats, read backwards.
   */
  method FindCycle(g: AdjLists) returns (cycle: seq<int>)
    requires ValidGraph(g)
    ensures cycle == [] <==> !HasCycle(g)
    ensures cycle != [] ==> BackwardCycle(g, cycle)
  {
    var colors := new int[|g|](_ => 0);
    var prev := new int[|g|](_ => -1);
    var cycleStart := -1;
    ColouredStart(g);
    assert colors[..] == seq(|g|, _ => 0);
    ghost var done: seq<int> := [];
    ghost var c: seq<int> := [];
    var v := 0;
    while v < |g|
      invariant Swept(g, v, colors[..], done) && prev.Length == |g| && cycleStart == -1
    {
      if colors[v] == 0 {
        ghost var c1, d1 := colors[..], done;
        var found;
        found, cycleStart, done, c := FindFrom(g, v, colors, prev, [], done);
        if found {
          cycle := ReadCycle(g, prev, cycleStart, c);
          return;
        }
        SweptVisit(g, v, c1, d1, colors[..], done);
      } else {
        SweptSkip(g, v, colors[..], done);
      }
      v := v + 1;
    }
    SweptAll(g, colors[..], done);
    return [];
  }

  /** colors, prev and cycle_start of the search as written. */
  datatype Search = Search(colors: seq<int>, prev: seq<int>, start: int)

  /** The arrays have one cell per vertex. */
  ghost predicate Sized(g: AdjLists, s: Search) {
    |s.colors| == |g| && |s.prev| == |g|
  }

  /** Every prev entry is -1 or a vertex. */
  ghost predicate PrevsIn(g: AdjLists, prev: seq<int>) {
    forall x :: 0 <= x < |prev| ==> -1 <= prev[x] < |g|
  }

  /**
   * find_cycle_impl_(g, v, ...) as written: a child's answer is stored in
   * `ans` and the scan of v's neighbours goes on.  The search never turns a
   * vertex white again, and cycle_start is -1 or a vertex.
   */
  function ImplAsWritten(g: AdjLists, v: int, s: Search): (r: (bool, Search))
    requires ValidGraph(g) && 0 <= v < |g| && Sized(g, s)
    ensures Sized(g, r.1) && IndicesWith(r.1.colors, 0) <= IndicesWith(s.colors, 0)
    ensures r.1.start == s.start || 0 <= r.1.start < |g|
    ensures PrevsIn(g, s.prev) ==> PrevsIn(g, r.1.prev)
    decreases IndicesWith(s.colors[v := 1], 0), 1, 0
  {
    ScanAsWritten(g, v, 0, false, s.(colors := s.colors[v := 1]))
  }

  /** The loop of find_cycle_impl_ as written, from neighbour k on, with `ans` so far. */
  function ScanAsWritten(g: AdjLists, v: int, k: int, ans: bool, s: Search): (r: (bool, Search))
    requires ValidGraph(g) && 0 <= v < |g| && 0 <= k <= |g[v]| && Sized(g, s)
    ensures Sized(g, r.1) && IndicesWith(r.1.colors, 0) <= IndicesWith(s.colors, 0)
    ensures r.1.start == s.start || 0 <= r.1.start < |g|
    ensures PrevsIn(g, s.prev) ==> PrevsIn(g, r.1.prev)
    decreases IndicesWith(s.colors, 0), 0, |g[v]| - k
  {
    if k == |g[v]| then (ans, s.(colors := s.colors[v := 2]))
    else
      var u := g[v][k];
      if s.colors[u] == 1 then (true, s.(prev := s.prev[u := v], start := u))
      else if s.colors[u] == 0 then
        IndicesWithUpdate(s.colors, u, 1, 0);
        var r := ImplAsWritten(g, u, s.(prev := s.prev[u := v]));
        ScanAsWritten(g, v, k + 1, r.0, r.1)
      else ScanAsWritten(g, v, k + 1, ans, s)
  }

  /** The outer loop of find_cycle as written: a search from every vertex until one returns true. */
  function RunAsWritten(g: AdjLists, v: int, s: Search): (r: Search)
    requires ValidGraph(g) && 0 <= v <= |g| && Sized(g, s)
    ensures Sized(g, r) && (r.start == s.start || 0 <= r.start < |g|)
    ensures PrevsIn(g, s.prev) ==> PrevsIn(g, r.prev)
    decreases |g| - v
  {
    if v == |g| then s
    else
      var r := ImplAsWritten(g, v, s);
      if r.0 then r.1 else RunAsWritten(g, v + 1, r.1)
  }

  /** How the reconstruction loop ends. */
  datatype Reading =
    | NoCycle
    | Closed(cycle: seq<int>)
    | ReadsOutside(pushed: seq<int>, index: int)
    | Unfinished(pushed: seq<int>)

  /**
   * The reconstruction loop as written, w being the vertex just read from
   * prev: it stops at cycle_start, and otherwise pushes w and reads
   * prev[w], which is outside the array when w is not a vertex.  `fuel`
   * bounds the number of pushes modelled.
   */
  function FollowAsWritten(prev: seq<int>, start: int, w: int, pushed: seq<int>, fuel: nat): (r: Reading)
    ensures r != NoCycle
    ensures -1 <= w < |prev| && (forall x :: 0 <= x < |prev| ==> -1 <= prev[x] < |prev|) ==>
              (r.ReadsOutside? ==> r.index == -1)
    decreases fuel
  {
    if w == start then Closed(pushed)
    else if fuel == 0 then Unfinished(pushed)
    else if !(0 <= w < |prev|) then ReadsOutside(pushed + [w], w)
    else FollowAsWritten(prev, start, prev[w], pushed + [w], fuel - 1)
  }

  /** The grey vertices are exactly those of `path`, which is empty or a walk of g. */
  ghost predicate GreyPath(g: AdjLists, colors: seq<int>, path: seq<int>) {
    (path == [] || IsWalk(g, path)) &&
    forall x :: 0 <= x < |colors| ==> (colors[x] == 1 <==> x in path)
  }

  /** A black vertex has no white neighbour. */
  ghost predicate BlackClosed(g: AdjLists, colors: seq<int>) {
    |colors| == |g| &&
    forall x, k :: 0 <= x < |g| && colors[x] == 2 && 0 <= k < |g[x]| && 0 <= g[x][k] < |g| ==> colors[g[x][k]] != 0
  }

  /** An edge from the end of a walk back to one of its vertices closes a cycle. */
  lemma WalkBackEdge(g: AdjLists, path: seq<int>, u: int)
    requires IsWalk(g, path) && u in path && u in g[path[|path| - 1]]
    ensures HasCycle(g)
  {
    var k :| 0 <= k < |path| && path[k] == u;
    var c := path[k..] + [u];
    assert IsCycle(g, c) by {
      forall i | 0 <= i < |c| - 1 ensures c[i + 1] in g[c[i]] {
        if i < |path| - k - 1 {
          assert c[i] == path[k + i] && c[i + 1] == path[k + i + 1];
        } else {
          assert c[i] == path[|path| - 1];
        }
      }
    }
  }

  /**
   * On an acyclic graph the search as written from a vertex that is not
   * grey meets no grey vertex: it answers false, leaves cycle_start at -1,
   * and leaves exactly the path grey and every black vertex closed.
   */
  lemma {:induction false} ImplAcyclic(g: AdjLists, v: int, s: Search, path: seq<int>)
    requires ValidGraph(g) && 0 <= v < |g| && Sized(g, s) && !HasCycle(g)
    requires GreyPath(g, s.colors, path) && BlackClosed(g, s.colors) && s.colors[v] != 1 && s.start == -1
    requires path != [] ==> v in g[path[|path| - 1]]
    ensures !ImplAsWritten(g, v, s).0 && ImplAsWritten(g, v, s).1.start == -1
    ensures GreyPath(g, ImplAsWritten(g, v, s).1.colors, path) && BlackClosed(g, ImplAsWritten(g, v, s).1.colors)
    decreases IndicesWith(s.colors[v := 1], 0), 1, 0
  {
    var p := path + [v];
    assert p[..|p| - 1] == path;
    assert IsWalk(g, p) by {
      if path != [] {
        forall i | 0 <= i < |p| - 1 ensures p[i + 1] in g[p[i]] {
          if i < |path| - 1 {
            assert p[i] == path[i] && p[i + 1] == path[i + 1];
          }
        }
      }
    }
    ScanAcyclic(g, v, 0, s.(colors := s.colors[v := 1]), p);
  }

  /** The neighbour loop of that search, from entry k on, with every earlier entry already not white. */
  lemma {:induction false} ScanAcyclic(g: AdjLists, v: int, k: int, s: Search, p: seq<int>)
    requires ValidGraph(g) && 0 <= v < |g| && 0 <= k <= |g[v]| && Sized(g, s) && !HasCycle(g)
    requires p != [] && p[|p| - 1] == v && v !in p[..|p| - 1] && GreyPath(g, s.colors, p)
    requires BlackClosed(g, s.colors) && s.start == -1
    requires forall j :: 0 <= j < k ==> s.colors[g[v][j]] != 0
    ensures !ScanAsWritten(g, v, k, false, s).0 && ScanAsWritten(g, v, k, false, s).1.start == -1
    ensures GreyPath(g, ScanAsWritten(g, v, k, false, s).1.colors, p[..|p| - 1])
    ensures BlackClosed(g, ScanAsWritten(g, v, k, false, s).1.colors)
    decreases IndicesWith(s.colors, 0), 0, |g[v]| - k
  {
    if k == |g[v]| {
      var colors := s.colors[v := 2];
      var path := p[..|p| - 1];
      assert path == [] || IsWalk(g, path) by {
        if path != [] {
          forall i | 0 <= i < |path| - 1 ensures path[i + 1] in g[path[i]] {
            assert path[i] == p[i] && path[i + 1] == p[i + 1];
          }
        }
      }
      forall x | 0 <= x < |colors| ensures colors[x] == 1 <==> x in path {
        assert x in p <==> x in path || x == v;
      }
      forall x, j | 0 <= x < |g| && colors[x] == 2 && 0 <= j < |g[x]| && 0 <= g[x][j] < |g|
        ensures colors[g[x][j]] != 0
      {
        if x != v {
          assert s.colors[x] == 2;
        }
      }
    } else {
      var u := g[v][k];
      if s.colors[u] == 1 {
        WalkBackEdge(g, p, u);
        assert false;
      } else if s.colors[u] == 0 {
        IndicesWithUpdate(s.colors, u, 1, 0);
        var s1 := s.(prev := s.prev[u := v]);
        ImplAcyclic(g, u, s1, p);
        var r := ImplAsWritten(g, u, s1);
        assert IndicesWith(r.1.colors, 0) <= IndicesWith(s1.colors[u := 1], 0);
        forall j | 0 <= j < k + 1 ensures r.1.colors[g[v][j]] != 0 {
          assert g[v][j] !in IndicesWith(s1.colors[u := 1], 0);
        }
        ScanAcyclic(g, v, k + 1, r.1, p);
      } else {
        ScanAcyclic(g, v, k + 1, s, p);
      }
    }
  }

  /** The outer loop as written on an acyclic graph, with no vertex grey: cycle_start stays -1. */
  lemma {:induction false} RunAcyclic(g: AdjLists, v: int, s: Search)
    requires ValidGraph(g) && 0 <= v <= |g| && Sized(g, s) && !HasCycle(g)
    requires GreyPath(g, s.colors, []) && BlackClosed(g, s.colors) && s.start == -1
    ensures RunAsWritten(g, v, s).start == -1
    decreases |g| - v
  {
    if v < |g| {
      assert s.colors[v] != 1;
      ImplAcyclic(g, v, s, []);
      RunAcyclic(g, v + 1, ImplAsWritten(g, v, s).1);
    }
  }

  /** From the all-white start, an acyclic graph leaves cycle_start at -1. */
  lemma AcyclicStartsNone(g: AdjLists)
    requires ValidGraph(g)
    ensures !HasCycle(g) ==> RunAsWritten(g, 0, Search(seq(|g|, _ => 0), seq(|g|, _ => -1), -1)).start == -1
  {
    if !HasCycle(g) {
      RunAcyclic(g, 0, Search(seq(|g|, _ => 0), seq(|g|, _ => -1), -1));
    }
  }

  /**
   * find_cycle(g) as written, its reconstruction bounded by `fuel` pushes:
   * an acyclic graph gives the empty answer, and when the walk back through
   * prev leaves the array it does so by reading prev[-1].
   */
  function FindCycleAsWritten(g: AdjLists, fuel: nat): (r: Reading)
    requires ValidGraph(g)
    ensures !HasCycle(g) ==> r == NoCycle
    ensures r.ReadsOutside? ==> r.index == -1
  {
    AcyclicStartsNone(g);
    var s := RunAsWritten(g, 0, Search(seq(|g|, _ => 0), seq(|g|, _ => -1), -1));
    if s.start == -1 then NoCycle
    else FollowAsWritten(s.prev, s.start, s.prev[s.start], [s.start], fuel)
  }

  /** The graph 0 -> 1, 0 -> 3, 1 -> 2, 2 -> 1, 3 -> 2, with 0 scanning 1 first. */
  const UpFirst: AdjLists := [[1, 3], [2], [1], [2]]

  /** The same graph with 0 scanning 3 first. */
  const DownFirst: AdjLists := [[3, 1], [2], [1], [2]]

  lemma ExamplesValid()
    ensures ValidGraph(UpFirst) && ValidGraph(DownFirst)
    ensures IsCycle(UpFirst, [1, 2, 1]) && IsCycle(DownFirst, [1, 2, 1])
  {
  }

  /** In UpFirst, 2 meets the grey 1: cycle_start = 1. */
  lemma UpVisit1()
    ensures ValidGraph(UpFirst)
    ensures ImplAsWritten(UpFirst, 1, Search([1, 0, 0, 0], [-1, 0, -1, -1], -1)) == (true, Search([1, 2, 1, 0], [-1, 2, 1, -1], 1))
  {
    ExamplesValid();
    var g := UpFirst;
    assert [1, 1, 0, 0][2 := 1] == [1, 1, 1, 0] && [-1, 0, 1, -1][1 := 2] == [-1, 2, 1, -1];
    assert ScanAsWritten(g, 2, 0, false, Search([1, 1, 1, 0], [-1, 0, 1, -1], -1)) == (true, Search([1, 1, 1, 0], [-1, 2, 1, -1], 1));
    assert ImplAsWritten(g, 2, Search([1, 1, 0, 0], [-1, 0, 1, -1], -1)) == (true, Search([1, 1, 1, 0], [-1, 2, 1, -1], 1));
    assert [1, 0, 0, 0][1 := 1] == [1, 1, 0, 0] && [-1, 0, -1, -1][2 := 1] == [-1, 0, 1, -1] && [1, 1, 1, 0][1 := 2] == [1, 2, 1, 0];
    assert ScanAsWritten(g, 1, 1, true, Search([1, 1, 1, 0], [-1, 2, 1, -1], 1)) == (true, Search([1, 2, 1, 0], [-1, 2, 1, -1], 1));
    assert ScanAsWritten(g, 1, 0, false, Search([1, 1, 0, 0], [-1, 0, -1, -1], -1)) == (true, Search([1, 2, 1, 0], [-1, 2, 1, -1], 1));
  }

  /** In UpFirst, 1 and 2 are left grey, and the later sibling 3 meets the grey 2: cycle_start = 2. */
  lemma UpVisit0()
    ensures ValidGraph(UpFirst)
    ensures ImplAsWritten(UpFirst, 0, Search([0, 0, 0, 0], [-1, -1, -1, -1], -1)) == (true, Search([2, 2, 1, 1], [-1, 2, 3, 0], 2))
  {
    UpVisit1();
    var g := UpFirst;
    assert [1, 2, 1, 0][3 := 1] == [1, 2, 1, 1] && [-1, 2, 1, 0][2 := 3] == [-1, 2, 3, 0];
    assert ScanAsWritten(g, 3, 0, false, Search([1, 2, 1, 1], [-1, 2, 1, 0], 1)) == (true, Search([1, 2, 1, 1], [-1, 2, 3, 0], 2));
    assert ImplAsWritten(g, 3, Search([1, 2, 1, 0], [-1, 2, 1, 0], 1)) == (true, Search([1, 2, 1, 1], [-1, 2, 3, 0], 2));
    assert [0, 0, 0, 0][0 := 1] == [1, 0, 0, 0] && [-1, -1, -1, -1][1 := 0] == [-1, 0, -1, -1];
    assert [-1, 2, 1, -1][3 := 0] == [-1, 2, 1, 0] && [1, 2, 1, 1][0 := 2] == [2, 2, 1, 1];
    assert ScanAsWritten(g, 0, 2, true, Search([1, 2, 1, 1], [-1, 2, 3, 0], 2)) == (true, Search([2, 2, 1, 1], [-1, 2, 3, 0], 2));
    assert ScanAsWritten(g, 0, 1, true, Search([1, 2, 1, 0], [-1, 2, 1, -1], 1)) == (true, Search([2, 2, 1, 1], [-1, 2, 3, 0], 2));
    assert ScanAsWritten(g, 0, 0, false, Search([1, 0, 0, 0], [-1, -1, -1, -1], -1)) == (true, Search([2, 2, 1, 1], [-1, 2, 3, 0], 2));
  }

  /** In DownFirst, the search 0 -> 3 -> 2 -> 1 meets the grey 2: cycle_start = 2. */
  lemma DownVisit3()
    ensures ValidGraph(DownFirst)
    ensures ImplAsWritten(DownFirst, 3, Search([1, 0, 0, 0], [-1, -1, -1, 0], -1)) == (true, Search([1, 1, 2, 2], [-1, 2, 1, 0], 2))
  {
    ExamplesValid();
    var h := DownFirst;
    assert [1, 0, 1, 1][1 := 1] == [1, 1, 1, 1] && [-1, 2, 3, 0][2 := 1] == [-1, 2, 1, 0];
    assert ScanAsWritten(h, 1, 0, false, Search([1, 1, 1, 1], [-1, 2, 3, 0], -1)) == (true, Search([1, 1, 1, 1], [-1, 2, 1, 0], 2));
    assert ImplAsWritten(h, 1, Search([1, 0, 1, 1], [-1, 2, 3, 0], -1)) == (true, Search([1, 1, 1, 1], [-1, 2, 1, 0], 2));
    assert [1, 0, 0, 1][2 := 1] == [1, 0, 1, 1] && [-1, -1, 3, 0][1 := 2] == [-1, 2, 3, 0] && [1, 1, 1, 1][2 := 2] == [1, 1, 2, 1];
    assert ScanAsWritten(h, 2, 1, true, Search([1, 1, 1, 1], [-1, 2, 1, 0], 2)) == (true, Search([1, 1, 2, 1], [-1, 2, 1, 0], 2));
    assert ScanAsWritten(h, 2, 0, false, Search([1, 0, 1, 1], [-1, -1, 3, 0], -1)) == (true, Search([1, 1, 2, 1], [-1, 2, 1, 0], 2));
    assert ImplAsWritten(h, 2, Search([1, 0, 0, 1], [-1, -1, 3, 0], -1)) == (true, Search([1, 1, 2, 1], [-1, 2, 1, 0], 2));
    assert [1, 0, 0, 0][3 := 1] == [1, 0, 0, 1] && [-1, -1, -1, 0][2 := 3] == [-1, -1, 3, 0] && [1, 1, 2, 1][3 := 2] == [1, 1, 2, 2];
    assert ScanAsWritten(h, 3, 1, true, Search([1, 1, 2, 1], [-1, 2, 1, 0], 2)) == (true, Search([1, 1, 2, 2], [-1, 2, 1, 0], 2));
    assert ScanAsWritten(h, 3, 0, false, Search([1, 0, 0, 1], [-1, -1, -1, 0], -1)) == (true, Search([1, 1, 2, 2], [-1, 2, 1, 0], 2));
  }

  /** In DownFirst, 1 is left grey, and the later edge 0 -> 1 meets it: cycle_start = 1. */
  lemma DownVisit0()
    ensures ValidGraph(DownFirst)
    ensures ImplAsWritten(DownFirst, 0, Search([0, 0, 0, 0], [-1, -1, -1, -1], -1)) == (true, Search([1, 1, 2, 2], [-1, 0, 1, 0], 1))
  {
    DownVisit3();
    var h := DownFirst;
    assert [0, 0, 0, 0][0 := 1] == [1, 0, 0, 0] && [-1, -1, -1, -1][3 := 0] == [-1, -1, -1, 0] && [-1, 2, 1, 0][1 := 0] == [-1, 0, 1, 0];
    assert ScanAsWritten(h, 0, 1, true, Search([1, 1, 2, 2], [-1, 2, 1, 0], 2)) == (true, Search([1, 1, 2, 2], [-1, 0, 1, 0], 1));
    assert ScanAsWritten(h, 0, 0, false, Search([1, 0, 0, 0], [-1, -1, -1, -1], -1)) == (true, Search([1, 1, 2, 2], [-1, 0, 1, 0], 1));
  }

  /**
   * UpFirst and DownFirst have the cycle 1 -> 2 -> 1, yet with either order
   * of 0's two neighbours the search as written is misled by the vertices
   * its first cycle left grey, and the reconstruction reaches prev[-1].
   */
  lemma AsWrittenReadsOutside()
    ensures ValidGraph(UpFirst) && HasCycle(UpFirst) && ValidGraph(DownFirst) && HasCycle(DownFirst)
    ensures FindCycleAsWritten(UpFirst, 4) == ReadsOutside([2, 3, 0, -1], -1)
    ensures FindCycleAsWritten(DownFirst, 4) == ReadsOutside([1, 0, -1], -1)
  {
    ExamplesValid();
    UpVisit0();
    DownVisit0();
    var init := Search(seq(4, _ => 0), seq(4, _ => -1), -1);
    assert init == Search([0, 0, 0, 0], [-1, -1, -1, -1], -1);
    assert RunAsWritten(UpFirst, 0, init) == Search([2, 2, 1, 1], [-1, 2, 3, 0], 2);
    assert FollowAsWritten([-1, 2, 3, 0], 2, 3, [2], 4) == ReadsOutside([2, 3, 0, -1], -1);
    assert RunAsWritten(DownFirst, 0, init) == Search([1, 1, 2, 2], [-1, 0, 1, 0], 1);
    assert FollowAsWritten([-1, 0, 1, 0], 1, 0, [1], 4) == ReadsOutside([1, 0, -1], -1);
  }
}
