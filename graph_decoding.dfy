/**
 * The graph-decoding program: an unknown permutation of the vertices is
 * given by, for every edge, the sum of the values of its two ends (the
 * edge's code).  `EncodedGraph` stores one code per half-edge next to the
 * edge-id store; a depth-first search from a start vertex `init` writes,
 * for every vertex it reaches, a dependency (sign, offset) meaning
 * value = (sign ? -x : x) + offset, where x is the value of `init`; a
 * vertex reached twice with opposite signs fixes x.  Otherwise x is
 * guessed from the largest offset of either sign, and `can_apply_` checks
 * that the values it gives form a permutation.
 */
module GraphDecoding {
  import opened Graphs
  import opened GraphStore
  import opened EdgeGraph
  import Cycles

  /** dependency_t: the value of a vertex as a function of x, the value of init. */
  datatype Dependency = Dependency(sign: bool, offset: int)

  function Value(d: Dependency, x: int): int {
    (if d.sign then -x else x) + d.offset
  }

  /** The sign written as a factor of -1 or 1, as can_apply_ computes the value. */
  lemma SignedValue(d: Dependency, x: int)
    ensures (if d.sign then -1 else 1) * x + d.offset == Value(d, x)
  {
  }

  /** std::abs. */
  function Abs(a: int): (r: int)
    ensures r >= 0 && (r == a || r == -a)
  {
    if a < 0 then -a else a
  }

  /** The dependency an edge of code c gives its head when its tail has dependency d: c minus the tail's value. */
  function Across(d: Dependency, c: int): (d': Dependency)
    ensures d'.sign != d.sign
    ensures forall x :: Value(d', x) == c - Value(d, x)
  {
    Dependency(!d.sign, c - d.offset)
  }

  /** Id lists adj, heads ends and per-id codes fit together: every listed id has a head that is a vertex and a code. */
  ghost predicate Fits(adj: seq<seq<int>>, ends: seq<int>, codes: seq<int>) {
    forall v, k :: 0 <= v < |adj| && 0 <= k < |adj[v]| ==>
      0 <= adj[v][k] < |ends| && adj[v][k] < |codes| && 0 <= ends[adj[v][k]] < |adj|
  }

  /** What the search has written: the visited marks, the dependencies and the running answer. */
  datatype Search = Search(visited: seq<bool>, deps: seq<Dependency>, answer: int)

  /** The unmarked vertices other than v: the measure of the recursion. */
  ghost function Unvisited(visited: seq<bool>, v: int): set<int> {
    set w | 0 <= w < |visited| && w != v && !visited[w]
  }

  /** r keeps every mark of visited and the dependency of every marked vertex. */
  ghost predicate Kept(visited: seq<bool>, deps: seq<Dependency>, r: Search) {
    && |r.visited| == |visited| && |r.deps| == |deps|
    && forall w :: 0 <= w < |visited| && visited[w] ==> r.visited[w] && w < |deps| && r.deps[w] == deps[w]
  }

  lemma KeptFewer(visited: seq<bool>, deps: seq<Dependency>, r: Search, v: int)
    requires Kept(visited, deps, r)
    ensures |Unvisited(r.visited, v)| <= |Unvisited(visited, v)|
  {
    SubsetCard(Unvisited(r.visited, v), Unvisited(visited, v));
  }

  lemma EnterFewer(visited: seq<bool>, v: int, u: int)
    requires 0 <= v < |visited| && 0 <= u < |visited| && visited[v] && !visited[u]
    ensures |Unvisited(visited, u)| < |Unvisited(visited, v)|
  {
    assert Unvisited(visited, u) == Unvisited(visited, v) - {u};
  }

  /**
   * find_dependencies_or_answer_dfs_(v, ...): mark v, then scan v's edges in
   * id order with a fresh answer of -1; dep is the dependency passed for v.
   * With keep, a child's answer of -1 does not overwrite one already found
   * (see ScanStep).
   */
  ghost function Dfs(adj: seq<seq<int>>, ends: seq<int>, codes: seq<int>, v: int, dep: Dependency,
                     visited: seq<bool>, deps: seq<Dependency>, keep: bool): (r: Search)
    requires Fits(adj, ends, codes) && 0 <= v < |adj| && |visited| == |adj| && |deps| == |adj|
    ensures Kept(visited[v := true], deps, r) && r.visited[v]
    decreases |Unvisited(visited, v)|, |adj[v]| + 1, 0
  {
    assert Unvisited(visited[v := true], v) == Unvisited(visited, v);
    Scan(adj, ends, codes, v, dep, 0, Search(visited[v := true], deps, -1), keep)
  }

  /** The loop over v's edges from the k-th on. */
  ghost function Scan(adj: seq<seq<int>>, ends: seq<int>, codes: seq<int>, v: int, dep: Dependency,
                      k: nat, st: Search, keep: bool): (r: Search)
    requires Fits(adj, ends, codes) && 0 <= v < |adj| && k <= |adj[v]|
    requires |st.visited| == |adj| && |st.deps| == |adj| && st.visited[v]
    ensures Kept(st.visited, st.deps, r)
    decreases |Unvisited(st.visited, v)|, |adj[v]| - k, 1
  {
    if k == |adj[v]| then st
    else
      var st' := ScanStep(adj, ends, codes, v, dep, k, st, keep);
      KeptFewer(st.visited, st.deps, st', v);
      Scan(adj, ends, codes, v, dep, k + 1, st', keep)
  }

  /**
   * One pass of the loop, for edge e = adj[v][k] with head u: a self-loop is
   * skipped; an unmarked u gets the dependency across e and is searched,
   * and its answer becomes the answer (as the program does, also when it is
   * -1; with keep, only when it is not); a marked u whose sign differs from
   * the one across e sets the answer to half the offsets' distance.
   */
  ghost function ScanStep(adj: seq<seq<int>>, ends: seq<int>, codes: seq<int>, v: int, dep: Dependency,
                          k: nat, st: Search, keep: bool): (r: Search)
    requires Fits(adj, ends, codes) && 0 <= v < |adj| && k < |adj[v]|
    requires |st.visited| == |adj| && |st.deps| == |adj| && st.visited[v]
    ensures Kept(st.visited, st.deps, r)
    decreases |Unvisited(st.visited, v)|, |adj[v]| - k, 0
  {
    var e := adj[v][k];
    var u := ends[e];
    var newDep := Across(dep, codes[e]);
    if u == v then st
    else if !st.visited[u] then
      EnterFewer(st.visited, v, u);
      var child := Dfs(adj, ends, codes, u, newDep, st.visited, st.deps[u := newDep], keep);
      Search(child.visited, child.deps, if keep && child.answer == -1 then st.answer else child.answer)
    else if newDep.sign != st.deps[u].sign then
      st.(answer := Abs(newDep.offset - st.deps[u].offset) / 2)
    else st
  }

  /** sol, one value per vertex, gives every half-edge's code as the sum of the values of its two ends. */
  ghost predicate Solves(adj: seq<seq<int>>, ends: seq<int>, codes: seq<int>, sol: seq<int>) {
    && Fits(adj, ends, codes) && |sol| == |adj|
    && forall v, k :: 0 <= v < |adj| && 0 <= k < |adj[v]| ==> sol[v] + sol[ends[adj[v][k]]] == codes[adj[v][k]]
  }

  /** Every marked vertex's dependency gives its value in sol from x. */
  ghost predicate Determined(sol: seq<int>, x: int, visited: seq<bool>, deps: seq<Dependency>) {
    forall w :: 0 <= w < |visited| && visited[w] ==> w < |sol| && w < |deps| && sol[w] == Value(deps[w], x)
  }

  /**
   * Soundness of the search: when sol solves the codes and x >= 0 is the
   * value the dependencies are relative to, every vertex the search marks
   * gets a dependency giving its value in sol, and an answer other than -1
   * is x: the sign conflict of a vertex reached twice says 2x = |offset
   * difference|.
   */
  lemma {:induction false} DfsSound(adj: seq<seq<int>>, ends: seq<int>, codes: seq<int>, sol: seq<int>, x: int,
                                    v: int, dep: Dependency, visited: seq<bool>, deps: seq<Dependency>, keep: bool)
    requires Solves(adj, ends, codes, sol) && x >= 0
    requires 0 <= v < |adj| && |visited| == |adj| && |deps| == |adj|
    requires Determined(sol, x, visited, deps) && deps[v] == dep && sol[v] == Value(dep, x)
    ensures var r := Dfs(adj, ends, codes, v, dep, visited, deps, keep);
      Determined(sol, x, r.visited, r.deps) && (r.answer != -1 ==> r.answer == x)
    decreases |Unvisited(visited, v)|, |adj[v]| + 1, 0
  {
    assert Unvisited(visited[v := true], v) == Unvisited(visited, v);
    ScanSound(adj, ends, codes, sol, x, v, dep, 0, Search(visited[v := true], deps, -1), keep);
  }

  lemma {:induction false} ScanSound(adj: seq<seq<int>>, ends: seq<int>, codes: seq<int>, sol: seq<int>, x: int,
                                     v: int, dep: Dependency, k: nat, st: Search, keep: bool)
    requires Solves(adj, ends, codes, sol) && x >= 0
    requires 0 <= v < |adj| && k <= |adj[v]| && |st.visited| == |adj| && |st.deps| == |adj| && st.visited[v]
    requires Determined(sol, x, st.visited, st.deps) && sol[v] == Value(dep, x)
    requires st.answer != -1 ==> st.answer == x
    ensures var r := Scan(adj, ends, codes, v, dep, k, st, keep);
      Determined(sol, x, r.visited, r.deps) && (r.answer != -1 ==> r.answer == x)
    decreases |Unvisited(st.visited, v)|, |adj[v]| - k, 1
  {
    if k < |adj[v]| {
      var st' := ScanStep(adj, ends, codes, v, dep, k, st, keep);
      StepSound(adj, ends, codes, sol, x, v, dep, k, st, keep);
      KeptFewer(st.visited, st.deps, st', v);
      ScanSound(adj, ends, codes, sol, x, v, dep, k + 1, st', keep);
    }
  }

  lemma {:induction false} StepSound(adj: seq<seq<int>>, ends: seq<int>, codes: seq<int>, sol: seq<int>, x: int,
                                     v: int, dep: Dependency, k: nat, st: Search, keep: bool)
    requires Solves(adj, ends, codes, sol) && x >= 0
    requires 0 <= v < |adj| && k < |adj[v]| && |st.visited| == |adj| && |st.deps| == |adj| && st.visited[v]
    requires Determined(sol, x, st.visited, st.deps) && sol[v] == Value(dep, x)
    requires st.answer != -1 ==> st.answer == x
    ensures var r := ScanStep(adj, ends, codes, v, dep, k, st, keep);
      Determined(sol, x, r.visited, r.deps) && (r.answer != -1 ==> r.answer == x)
    decreases |Unvisited(st.visited, v)|, |adj[v]| - k, 0
  {
    var e := adj[v][k];
    var u := ends[e];
    var newDep := Across(dep, codes[e]);
    if u != v {
      assert sol[v] + sol[u] == codes[e];
      if !st.visited[u] {
        EnterFewer(st.visited, v, u);
        DfsSound(adj, ends, codes, sol, x, u, newDep, st.visited, st.deps[u := newDep], keep);
      } else if newDep.sign != st.deps[u].sign {
        assert Value(newDep, x) == sol[u] == Value(st.deps[u], x);
      }
    }
  }

  /** The head of every edge out of w is marked. */
  ghost predicate HeadsMarked(adj: seq<seq<int>>, ends: seq<int>, visited: seq<bool>, w: int)
    requires 0 <= w < |adj|
  {
    forall k :: 0 <= k < |adj[w]| ==> 0 <= adj[w][k] < |ends| && 0 <= ends[adj[w][k]] < |visited| && visited[ends[adj[w][k]]]
  }

  /** Every edge out of w that is not a self-loop joins dependencies of opposite signs. */
  ghost predicate Crossed(adj: seq<seq<int>>, ends: seq<int>, deps: seq<Dependency>, w: int)
    requires 0 <= w < |adj| && w < |deps|
  {
    forall k :: 0 <= k < |adj[w]| && 0 <= adj[w][k] < |ends| && 0 <= ends[adj[w][k]] < |deps| && ends[adj[w][k]] != w ==>
      deps[ends[adj[w][k]]].sign != deps[w].sign
  }

  /** Both facts about a marked vertex survive a later stretch of the search. */
  lemma SettledKept(adj: seq<seq<int>>, ends: seq<int>, a: Search, b: Search, w: int)
    requires 0 <= w < |adj| && |a.visited| == |adj| && |a.deps| == |adj| && Kept(a.visited, a.deps, b) && a.visited[w]
    ensures HeadsMarked(adj, ends, a.visited, w) ==> HeadsMarked(adj, ends, b.visited, w)
    ensures HeadsMarked(adj, ends, a.visited, w) && Crossed(adj, ends, a.deps, w) ==> Crossed(adj, ends, b.deps, w)
  {
  }

  /**
   * Closure of the search: every vertex it newly marks (and v) has all its
   * heads marked and, when the answer is kept and ends -1, opposite signs
   * across each of its edges other than self-loops.
   */
  lemma {:induction false} DfsCloses(adj: seq<seq<int>>, ends: seq<int>, codes: seq<int>,
                                     v: int, dep: Dependency, visited: seq<bool>, deps: seq<Dependency>, keep: bool)
    requires Fits(adj, ends, codes) && 0 <= v < |adj| && |visited| == |adj| && |deps| == |adj| && deps[v] == dep
    ensures var r := Dfs(adj, ends, codes, v, dep, visited, deps, keep);
      forall w :: 0 <= w < |adj| && r.visited[w] && (w == v || !visited[w]) ==>
        HeadsMarked(adj, ends, r.visited, w) && (keep && r.answer == -1 ==> Crossed(adj, ends, r.deps, w))
    decreases |Unvisited(visited, v)|, |adj[v]| + 1, 0
  {
    assert Unvisited(visited[v := true], v) == Unvisited(visited, v);
    ScanCloses(adj, ends, codes, v, dep, 0, Search(visited[v := true], deps, -1), keep);
  }

  lemma {:induction false} ScanCloses(adj: seq<seq<int>>, ends: seq<int>, codes: seq<int>,
                                      v: int, dep: Dependency, k: nat, st: Search, keep: bool)
    requires Fits(adj, ends, codes) && 0 <= v < |adj| && k <= |adj[v]|
    requires |st.visited| == |adj| && |st.deps| == |adj| && st.visited[v] && st.deps[v] == dep
    ensures var r := Scan(adj, ends, codes, v, dep, k, st, keep);
      && (forall j :: k <= j < |adj[v]| ==> r.visited[ends[adj[v][j]]])
      && (keep && r.answer == -1 ==> st.answer == -1)
      && (keep && r.answer == -1 ==> forall j :: k <= j < |adj[v]| && ends[adj[v][j]] != v ==> r.deps[ends[adj[v][j]]].sign != dep.sign)
      && forall w :: 0 <= w < |adj| && r.visited[w] && !st.visited[w] ==>
        HeadsMarked(adj, ends, r.visited, w) && (keep && r.answer == -1 ==> Crossed(adj, ends, r.deps, w))
    decreases |Unvisited(st.visited, v)|, |adj[v]| - k, 1
  {
    if k < |adj[v]| {
      var st' := ScanStep(adj, ends, codes, v, dep, k, st, keep);
      var r := Scan(adj, ends, codes, v, dep, k + 1, st', keep);
      assert r == Scan(adj, ends, codes, v, dep, k, st, keep);
      StepCloses(adj, ends, codes, v, dep, k, st, keep);
      KeptFewer(st.visited, st.deps, st', v);
      ScanCloses(adj, ends, codes, v, dep, k + 1, st', keep);
      var u := ends[adj[v][k]];
      assert st'.visited[u] && r.visited[u] && r.deps[u] == st'.deps[u];
      forall w | 0 <= w < |adj| && st'.visited[w] && !st.visited[w]
        ensures HeadsMarked(adj, ends, r.visited, w) && (keep && r.answer == -1 ==> Crossed(adj, ends, r.deps, w))
      {
        SettledKept(adj, ends, st', r, w);
      }
    }
  }

  lemma {:induction false} StepCloses(adj: seq<seq<int>>, ends: seq<int>, codes: seq<int>,
                                      v: int, dep: Dependency, k: nat, st: Search, keep: bool)
    requires Fits(adj, ends, codes) && 0 <= v < |adj| && k < |adj[v]|
    requires |st.visited| == |adj| && |st.deps| == |adj| && st.visited[v] && st.deps[v] == dep
    ensures var r := ScanStep(adj, ends, codes, v, dep, k, st, keep);
      && r.visited[ends[adj[v][k]]]
      && (keep && r.answer == -1 ==> st.answer == -1)
      && (keep && r.answer == -1 && ends[adj[v][k]] != v ==> r.deps[ends[adj[v][k]]].sign != dep.sign)
      && forall w :: 0 <= w < |adj| && r.visited[w] && !st.visited[w] ==>
        HeadsMarked(adj, ends, r.visited, w) && (keep && r.answer == -1 ==> Crossed(adj, ends, r.deps, w))
    decreases |Unvisited(st.visited, v)|, |adj[v]| - k, 0
  {
    var e := adj[v][k];
    var u := ends[e];
    var newDep := Across(dep, codes[e]);
    if u != v && !st.visited[u] {
      EnterFewer(st.visited, v, u);
      DfsCloses(adj, ends, codes, u, newDep, st.visited, st.deps[u := newDep], keep);
    }
  }

  /** h lists, for every vertex w, the heads of w's ids in order: what FastNeighborsGraph.Heads() gives. */
  ghost predicate HeadsOf(h: AdjLists, adj: seq<seq<int>>, ends: seq<int>) {
    && |h| == |adj|
    && (forall w :: 0 <= w < |adj| ==> |h[w]| == |adj[w]|)
    && forall w, k :: 0 <= w < |adj| && 0 <= k < |adj[w]| ==> 0 <= adj[w][k] < |ends| && h[w][k] == ends[adj[w][k]]
  }

  /** When every marked vertex has its heads marked, whatever a marked vertex reaches is marked. */
  lemma MarkedReach(adj: seq<seq<int>>, ends: seq<int>, h: AdjLists, visited: seq<bool>, s: int, t: int)
    requires HeadsOf(h, adj, ends) && |visited| == |adj|
    requires forall w :: 0 <= w < |adj| && visited[w] ==> HeadsMarked(adj, ends, visited, w)
    requires 0 <= s < |adj| && visited[s] && Reaches(h, s, t)
    ensures 0 <= t < |adj| && visited[t]
  {
    var p :| IsWalkFromTo(h, p, s, t);
    var i := 0;
    while i < |p| - 1
      invariant 0 <= i < |p| && visited[p[i]]
    {
      var k :| 0 <= k < |h[p[i]]| && h[p[i]][k] == p[i + 1];
      assert HeadsMarked(adj, ends, visited, p[i]);
      i := i + 1;
    }
  }

  /**
   * The search from init on a graph that sol solves and in which init
   * reaches every vertex: every vertex is marked and its dependency gives
   * its value in sol from sol[init]; an answer other than -1 is sol[init];
   * when the answer is kept and is -1, every edge other than a self-loop
   * joins opposite signs.
   */
  lemma Found(adj: seq<seq<int>>, ends: seq<int>, codes: seq<int>, h: AdjLists, sol: seq<int>,
              init: int, deps: seq<Dependency>, keep: bool)
    requires Solves(adj, ends, codes, sol) && HeadsOf(h, adj, ends)
    requires 0 <= init < |adj| && |deps| == |adj| && sol[init] >= 0
    requires forall t :: 0 <= t < |adj| ==> Reaches(h, init, t)
    ensures var r := FindDeps(adj, ends, codes, init, deps, keep);
      && (forall w :: 0 <= w < |adj| ==> r.visited[w] && sol[w] == Value(r.deps[w], sol[init]))
      && (r.answer != -1 ==> r.answer == sol[init])
      && (keep && r.answer == -1 ==> forall w :: 0 <= w < |adj| ==> Crossed(adj, ends, r.deps, w))
  {
    var visited := seq(|adj|, w => w == init);
    var deps0 := deps[init := Dependency(false, 0)];
    var r := FindDeps(adj, ends, codes, init, deps, keep);
    assert visited[init := true] == visited;
    DfsSound(adj, ends, codes, sol, sol[init], init, Dependency(false, 0), visited, deps0, keep);
    DfsCloses(adj, ends, codes, init, Dependency(false, 0), visited, deps0, keep);
    forall t | 0 <= t < |adj| ensures r.visited[t] {
      MarkedReach(adj, ends, h, r.visited, init, t);
    }
  }

  /** Every edge other than a self-loop has its code as the sum of its ends' values in vals. */
  ghost predicate SolvesApart(adj: seq<seq<int>>, ends: seq<int>, codes: seq<int>, vals: seq<int>) {
    && Fits(adj, ends, codes) && |vals| == |adj|
    && forall v, k :: 0 <= v < |adj| && 0 <= k < |adj[v]| && ends[adj[v][k]] != v ==>
      vals[v] + vals[ends[adj[v][k]]] == codes[adj[v][k]]
  }

  /** The values can_apply_ writes for init's value `value`: value for init, the dependency's value for every other vertex. */
  function Expected(deps: seq<Dependency>, init: int, value: int): (e: seq<int>)
    ensures |e| == |deps|
  {
    seq(|deps|, w requires 0 <= w < |deps| => if w == init then value else Value(deps[w], value))
  }

  /** answer when can_apply_ stops at vertex stop: the expected values of the vertices before stop other than init. */
  function Written(answer: seq<int>, e: seq<int>, init: int, stop: int): (r: seq<int>)
    requires |e| == |answer|
    ensures |r| == |answer|
  {
    seq(|answer|, w requires 0 <= w < |answer| => if w < stop && w != init then e[w] else answer[w])
  }

  /** One more vertex written; and all of them written, with init's value last. */
  lemma WrittenNext(answer: seq<int>, e: seq<int>, init: int, v: int)
    requires |e| == |answer| && 0 <= v < |answer|
    ensures Written(answer, e, init, v + 1) == if v == init then Written(answer, e, init, v) else Written(answer, e, init, v)[v := e[v]]
    ensures v == |answer| - 1 && 0 <= init < |answer| ==> Written(answer, e, init, v + 1)[init := e[init]] == e
  {
  }

  /** can_apply_'s used flags after the vertices before v: value, and the expected values of those other than init. */
  ghost predicate UsedMarks(used: seq<bool>, e: seq<int>, init: int, value: int, v: int)
    requires 0 <= v <= |e|
  {
    |used| == |e| && forall y :: 0 <= y < |used| ==> (used[y] <==> y == value || exists w :: 0 <= w < v && w != init && e[w] == y)
  }

  /** The expected values before v other than init are in [0, n), differ from value and from each other. */
  ghost predicate Unused(e: seq<int>, init: int, value: int, n: int, v: int)
    requires 0 <= v <= |e|
  {
    && (forall w :: 0 <= w < v && w != init ==> 0 <= e[w] < n && e[w] != value)
    && (forall w, w' :: 0 <= w < w' < v && w != init && w' != init ==> e[w] != e[w'])
  }

  /** Vertex v's expected value is in range and unused: marking it keeps both facts one vertex further. */
  lemma {:induction false} UsedNext(used: seq<bool>, e: seq<int>, init: int, value: int, v: int)
    requires 0 <= v < |e| && UsedMarks(used, e, init, value, v) && Unused(e, init, value, |used|, v)
    requires 0 <= value < |used| && v != init && 0 <= e[v] < |used| && !used[e[v]]
    ensures UsedMarks(used[e[v] := true], e, init, value, v + 1) && Unused(e, init, value, |used|, v + 1)
  {
    var u := used[e[v] := true];
    forall y | 0 <= y < |u| ensures u[y] <==> y == value || exists w :: 0 <= w < v + 1 && w != init && e[w] == y {
      if y != e[v] && exists w :: 0 <= w < v + 1 && w != init && e[w] == y {
        var w :| 0 <= w < v + 1 && w != init && e[w] == y;
        assert w < v;
      }
    }
    forall w, w' | 0 <= w < w' < v + 1 && w != init && w' != init ensures e[w] != e[w'] {
      if w' == v {
        assert used[e[w]];
      }
    }
  }

  /** Writing vertex v's expected value and marking it used: can_apply_'s state one vertex further. */
  lemma WroteNext(a0: seq<int>, e: seq<int>, init: int, value: int, v: int,
                  written: seq<int>, marks: seq<bool>, written': seq<int>, marks': seq<bool>)
    requires |e| == |a0| && 0 <= v < |e| && v != init && 0 <= value < |e|
    requires written == Written(a0, e, init, v) && UsedMarks(marks, e, init, value, v) && Unused(e, init, value, |marks|, v)
    requires 0 <= e[v] < |marks| && !marks[e[v]]
    requires written' == written[v := e[v]] && marks' == marks[e[v] := true]
    ensures written' == Written(a0, e, init, v + 1)
    ensures UsedMarks(marks', e, init, value, v + 1) && Unused(e, init, value, |marks|, v + 1)
  {
    WrittenNext(a0, e, init, v);
    UsedNext(marks, e, init, value, v);
  }

  /** Vertex v's expected value is already used: the expected values are not a permutation. */
  lemma {:induction false} UsedAgain(used: seq<bool>, e: seq<int>, init: int, value: int, v: int)
    requires 0 <= v < |e| && UsedMarks(used, e, init, value, v) && 0 <= init < |e| && e[init] == value
    requires v != init && 0 <= e[v] < |used| && used[e[v]]
    ensures !IsPermutation(e, |used|)
  {
    if e[v] == value {
      Repeated(e, |used|, v, init);
    } else {
      var w :| 0 <= w < v && w != init && e[w] == e[v];
      Repeated(e, |used|, v, w);
    }
  }

  /** Every vertex passed: with init's value, the expected values are a permutation. */
  lemma {:induction false} UnusedAll(e: seq<int>, init: int, value: int)
    requires 0 <= init < |e| && e[init] == value && 0 <= value < |e| && Unused(e, init, value, |e|, |e|)
    ensures IsPermutation(e, |e|)
  {
    forall w, w' | 0 <= w < w' < |e| ensures e[w] != e[w'] {
      if w != init && w' != init {
      }
    }
    Pigeonhole(e, |e|);
  }

  /** When init's dependency is (false, 0) and every dependency gives sol from sol[init], the expected values for sol[init] are sol. */
  lemma ExpectedSol(sol: seq<int>, deps: seq<Dependency>, init: int)
    requires |sol| == |deps| && 0 <= init < |deps| && deps[init] == Dependency(false, 0)
    requires forall w :: 0 <= w < |deps| ==> sol[w] == Value(deps[w], sol[init])
    ensures Expected(deps, init, sol[init]) == sol
  {
  }

  /** n distinct values below n cover every value below n. */
  lemma Pigeonhole(s: seq<int>, n: int)
    requires |s| == n && (forall i :: 0 <= i < n ==> 0 <= s[i] < n) && NoDup(s)
    ensures IsPermutation(s, n)
  {
    forall v | 0 <= v < n ensures v in s {
      if v !in s {
        Cycles.ShortOfAll(s, n, v);
      }
    }
  }

  /** Two equal entries: not a permutation. */
  lemma Repeated(s: seq<int>, n: int, i: int, j: int)
    requires 0 <= i < |s| && 0 <= j < |s| && i != j && s[i] == s[j]
    ensures !IsPermutation(s, n)
  {
    if i > j {
      assert s[j] == s[i];
    }
  }

  /** m is the largest offset among the dependencies of the given sign, INT64_MIN when there is none. */
  ghost predicate MaxOf(deps: seq<Dependency>, sign: bool, m: int) {
    && m >= Int64Min
    && (forall w :: 0 <= w < |deps| && deps[w].sign == sign ==> deps[w].offset <= m)
    && (m == Int64Min || exists w :: 0 <= w < |deps| && deps[w].sign == sign && deps[w].offset == m)
  }

  const Int64Min: int := -0x8000_0000_0000_0000

  /**
   * The two guesses for x from the largest offsets m0 (sign false) and m1
   * (sign true), when every dependency gives sol from x = sol[init]: the
   * first guess n - 1 - m0 is a value in [x, n - 1]; when its expected values
   * are not a permutation, the vertex of value n - 1 has sign true and the
   * second guess m1 - (n - 1) is x.
   */
  lemma Candidates(sol: seq<int>, deps: seq<Dependency>, init: int, m0: int, m1: int)
    requires IsPermutation(sol, |deps|) && 0 <= init < |deps| && deps[init] == Dependency(false, 0)
    requires forall w :: 0 <= w < |deps| ==> sol[w] == Value(deps[w], sol[init])
    requires MaxOf(deps, false, m0) && MaxOf(deps, true, m1)
    ensures m0 != Int64Min && sol[init] <= |deps| - 1 - m0 <= |deps| - 1
    ensures !IsPermutation(Expected(deps, init, |deps| - 1 - m0), |deps|) ==>
      m1 != Int64Min && m1 - (|deps| - 1) == sol[init]
  {
    var n, x := |deps|, sol[init];
    assert deps[init].offset <= m0;
    if m0 != Int64Min {
      var w :| 0 <= w < n && !deps[w].sign && deps[w].offset == m0;
      assert sol[w] == x + m0;
    }
    ExpectedSol(sol, deps, init);
    assert n - 1 in sol;
    var top :| 0 <= top < n && sol[top] == n - 1;
    if !deps[top].sign {
      assert deps[top].offset == n - 1 - x;
    } else {
      assert deps[top].offset == n - 1 + x <= m1;
      var w :| 0 <= w < n && deps[w].sign && deps[w].offset == m1;
      assert sol[w] == m1 - x;
    }
  }

  /**
   * When every edge other than a self-loop joins opposite signs, the values
   * for any guess c solve those edges: the guess cancels out of each sum.
   */
  lemma CrossedSolves(adj: seq<seq<int>>, ends: seq<int>, codes: seq<int>, sol: seq<int>,
                      deps: seq<Dependency>, init: int, c: int)
    requires Solves(adj, ends, codes, sol) && |deps| == |adj| && 0 <= init < |adj| && deps[init] == Dependency(false, 0)
    requires forall w :: 0 <= w < |adj| ==> sol[w] == Value(deps[w], sol[init]) && Crossed(adj, ends, deps, w)
    ensures SolvesApart(adj, ends, codes, Expected(deps, init, c))
  {
    var e := Expected(deps, init, c);
    forall v, k | 0 <= v < |adj| && 0 <= k < |adj[v]| && ends[adj[v][k]] != v
      ensures e[v] + e[ends[adj[v][k]]] == codes[adj[v][k]]
    {
      var u := ends[adj[v][k]];
      assert Crossed(adj, ends, deps, v);
      assert e[v] == Value(deps[v], c) && e[u] == Value(deps[u], c);
      assert sol[v] + sol[u] == codes[adj[v][k]];
    }
  }

  /** Every vertex is reachable from init. */
  ghost predicate ReachesAll(h: AdjLists, init: int) {
    forall t :: 0 <= t < |h| ==> Reaches(h, init, t)
  }

  /** After a search that found an answer: it is init's value in sol, and its expected values are sol. */
  lemma FoundAnswer(adj: seq<seq<int>>, ends: seq<int>, codes: seq<int>, h: AdjLists, sol: seq<int>,
                    init: int, deps: seq<Dependency>, keep: bool)
    requires Solves(adj, ends, codes, sol) && IsPermutation(sol, |adj|) && HeadsOf(h, adj, ends)
    requires 0 <= init < |adj| && |deps| == |adj| && ReachesAll(h, init)
    ensures var r := FindDeps(adj, ends, codes, init, deps, keep);
      r.answer != -1 ==> (0 <= r.answer < |adj| && Expected(r.deps, init, r.answer) == sol &&
        IsPermutation(sol, |adj|) && SolvesApart(adj, ends, codes, sol))
  {
    var r := FindDeps(adj, ends, codes, init, deps, keep);
    Found(adj, ends, codes, h, sol, init, deps, keep);
    ExpectedSol(sol, r.deps, init);
  }

  /**
   * After a search that found no answer, with m0 and m1 the largest offsets
   * of each sign: the guesses meet what ApplyGuesses needs, and with keep
   * every guess's expected values solve the edges other than self-loops.
   */
  lemma FoundGuesses(adj: seq<seq<int>>, ends: seq<int>, codes: seq<int>, h: AdjLists, sol: seq<int>,
                     init: int, deps: seq<Dependency>, keep: bool, m0: int, m1: int)
    requires Solves(adj, ends, codes, sol) && IsPermutation(sol, |adj|) && HeadsOf(h, adj, ends)
    requires 0 <= init < |adj| && |deps| == |adj| && ReachesAll(h, init)
    requires var r := FindDeps(adj, ends, codes, init, deps, keep);
      r.answer == -1 && MaxOf(r.deps, false, m0) && MaxOf(r.deps, true, m1)
    ensures var r := FindDeps(adj, ends, codes, init, deps, keep);
      && 0 <= sol[init] < |adj| && IsPermutation(Expected(r.deps, init, sol[init]), |adj|) && m0 != Int64Min && 0 <= |adj| - 1 - m0 < |adj|
      && (!IsPermutation(Expected(r.deps, init, |adj| - 1 - m0), |adj|) ==> m1 != Int64Min && m1 - (|adj| - 1) == sol[init])
      && (keep ==> forall c :: SolvesApart(adj, ends, codes, Expected(r.deps, init, c)))
  {
    var r := FindDeps(adj, ends, codes, init, deps, keep);
    Found(adj, ends, codes, h, sol, init, deps, keep);
    Candidates(sol, r.deps, init, m0, m1);
    ExpectedSol(sol, r.deps, init);
    if keep {
      forall c ensures SolvesApart(adj, ends, codes, Expected(r.deps, init, c)) {
        CrossedSolves(adj, ends, codes, sol, r.deps, init, c);
      }
    }
  }

  /** The store's Heads() lists the heads of its ids. */
  lemma StoreHeads(g: FastNeighborsGraph)
    requires g.Valid()
    ensures HeadsOf(g.Heads(), g.adjLists, g.edgeEnds)
  {
  }

  /**
   * The half-edge with id e in a store built by the calls (from, to, code):
   * call i made id i (directed) or ids 2i and 2i + 1, the second reversed;
   * each has the call's code.
   */
  function Half(calls: seq<(int, int, int)>, directed: bool, e: int): (int, int, int)
    requires 0 <= e && (if directed then e else e / 2) < |calls|
  {
    if directed then calls[e]
    else
      var c := calls[e / 2];
      if e % 2 == 0 then c else (c.1, c.0, c.2)
  }

  lemma HalfSnoc(calls: seq<(int, int, int)>, directed: bool, c: (int, int, int), e: int)
    requires 0 <= e && (if directed then e else e / 2) <= |calls|
    ensures (if directed then e else e / 2) < |calls| ==> Half(calls + [c], directed, e) == Half(calls, directed, e)
    ensures (if directed then e else e / 2) == |calls| ==>
      Half(calls + [c], directed, e) == (if directed || e % 2 == 0 then c else (c.1, c.0, c.2))
  {
  }

  /** Tails, heads and codes of the ids are those Half gives for the calls. */
  ghost predicate Follows(calls: seq<(int, int, int)>, directed: bool, tails: seq<int>, ends: seq<int>, codes: seq<int>) {
    && |tails| == |codes| && |ends| == |codes| && |codes| == (if directed then 1 else 2) * |calls|
    && forall e :: 0 <= e < |codes| ==> Half(calls, directed, e) == (tails[e], ends[e], codes[e])
  }

  /** One more call appends its one or two half-edges. */
  lemma FollowsSnoc(calls: seq<(int, int, int)>, directed: bool, tails: seq<int>, ends: seq<int>, codes: seq<int>,
                    from: int, to: int, code: int)
    requires Follows(calls, directed, tails, ends, codes)
    ensures Follows(calls + [(from, to, code)], directed,
      tails + (if directed then [from] else [from, to]), ends + (if directed then [to] else [to, from]),
      codes + (if directed then [code] else [code, code]))
  {
    var calls' := calls + [(from, to, code)];
    var tails' := tails + (if directed then [from] else [from, to]);
    var ends' := ends + (if directed then [to] else [to, from]);
    var codes' := codes + (if directed then [code] else [code, code]);
    forall e | 0 <= e < |codes'| ensures Half(calls', directed, e) == (tails'[e], ends'[e], codes'[e]) {
      HalfSnoc(calls, directed, (from, to, code), e);
      if e < |codes| {
        assert tails'[e] == tails[e] && ends'[e] == ends[e] && codes'[e] == codes[e];
      }
    }
  }

  /** The store of n vertices fits together with one code per id. */
  lemma StoreFits(g: FastNeighborsGraph, codes: seq<int>)
    requires g.Valid() && g.EndsInRange() && |codes| == g.nEdges
    ensures Fits(g.adjLists, g.edgeEnds, codes) && |g.adjLists| == g.nVertices
  {
  }

  /** find_dependencies_or_answer_(init, deps): only init is marked and its dependency is (false, 0), so its value is x. */
  ghost function FindDeps(adj: seq<seq<int>>, ends: seq<int>, codes: seq<int>, init: int, deps: seq<Dependency>, keep: bool): (r: Search)
    requires Fits(adj, ends, codes) && 0 <= init < |adj| && |deps| == |adj|
    ensures |r.visited| == |adj| && |r.deps| == |adj| && r.visited[init] && r.deps[init] == Dependency(false, 0)
  {
    var visited := seq(|adj|, w => w == init);
    assert visited[init := true] == visited;
    Dfs(adj, ends, codes, init, Dependency(false, 0), visited, deps[init := Dependency(false, 0)], keep)
  }

  /** `EncodedGraph`: the fast-neighbours store with edge_encodings_, the code of every half-edge id. */
  class EncodedGraph {
    const graph: FastNeighborsGraph
    var edgeEncodings: seq<int>
    /** The add_encoded_edge calls so far, as (from, to, code). */
    ghost var calls: seq<(int, int, int)>

    /** The store is valid, and ids, heads and codes follow the calls (see Half). */
    ghost predicate Valid()
      reads this, graph
    {
      && graph.Valid() && |edgeEncodings| == graph.nEdges
      && Follows(calls, graph.directed, graph.tails, graph.edgeEnds, edgeEncodings)
    }

    /** EncodedGraph(n, is_directed): n vertices, no edges, no codes. */
    constructor (n: nat, directed: bool)
      ensures Valid() && graph.EndsInRange() && fresh(graph)
      ensures graph.nVertices == n && graph.directed == directed && graph.nEdges == 0
      ensures graph.adjLists == seq(n, _ => []) && edgeEncodings == [] && calls == []
    {
      graph := new FastNeighborsGraph(n, directed);
      edgeEncodings := [];
      calls := [];
    }

    /**
     * add_encoded_edge(from, to, code): add_edge(from, to), then one copy of
     * code per half-edge it made, so that edge_encodings_[e] is the code of
     * id e.
     */
    method AddEncodedEdge(from: int, to: int, code: int)
      requires Valid() && 0 <= from < graph.nVertices && (!graph.directed ==> 0 <= to < graph.nVertices)
      modifies this, graph
      ensures Valid() && calls == old(calls) + [(from, to, code)]
      ensures graph.nVertices == old(graph.nVertices)
      ensures old(graph.EndsInRange()) && 0 <= to < graph.nVertices ==> graph.EndsInRange()
      ensures edgeEncodings == old(edgeEncodings) + (if graph.directed then [code] else [code, code])
      ensures graph.adjLists == IdsAdded(old(graph.adjLists), old(graph.nEdges), from, to, graph.directed)
      ensures graph.Heads() == EdgeAdded(old(graph.Heads()), from, to, graph.directed, false)
    {
      ghost var tails0, ends0, codes0 := graph.tails, graph.edgeEnds, edgeEncodings;
      FollowsSnoc(calls, graph.directed, tails0, ends0, codes0, from, to, code);
      graph.AddEdge(from, to);
      edgeEncodings := edgeEncodings + (if graph.directed then [code] else [code, code]);
      calls := calls + [(from, to, code)];
    }

    /**
     * find_dependencies_or_answer_dfs_(v, init, visited, dep, deps): the
     * search of Dfs, writing the marks and dependencies in place; keep
     * chooses the reading of the answer (false: as the program does).
     */
    method FindDependenciesOrAnswerDfs(v: int, init: int, visited: array<bool>, dep: Dependency,
                                       deps: array<Dependency>, keep: bool) returns (answer: int)
      requires Valid() && graph.EndsInRange() && 0 <= v < graph.nVertices
      requires visited.Length == graph.nVertices && deps.Length == graph.nVertices
      modifies visited, deps
      ensures Fits(graph.adjLists, graph.edgeEnds, edgeEncodings)
      ensures Search(visited[..], deps[..], answer)
        == Dfs(graph.adjLists, graph.edgeEnds, edgeEncodings, v, dep, old(visited[..]), old(deps[..]), keep)
      decreases |Unvisited(visited[..], v)|, 1
    {
      StoreFits(graph, edgeEncodings);
      ghost var adj, ends, codes := graph.adjLists, graph.edgeEnds, edgeEncodings;
      visited[v] := true;
      answer := -1;
      ghost var st0 := Search(visited[..], deps[..], -1);
      assert st0 == Search(old(visited[..])[v := true], old(deps[..]), -1);
      assert Unvisited(visited[..], v) == Unvisited(old(visited[..]), v);
      var ids := graph.OutgoingEdges(v);
      var k := 0;
      while k < |ids|
        invariant 0 <= k <= |ids| && visited[v]
        invariant |Unvisited(visited[..], v)| <= |Unvisited(old(visited[..]), v)|
        invariant Scan(adj, ends, codes, v, dep, k, Search(visited[..], deps[..], answer), keep)
          == Scan(adj, ends, codes, v, dep, 0, st0, keep)
      {
        ghost var st := Search(visited[..], deps[..], answer);
        answer := ScanEdge(v, init, visited, dep, deps, k, answer, keep);
        KeptFewer(st.visited, st.deps, Search(visited[..], deps[..], answer), v);
        k := k + 1;
      }
    }

    /** One pass of the search's loop over v's edges: the k-th, as ScanStep. */
    method ScanEdge(v: int, init: int, visited: array<bool>, dep: Dependency, deps: array<Dependency>,
                    k: nat, answer: int, keep: bool) returns (answer': int)
      requires Valid() && graph.EndsInRange() && 0 <= v < graph.nVertices && k < |graph.adjLists[v]|
      requires visited.Length == graph.nVertices && deps.Length == graph.nVertices && visited[v]
      requires Fits(graph.adjLists, graph.edgeEnds, edgeEncodings)
      modifies visited, deps
      ensures Search(visited[..], deps[..], answer')
        == ScanStep(graph.adjLists, graph.edgeEnds, edgeEncodings, v, dep, k, Search(old(visited[..]), old(deps[..]), answer), keep)
      decreases |Unvisited(visited[..], v)|, 0
    {
      answer' := answer;
      var e := graph.OutgoingEdges(v)[k];
      var u := graph.EdgeEnd(e);
      if u != v {
        var newDep := Across(dep, edgeEncodings[e]);
        if !visited[u] {
          deps[u] := newDep;
          EnterFewer(visited[..], v, u);
          var child := FindDependenciesOrAnswerDfs(u, init, visited, newDep, deps, keep);
          answer' := if keep && child == -1 then answer' else child;
        } else if newDep.sign != deps[u].sign {
          answer' := Abs(newDep.offset - deps[u].offset) / 2;
        }
      }
    }

    /** find_dependencies_or_answer_(init, deps): a fresh visited vector with only init marked, and the search from init. */
    method FindDependenciesOrAnswer(init: int, deps: array<Dependency>, keep: bool) returns (answer: int)
      requires Valid() && graph.EndsInRange() && 0 <= init < graph.nVertices && deps.Length == graph.nVertices
      modifies deps
      ensures Fits(graph.adjLists, graph.edgeEnds, edgeEncodings)
      ensures var r := FindDeps(graph.adjLists, graph.edgeEnds, edgeEncodings, init, old(deps[..]), keep);
        deps[..] == r.deps && answer == r.answer
    {
      StoreFits(graph, edgeEncodings);
      var visited := new bool[graph.nVertices](_ => false);
      visited[init] := true;
      deps[init] := Dependency(false, 0);
      assert visited[..] == seq(graph.nVertices, w => w == init);
      answer := FindDependenciesOrAnswerDfs(init, init, visited, deps[init], deps, keep);
    }

    /**
     * can_apply_(init, value, deps, answer): value is marked used; every
     * other vertex in order gets its expected value, and the loop returns
     * false at the first one that is out of [0, n) or already used, leaving
     * the vertices before it written; otherwise init gets value and the
     * result is true.  So the result says whether the expected values form a
     * permutation, and then answer holds them.
     */
    method CanApply(init: int, value: int, deps: array<Dependency>, answer: array<int>) returns (ok: bool)
      requires deps.Length == graph.nVertices && answer.Length == graph.nVertices
      requires 0 <= init < graph.nVertices && 0 <= value < graph.nVertices
      modifies answer
      ensures ok <==> IsPermutation(Expected(deps[..], init, value), graph.nVertices)
      ensures ok ==> answer[..] == Expected(deps[..], init, value)
      ensures !ok ==> exists stop :: (0 <= stop < graph.nVertices &&
        answer[..] == Written(old(answer[..]), Expected(deps[..], init, value), init, stop))
    {
      var n := graph.nVertices;
      ghost var e, a0 := Expected(deps[..], init, value), answer[..];
      var used := new bool[n](_ => false);
      used[value] := true;
      var v := 0;
      while v < n
        invariant 0 <= v <= n
        invariant answer[..] == Written(a0, e, init, v)
        invariant UsedMarks(used[..], e, init, value, v) && Unused(e, init, value, n, v)
      {
        if v == init {
          WrittenNext(a0, e, init, v);
          v := v + 1;
          continue;
        }
        var dep := deps[v];
        var expected := (if dep.sign then -1 else 1) * value + dep.offset;
        SignedValue(dep, value);
        assert expected == e[v];
        if expected >= n || expected < 0 || used[expected] {
          if 0 <= expected < n {
            UsedAgain(used[..], e, init, value, v);
          }
          return false;
        }
        ghost var written, marks := answer[..], used[..];
        answer[v] := expected;
        used[expected] := true;
        assert answer[..] == written[v := expected] && used[..] == marks[expected := true];
        WroteNext(a0, e, init, value, v, written, marks, answer[..], used[..]);
        v := v + 1;
      }
      answer[init] := value;
      if n > 0 {
        WrittenNext(a0, e, init, n - 1);
      }
      UnusedAll(e, init, value);
      ok := true;
    }

    /**
     * The first loop of get_decode_permutation: maximals[s] becomes the
     * largest offset among the dependencies of sign s (s = 1 for true),
     * starting from INT64_MIN.
     */
    method Maximals(deps: array<Dependency>) returns (maximals: array<int>)
      requires deps.Length == graph.nVertices
      ensures fresh(maximals) && maximals.Length == 2
      ensures MaxOf(deps[..], false, maximals[0]) && MaxOf(deps[..], true, maximals[1])
    {
      maximals := new int[2](_ => Int64Min);
      var v := 0;
      while v < graph.nVertices
        invariant 0 <= v <= graph.nVertices
        invariant MaxOf(deps[..v], false, maximals[0]) && MaxOf(deps[..v], true, maximals[1])
      {
        var m := if deps[v].sign then 1 else 0;
        maximals[m] := if deps[v].offset > maximals[m] then deps[v].offset else maximals[m];
        assert deps[..v + 1] == deps[..v] + [deps[v]];
        v := v + 1;
      }
      assert deps[..v] == deps[..];
    }

    /**
     * get_decode_permutation() with the random start vertex as the
     * parameter init: the search from init; a found answer is init's value
     * and is applied; otherwise each sign in turn with some dependency
     * gives the guess that puts that sign's largest offset at n - 1, until
     * one applies.  On a graph whose codes some permutation gives and in
     * which init reaches every vertex, every index read is in range and the
     * result is a permutation; reading the answer with keep, it also gives
     * the code of every edge that is not a self-loop.
     */
    method GetDecodePermutation(init: int, keep: bool) returns (answer: array<int>)
      requires Valid() && graph.EndsInRange() && 0 <= init < graph.nVertices
      requires exists sol :: IsPermutation(sol, graph.nVertices) && Solves(graph.adjLists, graph.edgeEnds, edgeEncodings, sol)
      requires ReachesAll(graph.Heads(), init)
      ensures fresh(answer) && IsPermutation(answer[..], graph.nVertices)
      ensures keep ==> SolvesApart(graph.adjLists, graph.edgeEnds, edgeEncodings, answer[..])
    {
      var n := graph.nVertices;
      ghost var adj, ends, codes, h := graph.adjLists, graph.edgeEnds, edgeEncodings, graph.Heads();
      ghost var sol :| IsPermutation(sol, n) && Solves(adj, ends, codes, sol);
      StoreHeads(graph);
      var deps := new Dependency[n](_ => Dependency(false, 0));
      answer := new int[n](_ => 0);
      ghost var deps0 := deps[..];
      var initV := FindDependenciesOrAnswer(init, deps, keep);
      if initV != -1 {
        FoundAnswer(adj, ends, codes, h, sol, init, deps0, keep);
        var _ := CanApply(init, initV, deps, answer);
        return;
      }
      Fallback(init, deps, answer, keep, adj, ends, codes, h, sol, deps0);
    }

    /**
     * The rest of get_decode_permutation when the search found no answer:
     * the largest offsets of each sign give the guesses, and one of them
     * yields a permutation.
     */
    method Fallback(init: int, deps: array<Dependency>, answer: array<int>, keep: bool, ghost adj: seq<seq<int>>,
                    ghost ends: seq<int>, ghost codes: seq<int>, ghost h: AdjLists, ghost sol: seq<int>, ghost deps0: seq<Dependency>)
      requires deps.Length == graph.nVertices == |adj| && answer.Length == graph.nVertices
      requires Solves(adj, ends, codes, sol) && IsPermutation(sol, |adj|) && HeadsOf(h, adj, ends)
      requires 0 <= init < |adj| && |deps0| == |adj| && ReachesAll(h, init)
      requires var r := FindDeps(adj, ends, codes, init, deps0, keep); r.answer == -1 && deps[..] == r.deps
      modifies answer
      ensures IsPermutation(answer[..], |adj|) && (keep ==> SolvesApart(adj, ends, codes, answer[..]))
    {
      var maximals := Maximals(deps);
      FoundGuesses(adj, ends, codes, h, sol, init, deps0, keep, maximals[0], maximals[1]);
      ghost var chosen := ApplyGuesses(init, deps, maximals, answer, sol[init]);
    }

    /**
     * The second loop of get_decode_permutation: for each sign s in turn
     * with some dependency, the guess (s ? -1 : 1) * (n - 1 - maximals[s])
     * is applied, stopping at the first that applies.  When the first guess
     * is in range and, should it not apply, the second is x in range, one of
     * them applies: answer holds the expected values of the chosen guess.
     */
    method ApplyGuesses(init: int, deps: array<Dependency>, maximals: array<int>, answer: array<int>, ghost x: int)
      returns (ghost chosen: int)
      requires deps.Length == graph.nVertices && answer.Length == graph.nVertices && maximals.Length == 2 && answer != maximals
      requires 0 <= init < graph.nVertices && 0 <= x < graph.nVertices
      requires IsPermutation(Expected(deps[..], init, x), graph.nVertices)
      requires maximals[0] != Int64Min && 0 <= graph.nVertices - 1 - maximals[0] < graph.nVertices
      requires !IsPermutation(Expected(deps[..], init, graph.nVertices - 1 - maximals[0]), graph.nVertices) ==>
        maximals[1] != Int64Min && maximals[1] - (graph.nVertices - 1) == x
      modifies answer
      ensures answer[..] == Expected(deps[..], init, chosen) && IsPermutation(answer[..], graph.nVertices)
    {
      var n := graph.nVertices;
      var i := 0;
      while i < 2
        invariant 0 <= i <= 1
        invariant i == 1 ==> maximals[1] != Int64Min && maximals[1] - (n - 1) == x
        modifies answer
      {
        if maximals[i] == Int64Min {
          i := i + 1;
          continue;
        }
        var initV := (if i == 1 then -1 else 1) * (n - 1 - maximals[i]);
        assert initV == if i == 1 then maximals[1] - (n - 1) else n - 1 - maximals[0];
        var ok := CanApply(init, initV, deps, answer);
        if ok {
          chosen := initV;
          break;
        }
        i := i + 1;
      }
    }
  }
}
