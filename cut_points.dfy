/**
 * The cut-points program: an undirected graph read into set lists, and the
 * low-link search of find_cut_points_dfs_, which also collects into a
 * std::set the vertices it finds to be cut points.  The maglev program runs
 * the same search, so both use CutDfs and FindCutPoints.
 */
module CutPoints {
  import opened Graphs
  import opened GraphStore
  import opened LowLink

  /** std::set::insert on the ascending list of the set's elements. */
  function SetInsert(l: seq<int>, x: int): (r: seq<int>)
    requires Ascending(l)
    ensures Ascending(r)
    ensures forall y :: y in r <==> y in l || y == x
    decreases |l|
  {
    if l == [] then [x]
    else if x < l[0] then [x] + l
    else if x == l[0] then l
    else
      var rest := SetInsert(l[1..], x);
      var r := [l[0]] + rest;
      assert Ascending(r) by {
        forall j | 0 <= j < |rest| ensures l[0] < rest[j] {
          assert rest[j] in rest;
          if rest[j] != x {
            var k :| 0 <= k < |l[1..]| && l[1..][k] == rest[j];
            assert l[k + 1] == rest[j];
          }
        }
        forall i, j | 0 <= i < j < |r| ensures r[i] < r[j] {
          assert r[j] == rest[j - 1];
          if i > 0 { assert r[i] == rest[i - 1]; }
        }
      }
      r
  }

  /** Some child c of x has time_up[c] >= time_in[x]: nothing below c climbs above x. */
  ghost predicate HighChild(g: AdjLists, s: Search, x: int)
    requires Sized(g, s) && 0 <= x < |g|
  {
    exists c :: 0 <= c < |g| && s.parent[c] == x && s.timeUp[c] >= s.timeIn[x]
  }

  /** The test of the search: a non-root with a high child, or a root with more than one child. */
  ghost predicate Cut(g: AdjLists, s: Search, x: int)
    requires Sized(g, s) && 0 <= x < |g|
  {
    if s.parent[x] != -1 then HighChild(g, s, x) else |IndicesWith(s.parent, x)| > 1
  }

  /** cuts holds cuts0 and the vertices visited since s0 that pass the test. */
  ghost predicate CutsAdded(g: AdjLists, s0: Search, s: Search, cuts0: seq<int>, cuts: seq<int>) {
    && Sized(g, s0) && Sized(g, s)
    && forall x :: x in cuts <==> x in cuts0 || (0 <= x < |g| && !s0.visited[x] && s.visited[x] && Cut(g, s, x))
  }

  /** During the scan of v: as CutsAdded for the vertices finished, and v itself iff a non-root with a high child so far. */
  ghost predicate CutsScan(g: AdjLists, s0: Search, s: Search, cuts0: seq<int>, cuts: seq<int>, v: int, p: int) {
    && Sized(g, s0) && Sized(g, s) && 0 <= v < |g|
    && forall x :: x in cuts <==>
         || x in cuts0
         || (0 <= x < |g| && !s0.visited[x] && s.visited[x] && x != v && Cut(g, s, x))
         || (x == v && p != -1 && HighChild(g, s, v))
  }

  /** Lowering time_up[v] leaves the test of every x that v is not a child of. */
  lemma CutLowered(g: AdjLists, s: Search, v: int, m: int, x: int)
    requires Sized(g, s) && 0 <= v < |g| && 0 <= x < |g| && x != v && s.parent[v] != x
    ensures Cut(g, Lowered(s, v, m), x) <==> Cut(g, s, x)
  {
    var s' := Lowered(s, v, m);
    assert s'.parent == s.parent;
    if HighChild(g, s, x) {
      var c :| 0 <= c < |g| && s.parent[c] == x && s.timeUp[c] >= s.timeIn[x];
      assert s'.timeUp[c] == s.timeUp[c];
    }
    if HighChild(g, s', x) {
      var c :| 0 <= c < |g| && s'.parent[c] == x && s'.timeUp[c] >= s'.timeIn[x];
      assert s'.timeUp[c] == s.timeUp[c];
    }
  }

  /** The test of a vertex visited before a search entered from another vertex is the same after it. */
  lemma CutKept(g: AdjLists, s1: Search, s2: Search, u: int, p: int, t1: int, x: int)
    requires Clock(g, s1, t1) && Kept(g, s1, s2, u, p) && 0 <= x < |g| && s1.visited[x] && x != p
    ensures Cut(g, s2, x) <==> Cut(g, s1, x)
  {
    forall c | 0 <= c < |g| ensures (s2.parent[c] == x <==> s1.parent[c] == x) && (s1.parent[c] == x ==> s2.timeUp[c] == s1.timeUp[c]) {
      SameChildren(g, s1, s2, u, p, t1, x, c);
    }
    assert KeptAt(g, s1, s2, u, x);
    assert IndicesWith(s2.parent, x) == IndicesWith(s1.parent, x);
  }

  /** The child search from u gives v exactly one child more. */
  lemma ChildCount(g: AdjLists, s1: Search, s2: Search, u: int, v: int, t1: int)
    requires Clock(g, s1, t1) && Kept(g, s1, s2, u, v) && 0 <= v < |g| && s1.visited[v]
    ensures |IndicesWith(s2.parent, v)| == |IndicesWith(s1.parent, v)| + 1
  {
    forall c | 0 <= c < |g| ensures s2.parent[c] == v <==> s1.parent[c] == v || c == u {
      SameChildren(g, s1, s2, u, v, t1, v, c);
    }
    assert Entry(g, s1, u, t1);
    assert IndicesWith(s2.parent, v) == IndicesWith(s1.parent, v) + {u};
  }

  /** On entering v nothing new is a cut point and v has no children. */
  lemma CutsStart(g: AdjLists, s0: Search, s: Search, cuts0: seq<int>, v: int, p: int)
    requires Sized(g, s0) && Sized(g, s) && 0 <= v < |g| && s.visited[v]
    requires forall x :: 0 <= x < |g| && x != v ==> s.visited[x] == s0.visited[x]
    requires Childless(s, v)
    ensures CutsScan(g, s0, s, cuts0, cuts0, v, p) && |IndicesWith(s.parent, v)| == 0
  {
    assert IndicesWith(s.parent, v) == {};
  }

  /** time_up[v] = min(time_up[v], time_in[u]) keeps the cut points collected. */
  lemma CutsVisited(g: AdjLists, s0: Search, s: Search, cuts0: seq<int>, cuts: seq<int>, v: int, p: int, m: int, timer: int)
    requires Clock(g, s, timer) && Kept(g, s0, s, v, p) && Rooted(g, s0, p) && CutsScan(g, s0, s, cuts0, cuts, v, p)
    ensures CutsScan(g, s0, Lowered(s, v, m), cuts0, cuts, v, p)
  {
    var s' := Lowered(s, v, m);
    NotOwnParent(g, s, v, timer);
    forall x | 0 <= x < |g| && !s0.visited[x] && s.visited[x] && x != v ensures Cut(g, s', x) <==> Cut(g, s, x) {
      CutLowered(g, s, v, m, x);
    }
    assert HighChild(g, s', v) <==> HighChild(g, s, v) by {
      if HighChild(g, s, v) {
        var c :| 0 <= c < |g| && s.parent[c] == v && s.timeUp[c] >= s.timeIn[v];
        assert s'.timeUp[c] == s.timeUp[c];
      }
      if HighChild(g, s', v) {
        var c :| 0 <= c < |g| && s'.parent[c] == v && s'.timeUp[c] >= s'.timeIn[v];
        assert s'.timeUp[c] == s.timeUp[c];
      }
    }
  }

  /** Through the child search from u, v's high children are the earlier ones and possibly u. */
  lemma HighChildStep(g: AdjLists, s1: Search, s2: Search, v: int, u: int, m: int, t1: int)
    requires Clock(g, s1, t1) && Kept(g, s1, s2, u, v) && 0 <= v < |g| && s1.visited[v]
    ensures HighChild(g, Lowered(s2, v, m), v) <==> HighChild(g, s1, v) || s2.timeUp[u] >= s2.timeIn[v]
  {
    var s3 := Lowered(s2, v, m);
    NotOwnParent(g, s1, v, t1);
    assert KeptAt(g, s1, s2, u, v);
    forall c | 0 <= c < |g| ensures (s3.parent[c] == v <==> s1.parent[c] == v || c == u) && (s1.parent[c] == v ==> s3.timeUp[c] == s1.timeUp[c]) {
      SameChildren(g, s1, s2, u, v, t1, v, c);
    }
    if HighChild(g, s1, v) {
      var c :| 0 <= c < |g| && s1.parent[c] == v && s1.timeUp[c] >= s1.timeIn[v];
      assert s3.parent[c] == v;
    }
    if s2.timeUp[u] >= s2.timeIn[v] {
      assert s3.parent[u] == v && u != v;
    }
  }

  /**
   * After the child search from u and the update of time_up[v], inserting v
   * when v is a non-root and time_up[u] >= time_in[v] keeps the scan's
   * account of the cut points.
   */
  lemma CutsChild(g: AdjLists, s0: Search, s1: Search, s2: Search, cuts0: seq<int>, cuts1: seq<int>, cuts2: seq<int>,
                  cuts3: seq<int>, v: int, p: int, u: int, m: int, t1: int)
    requires Clock(g, s1, t1) && Kept(g, s0, s1, v, p) && Rooted(g, s0, p)
    requires CutsScan(g, s0, s1, cuts0, cuts1, v, p)
    requires Kept(g, s1, s2, u, v) && CutsAdded(g, s1, s2, cuts1, cuts2)
    requires forall x :: x in cuts3 <==> x in cuts2 || (x == v && p != -1 && s2.timeUp[u] >= s2.timeIn[v])
    ensures CutsScan(g, s0, Lowered(s2, v, m), cuts0, cuts3, v, p)
  {
    var s3 := Lowered(s2, v, m);
    HighChildStep(g, s1, s2, v, u, m, t1);
    assert KeptAt(g, s1, s2, u, v);
    forall x ensures x in cuts3 <==>
         || x in cuts0
         || (0 <= x < |g| && !s0.visited[x] && s3.visited[x] && x != v && Cut(g, s3, x))
         || (x == v && p != -1 && HighChild(g, s3, v))
    {
      if 0 <= x < |g| && x != v {
        assert KeptAt(g, s0, s1, v, x);
        assert KeptAt(g, s1, s2, u, x);
        if !s0.visited[x] && s2.visited[x] {
          assert x != p;
          CutLowered(g, s2, v, m, x);
          if s1.visited[x] {
            CutKept(g, s1, s2, u, v, t1, x);
          }
        }
      }
    }
  }

  /** After the scan, the root test adds v when it has more than one child. */
  lemma CutsEnd(g: AdjLists, s0: Search, s: Search, cuts0: seq<int>, cuts: seq<int>, cuts': seq<int>, v: int, p: int)
    requires Kept(g, s0, s, v, p) && CutsScan(g, s0, s, cuts0, cuts, v, p)
    requires forall x :: x in cuts' <==> x in cuts || (x == v && p == -1 && |IndicesWith(s.parent, v)| > 1)
    ensures CutsAdded(g, s0, s, cuts0, cuts')
  {
  }

  /** The loop state of the scan of v: the low-link facts, the set's account and v's child count. */
  ghost predicate CutScanning(g: AdjLists, s0: Search, s: Search, cuts0: seq<int>, cuts: seq<int>, n: int,
                              v: int, p: int, k: int, timer: int, t0: int) {
    && Scanning(g, s0, s, v, p, k, timer) && s.timeIn[v] == t0 + 1 && Rooted(g, s0, p)
    && Ascending(cuts) && CutsScan(g, s0, s, cuts0, cuts, v, p) && n == |IndicesWith(s.parent, v)|
  }

  /** Entering v starts its scan with no children and no new cut points. */
  lemma CutEnter(g: AdjLists, s0: Search, cuts0: seq<int>, v: int, p: int, timer: int)
    requires Clock(g, s0, timer) && 0 <= v < |g| && !s0.visited[v]
    requires Rooted(g, s0, p) && (p != -1 ==> v in g[p]) && Ascending(cuts0)
    ensures CutScanning(g, s0, Entered(s0, v, p, timer + 1), cuts0, cuts0, 0, v, p, 0, timer + 1, timer)
  {
    Enter(g, s0, timer, v, p);
    CutsStart(g, s0, Entered(s0, v, p, timer + 1), cuts0, v, p);
  }

  /** The parent entry is skipped. */
  lemma CutSkip(g: AdjLists, s0: Search, s: Search, cuts0: seq<int>, cuts: seq<int>, n: int,
                v: int, p: int, k: int, timer: int, t0: int)
    requires CutScanning(g, s0, s, cuts0, cuts, n, v, p, k, timer, t0) && k < |g[v]| && g[v][k] == p
    ensures CutScanning(g, s0, s, cuts0, cuts, n, v, p, k + 1, timer, t0)
  {
    SkipParent(g, s0, s, v, p, k, timer);
  }

  /** A visited entry lowers time_up[v] to at most its time_in. */
  lemma CutVisited(g: AdjLists, s0: Search, s: Search, cuts0: seq<int>, cuts: seq<int>, n: int,
                   v: int, p: int, k: int, timer: int, t0: int)
    requires CutScanning(g, s0, s, cuts0, cuts, n, v, p, k, timer, t0) && k < |g[v]|
    requires g[v][k] != p && s.visited[g[v][k]]
    ensures CutScanning(g, s0, Lowered(s, v, Min(s.timeUp[v], s.timeIn[g[v][k]])), cuts0, cuts, n, v, p, k + 1, timer, t0)
  {
    var m := Min(s.timeUp[v], s.timeIn[g[v][k]]);
    VisitedStep(g, s0, s, v, p, k, timer);
    CutsVisited(g, s0, s, cuts0, cuts, v, p, m, timer);
  }

  /**
   * An unvisited entry u: after the search from u, time_up[v] takes the
   * minimum with time_up[u], v has one child more, and v joins the set when
   * it is a non-root and time_up[u] >= time_in[v].
   */
  lemma CutChild(g: AdjLists, s0: Search, s1: Search, s2: Search, cuts0: seq<int>, cuts1: seq<int>, cuts2: seq<int>,
                 cuts3: seq<int>, n: int, v: int, p: int, k: int, t1: int, t2: int, t0: int)
    requires CutScanning(g, s0, s1, cuts0, cuts1, n, v, p, k, t1, t0) && k < |g[v]| && g[v][k] != p
    requires Clock(g, s2, t2) && Kept(g, s1, s2, g[v][k], v) && NewLow(g, s1, s2, -1)
    requires CutsAdded(g, s1, s2, cuts1, cuts2) && Ascending(cuts3)
    requires forall x :: x in cuts3 <==> x in cuts2 || (x == v && p != -1 && s2.timeUp[g[v][k]] >= s2.timeIn[v])
    ensures CutScanning(g, s0, Lowered(s2, v, Min(s2.timeUp[v], s2.timeUp[g[v][k]])), cuts0, cuts3, n + 1, v, p, k + 1, t2, t0)
  {
    var u := g[v][k];
    var m := Min(s2.timeUp[v], s2.timeUp[u]);
    ChildStep(g, s0, s1, s2, v, p, k, t1, t2);
    ChildCount(g, s1, s2, u, v, t1);
    CutsChild(g, s0, s1, s2, cuts0, cuts1, cuts2, cuts3, v, p, u, m, t1);
  }

  /** At the end of the scan the root test completes the set's account of the search from v. */
  lemma CutEnd(g: AdjLists, s0: Search, s: Search, cuts0: seq<int>, cuts: seq<int>, cuts': seq<int>, n: int,
               v: int, p: int, timer: int, t0: int)
    requires 0 <= v < |g| && CutScanning(g, s0, s, cuts0, cuts, n, v, p, |g[v]|, timer, t0)
    requires forall x :: x in cuts' <==> x in cuts || (x == v && p == -1 && n > 1)
    ensures Clock(g, s, timer) && Kept(g, s0, s, v, p) && NewLow(g, s0, s, -1) && s.timeIn[v] == t0 + 1
    ensures CutsAdded(g, s0, s, cuts0, cuts')
  {
    ScanEnd(g, s0, s, v, p, timer);
    CutsEnd(g, s0, s, cuts0, cuts, cuts', v, p);
  }

  /**
   * find_cut_points_dfs_(g, v, parent, timer, visited, time_up, time_in,
   * cut_points): the low-link search from v that also inserts into the set
   * every vertex it finishes that passes the cut-point test.
   */
  method CutDfs(g: AdjLists, v: int, p: int, timer: int, visited: array<bool>, timeUp: array<int>, timeIn: array<int>,
                cuts: seq<int>, ghost parent: seq<int>)
    returns (timer': int, cuts': seq<int>, ghost parent': seq<int>)
    requires Clock(g, Snapshot(visited, timeIn, timeUp, parent), timer)
    requires 0 <= v < |g| && !visited[v]
    requires p == -1 || (0 <= p < |g| && visited[p] && v in g[p])
    requires timeUp != timeIn && Ascending(cuts)
    modifies visited, timeUp, timeIn
    ensures Clock(g, Snapshot(visited, timeIn, timeUp, parent'), timer')
    ensures Kept(g, old(Snapshot(visited, timeIn, timeUp, parent)), Snapshot(visited, timeIn, timeUp, parent'), v, p)
    ensures NewLow(g, old(Snapshot(visited, timeIn, timeUp, parent)), Snapshot(visited, timeIn, timeUp, parent'), -1)
    ensures timeIn[v] == timer + 1
    ensures Ascending(cuts')
    ensures CutsAdded(g, old(Snapshot(visited, timeIn, timeUp, parent)), Snapshot(visited, timeIn, timeUp, parent'), cuts, cuts')
    ensures TreeOf(Snapshot(visited, timeIn, timeUp, parent')) == TreeFrom(g, TreeOf(old(Snapshot(visited, timeIn, timeUp, parent))), v, p)
    decreases |IndicesWith(visited[..], false)|, 0
  {
    ghost var s0 := Snapshot(visited, timeIn, timeUp, parent);
    CutEnter(g, s0, cuts, v, p, timer);
    timer' := timer + 1;
    timeIn[v] := timer';
    timeUp[v] := timer';
    visited[v] := true;
    parent' := parent[v := p];
    ghost var s := Entered(s0, v, p, timer');
    assert Snapshot(visited, timeIn, timeUp, parent') == s;
    cuts' := cuts;
    var nChildren := 0;
    var k := 0;
    while k < |g[v]|
      invariant s == Snapshot(visited, timeIn, timeUp, parent')
      invariant CutScanning(g, s0, s, cuts, cuts', nChildren, v, p, k, timer', timer)
      invariant TreeScan(g, TreeOf(s), v, k) == TreeFrom(g, TreeOf(s0), v, p)
    {
      KeptGrown(g, s0, s, v, p);
      FewerWith(s0.visited, s.visited, false, v);
      timer', cuts', nChildren, parent', s := CutStep(g, v, p, k, timer', visited, timeUp, timeIn, cuts', nChildren, parent', s0, s, cuts, timer);
      k := k + 1;
    }
    cuts' := RootCut(g, s0, s, cuts, cuts', nChildren, v, p, timer', timer);
    TreeScanned(g, TreeOf(s), v);
  }

  /**
   * After the loop over v's list: a root with more than one child goes into
   * the set, and the search from v has added exactly the vertices that pass
   * the cut test.
   */
  method RootCut(g: AdjLists, ghost s0: Search, ghost s: Search, ghost cuts0: seq<int>, cuts: seq<int>, nChildren: int,
                 v: int, p: int, ghost timer: int, ghost t0: int)
    returns (cuts': seq<int>)
    requires 0 <= v < |g| && CutScanning(g, s0, s, cuts0, cuts, nChildren, v, p, |g[v]|, timer, t0)
    ensures Ascending(cuts') && forall x :: x in cuts' <==> x in cuts || (x == v && p == -1 && nChildren > 1)
    ensures Clock(g, s, timer) && Kept(g, s0, s, v, p) && NewLow(g, s0, s, -1) && s.timeIn[v] == t0 + 1
    ensures CutsAdded(g, s0, s, cuts0, cuts')
  {
    cuts' := cuts;
    if p == -1 && nChildren > 1 {
      cuts' := SetInsert(cuts', v);
    }
    CutEnd(g, s0, s, cuts0, cuts, cuts', nChildren, v, p, timer, t0);
  }

  /**
   * One pass of the loop over v's list in find_cut_points_dfs_: the parent
   * is skipped, a visited entry lowers time_up[v], and an unvisited one is
   * searched from, lowers time_up[v], adds one to the child count and, for
   * a non-root v, puts v in the set when time_up[u] >= time_in[v].
   */
  method CutStep(g: AdjLists, v: int, p: int, k: int, timer: int, visited: array<bool>, timeUp: array<int>, timeIn: array<int>,
                 cuts: seq<int>, nChildren: int, ghost parent: seq<int>, ghost s0: Search, ghost s: Search,
                 ghost cuts0: seq<int>, ghost t0: int)
    returns (timer': int, cuts': seq<int>, nChildren': int, ghost parent': seq<int>, ghost s': Search)
    requires s == Snapshot(visited, timeIn, timeUp, parent)
    requires CutScanning(g, s0, s, cuts0, cuts, nChildren, v, p, k, timer, t0) && k < |g[v]|
    requires timeUp != timeIn
    modifies visited, timeUp, timeIn
    ensures s' == Snapshot(visited, timeIn, timeUp, parent')
    ensures CutScanning(g, s0, s', cuts0, cuts', nChildren', v, p, k + 1, timer', t0)
    ensures TreeScan(g, TreeOf(s'), v, k + 1) == TreeScan(g, TreeOf(s), v, k)
    decreases |IndicesWith(visited[..], false)|, 1
  {
    var u := g[v][k];
    timer', cuts', nChildren', parent' := timer, cuts, nChildren, parent;
    if u == p {
      CutSkip(g, s0, s, cuts0, cuts, nChildren, v, p, k, timer, t0);
      s' := s;
    } else if visited[u] {
      CutVisited(g, s0, s, cuts0, cuts, nChildren, v, p, k, timer, t0);
      timeUp[v] := Min(timeUp[v], timeIn[u]);
      s' := Lowered(s, v, Min(s.timeUp[v], s.timeIn[u]));
      assert Snapshot(visited, timeIn, timeUp, parent') == s';
    } else {
      timer', cuts', parent' := CutDfs(g, u, v, timer, visited, timeUp, timeIn, cuts, parent);
      ghost var s2, cuts2 := Snapshot(visited, timeIn, timeUp, parent'), cuts';
      timeUp[v] := Min(timeUp[v], timeUp[u]);
      s' := Lowered(s2, v, Min(s2.timeUp[v], s2.timeUp[u]));
      assert Snapshot(visited, timeIn, timeUp, parent') == s';
      if p != -1 && timeUp[u] >= timeIn[v] {
        cuts' := SetInsert(cuts', v);
      }
      CutChild(g, s0, s, s2, cuts0, cuts, cuts2, cuts', nChildren, v, p, k, timer, timer', t0);
      nChildren' := nChildren + 1;
    }
  }

  /** The set after the outer loop so far: the visited vertices that pass the test. */
  ghost predicate CutsSoFar(g: AdjLists, s: Search, cuts: seq<int>) {
    Sized(g, s) && Ascending(cuts) && forall x :: x in cuts <==> 0 <= x < |g| && s.visited[x] && Cut(g, s, x)
  }

  /** A search from the root v keeps the set's account. */
  lemma CutsRoot(g: AdjLists, s1: Search, s2: Search, cuts1: seq<int>, cuts2: seq<int>, v: int, t1: int)
    requires Clock(g, s1, t1) && CutsSoFar(g, s1, cuts1) && Kept(g, s1, s2, v, -1)
    requires CutsAdded(g, s1, s2, cuts1, cuts2) && Ascending(cuts2)
    ensures CutsSoFar(g, s2, cuts2)
  {
    forall x | 0 <= x < |g| && s1.visited[x] ensures (Cut(g, s2, x) <==> Cut(g, s1, x)) && s2.visited[x] {
      CutKept(g, s1, s2, v, -1, t1, x);
      assert KeptAt(g, s1, s2, v, x);
    }
  }

  /**
   * One pass of find_cut_points' loop over the vertices: a search from v
   * when it is still unvisited.  The search so far stays the start of the
   * depth-first forest, and the set keeps its account.
   */
  method CutRoot(g: AdjLists, v: int, timer: int, visited: array<bool>, timeUp: array<int>, timeIn: array<int>,
                cuts: seq<int>, ghost parent: seq<int>)
    returns (timer': int, cuts': seq<int>, ghost parent': seq<int>)
    requires OuterForest(g, Snapshot(visited, timeIn, timeUp, parent), timer, v) && v < |g|
    requires timeUp != timeIn && CutsSoFar(g, Snapshot(visited, timeIn, timeUp, parent), cuts)
    modifies visited, timeUp, timeIn
    ensures OuterForest(g, Snapshot(visited, timeIn, timeUp, parent'), timer', v + 1)
    ensures CutsSoFar(g, Snapshot(visited, timeIn, timeUp, parent'), cuts')
  {
    ghost var s1 := Snapshot(visited, timeIn, timeUp, parent);
    timer', cuts', parent' := timer, cuts, parent;
    if !visited[v] {
      timer', cuts', parent' := CutDfs(g, v, -1, timer, visited, timeUp, timeIn, cuts, parent);
      RootSearched(g, s1, Snapshot(visited, timeIn, timeUp, parent'), v, timer, timer');
      CutsRoot(g, s1, Snapshot(visited, timeIn, timeUp, parent'), cuts, cuts', v, timer);
    } else {
      TreeRootsStep(g, TreeOf(s1), TreeOf(s1), v);
    }
  }

  /**
   * find_cut_points(g): a search from every vertex still unvisited, in
   * increasing order.  Every vertex is visited once, and the set holds
   * exactly the vertices that pass the cut-point test, in ascending order.
   */
  method FindCutPoints(g: AdjLists) returns (ghost s: Search, cuts: seq<int>)
    requires ValidGraph(g)
    ensures Searched(g, s) && s.parent == SearchForest(g).from && RootsFirst(g, s)
    ensures Ascending(cuts) && forall x :: x in cuts <==> 0 <= x < |g| && Cut(g, s, x)
  {
    var visited := new bool[|g|](_ => false);
    var timeUp := new int[|g|](_ => 0);
    var timeIn := new int[|g|](_ => 0);
    ghost var parent := seq(|g|, _ => -1);
    Start(g, Snapshot(visited, timeIn, timeUp, parent));
    assert TreeOf(Snapshot(visited, timeIn, timeUp, parent)) == DfsTree(seq(|g|, _ => false), seq(|g|, _ => -1));
    cuts := [];
    var timer := 0;
    var v := 0;
    while v < |g|
      invariant OuterForest(g, Snapshot(visited, timeIn, timeUp, parent), timer, v)
      invariant CutsSoFar(g, Snapshot(visited, timeIn, timeUp, parent), cuts)
    {
      timer, cuts, parent := CutRoot(g, v, timer, visited, timeUp, timeIn, cuts, parent);
      v := v + 1;
    }
    s := Snapshot(visited, timeIn, timeUp, parent);
    AllVisited(g, s, timer);
  }

  /**
   * main, without its I/O: the cut points of the undirected graph read, as
   * the 1-based numbers printed after their count, in ascending order.  The
   * search walks each unordered_set in the order `lists` gives, any order of
   * the elements read.
   */
  method CutPoints(n: nat, edges: seq<(int, int)>, lists: AdjLists) returns (ghost s: Search, printed: seq<int>)
    requires EdgesIn(n, edges) && Reordered(lists, InputGraph(n, edges, false, true))
    ensures Searched(lists, s)
    ensures s.parent == SearchForest(lists).from && RootsFirst(lists, s)
    ensures Ascending(printed)
    ensures forall y :: y in printed <==> 1 <= y <= n && Cut(lists, s, y - 1)
  {
    var stored := ReadGraph(n, edges, false, true);
    ReorderedValid(lists, stored);
    var cuts;
    s, cuts := FindCutPoints(lists);
    printed := seq(|cuts|, i requires 0 <= i < |cuts| => cuts[i] + 1);
    forall y ensures y in printed <==> y - 1 in cuts {
      if y in printed {
        var i :| 0 <= i < |printed| && printed[i] == y;
        assert cuts[i] == y - 1;
      }
      if y - 1 in cuts {
        var i :| 0 <= i < |cuts| && cuts[i] == y - 1;
        assert printed[i] == y;
      }
    }
  }
}
