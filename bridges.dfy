/**
 * The bridges program: an undirected multigraph on unordered multisets,
 * the low-link search of find_bridges_dfs_ collecting the code of every
 * tree edge (v, u) with time_up[u] > time_in[v] that is not a multiple
 * edge, and main, which prints how many there are and then, sorted, the
 * number of the first input line naming each of them.
 */
module Bridges {
  import opened Graphs
  import opened GraphStore
  import opened PairEncoding
  import opened LowLink

  /**
   * The tree edge into x is reported: x has a parent p, time_up[x] >
   * time_in[p], and p's multiset holds x only once.
   */
  ghost predicate Bridge(g: AdjLists, s: Search, x: int)
    requires Sized(g, s) && 0 <= x < |g|
  {
    var p := s.parent[x];
    0 <= p < |g| && s.timeUp[x] > s.timeIn[p] && !IsMultipleEdge(g, p, x)
  }

  /**
   * kids lists the child ends of the reported edges: kids0 and the vertices
   * other than v visited since s0 whose tree edge is reported.
   */
  ghost predicate BridgesAdded(g: AdjLists, s0: Search, s: Search, kids0: seq<int>, kids: seq<int>, v: int) {
    && Sized(g, s0) && Sized(g, s)
    && forall x :: x in kids <==> x in kids0 || (0 <= x < |g| && !s0.visited[x] && s.visited[x] && x != v && Bridge(g, s, x))
  }

  /** The vector of codes: bridges[i] is the code of the tree edge into kids[i], each child end once. */
  ghost predicate Tally(g: AdjLists, s: Search, enc: PairEncoder, kids: seq<int>, bridges: seq<int>) {
    && Sized(g, s) && NoDup(kids) && |bridges| == |kids|
    && forall i :: 0 <= i < |kids| ==>
         0 <= kids[i] < |g| && s.visited[kids[i]] && bridges[i] == Encode(enc, s.parent[kids[i]], kids[i])
  }

  /** The loop state of the scan of v: the low-link facts and the codes collected. */
  ghost predicate BridgeScanning(g: AdjLists, s0: Search, s: Search, enc: PairEncoder, kids0: seq<int>, kids: seq<int>,
                                 bridges: seq<int>, v: int, p: int, k: int, timer: int, t0: int) {
    && Scanning(g, s0, s, v, p, k, timer) && s.timeIn[v] == t0 + 1 && Rooted(g, s0, p)
    && BridgesAdded(g, s0, s, kids0, kids, v) && Tally(g, s, enc, kids, bridges)
  }

  /** Lowering time_up[v] leaves the test of every other vertex. */
  lemma BridgeLowered(g: AdjLists, s: Search, v: int, m: int)
    requires Sized(g, s) && 0 <= v < |g|
    ensures forall x :: 0 <= x < |g| && x != v ==> (Bridge(g, Lowered(s, v, m), x) <==> Bridge(g, s, x))
  {
    forall x | 0 <= x < |g| && x != v ensures Bridge(g, Lowered(s, v, m), x) <==> Bridge(g, s, x) {
      assert Lowered(s, v, m).timeUp[x] == s.timeUp[x];
    }
  }

  /** A search entered from another vertex leaves the test of a vertex visited before it. */
  lemma BridgeKept(g: AdjLists, s1: Search, s2: Search, u: int, p: int, t1: int, x: int)
    requires Clock(g, s1, t1) && Kept(g, s1, s2, u, p) && 0 <= x < |g| && s1.visited[x]
    ensures Bridge(g, s2, x) <==> Bridge(g, s1, x)
  {
    assert KeptAt(g, s1, s2, u, x) && Entry(g, s1, x, t1);
    var q := s1.parent[x];
    if q != -1 {
      assert TreeEdge(g, s1, x);
      assert KeptAt(g, s1, s2, u, q);
    }
  }

  /** A search entered from another vertex keeps the codes: their vertices and parents are unchanged. */
  lemma TallyKept(g: AdjLists, s1: Search, s2: Search, u: int, p: int, enc: PairEncoder, kids: seq<int>, bridges: seq<int>)
    requires Kept(g, s1, s2, u, p) && Tally(g, s1, enc, kids, bridges)
    ensures Tally(g, s2, enc, kids, bridges)
  {
    forall i | 0 <= i < |kids| ensures s2.visited[kids[i]] && s2.parent[kids[i]] == s1.parent[kids[i]] {
      assert KeptAt(g, s1, s2, u, kids[i]);
    }
  }

  /** Entering v starts its scan with no new codes. */
  lemma BridgeEnter(g: AdjLists, s0: Search, enc: PairEncoder, kids: seq<int>, bridges: seq<int>, v: int, p: int, timer: int)
    requires Clock(g, s0, timer) && 0 <= v < |g| && !s0.visited[v]
    requires Rooted(g, s0, p) && (p != -1 ==> v in g[p]) && Tally(g, s0, enc, kids, bridges)
    ensures BridgeScanning(g, s0, Entered(s0, v, p, timer + 1), enc, kids, kids, bridges, v, p, 0, timer + 1, timer)
  {
    Enter(g, s0, timer, v, p);
    TallyKept(g, s0, Entered(s0, v, p, timer + 1), v, p, enc, kids, bridges);
  }

  /** The parent entry is skipped. */
  lemma BridgeSkip(g: AdjLists, s0: Search, s: Search, enc: PairEncoder, kids0: seq<int>, kids: seq<int>, bridges: seq<int>,
                   v: int, p: int, k: int, timer: int, t0: int)
    requires BridgeScanning(g, s0, s, enc, kids0, kids, bridges, v, p, k, timer, t0) && k < |g[v]| && g[v][k] == p
    ensures BridgeScanning(g, s0, s, enc, kids0, kids, bridges, v, p, k + 1, timer, t0)
  {
    SkipParent(g, s0, s, v, p, k, timer);
  }

  /** A visited entry lowers time_up[v] to at most its time_in. */
  lemma BridgeVisited(g: AdjLists, s0: Search, s: Search, enc: PairEncoder, kids0: seq<int>, kids: seq<int>, bridges: seq<int>,
                      v: int, p: int, k: int, timer: int, t0: int)
    requires BridgeScanning(g, s0, s, enc, kids0, kids, bridges, v, p, k, timer, t0) && k < |g[v]|
    requires g[v][k] != p && s.visited[g[v][k]]
    ensures BridgeScanning(g, s0, Lowered(s, v, Min(s.timeUp[v], s.timeIn[g[v][k]])), enc, kids0, kids, bridges, v, p, k + 1, timer, t0)
  {
    VisitedStep(g, s0, s, v, p, k, timer);
    BridgeLowered(g, s, v, Min(s.timeUp[v], s.timeIn[g[v][k]]));
  }

  /**
   * An unvisited entry u: after the search from u and the update of
   * time_up[v], the code of (v, u) is pushed when the tree edge into u
   * passes the test.
   */
  lemma BridgeChild(g: AdjLists, s0: Search, s1: Search, s2: Search, enc: PairEncoder, kids0: seq<int>,
                    kids1: seq<int>, bridges1: seq<int>, kids2: seq<int>, bridges2: seq<int>,
                    kids3: seq<int>, bridges3: seq<int>, v: int, p: int, k: int, t1: int, t2: int, t0: int)
    requires BridgeScanning(g, s0, s1, enc, kids0, kids1, bridges1, v, p, k, t1, t0) && k < |g[v]| && g[v][k] != p
    requires Clock(g, s2, t2) && Kept(g, s1, s2, g[v][k], v) && NewLow(g, s1, s2, -1)
    requires BridgesAdded(g, s1, s2, kids1, kids2, g[v][k]) && Tally(g, s2, enc, kids2, bridges2)
    requires if Bridge(g, s2, g[v][k]) then kids3 == kids2 + [g[v][k]] && bridges3 == bridges2 + [Encode(enc, v, g[v][k])]
             else kids3 == kids2 && bridges3 == bridges2
    ensures BridgeScanning(g, s0, Lowered(s2, v, Min(s2.timeUp[v], s2.timeUp[g[v][k]])), enc, kids0, kids3, bridges3, v, p, k + 1, t2, t0)
  {
    var u := g[v][k];
    var s3 := Lowered(s2, v, Min(s2.timeUp[v], s2.timeUp[u]));
    ChildStep(g, s0, s1, s2, v, p, k, t1, t2);
    BridgeLowered(g, s2, v, Min(s2.timeUp[v], s2.timeUp[u]));
    KeptGrown(g, s0, s1, v, p);
    KeptGrown(g, s1, s2, u, v);
    assert KeptAt(g, s1, s2, u, v);
    forall x | 0 <= x < |g| ensures x in kids3 <==> x in kids0 || (!s0.visited[x] && s3.visited[x] && x != v && Bridge(g, s3, x)) {
      if s1.visited[x] {
        BridgeKept(g, s1, s2, u, v, t1, x);
      }
    }
    forall i | 0 <= i < |kids3| ensures 0 <= kids3[i] < |g| && s3.visited[kids3[i]] && bridges3[i] == Encode(enc, s3.parent[kids3[i]], kids3[i]) {
      if i < |kids2| {
        assert kids3[i] == kids2[i] && bridges3[i] == bridges2[i];
      }
    }
  }

  /** At the end of the scan the search from v has collected its codes. */
  lemma BridgeEnd(g: AdjLists, s0: Search, s: Search, enc: PairEncoder, kids0: seq<int>, kids: seq<int>, bridges: seq<int>,
                  v: int, p: int, timer: int, t0: int)
    requires 0 <= v < |g| && BridgeScanning(g, s0, s, enc, kids0, kids, bridges, v, p, |g[v]|, timer, t0)
    ensures Clock(g, s, timer) && Kept(g, s0, s, v, p) && NewLow(g, s0, s, -1) && s.timeIn[v] == t0 + 1
    ensures BridgesAdded(g, s0, s, kids0, kids, v) && Tally(g, s, enc, kids, bridges)
  {
    ScanEnd(g, s0, s, v, p, timer);
  }

  /**
   * find_bridges_dfs_(g, v, parent, timer, visited, time_up, time_in,
   * bridges): the low-link search from v that also pushes the code of every
   * reported tree edge below v.
   */
  method BridgeDfs(g: AdjLists, enc: PairEncoder, v: int, p: int, timer: int, visited: array<bool>, timeUp: array<int>,
                   timeIn: array<int>, ghost kids: seq<int>, bridges: seq<int>, ghost parent: seq<int>)
    returns (timer': int, ghost kids': seq<int>, bridges': seq<int>, ghost parent': seq<int>)
    requires Clock(g, Snapshot(visited, timeIn, timeUp, parent), timer)
    requires 0 <= v < |g| && !visited[v]
    requires p == -1 || (0 <= p < |g| && visited[p] && v in g[p])
    requires timeUp != timeIn && Tally(g, Snapshot(visited, timeIn, timeUp, parent), enc, kids, bridges)
    modifies visited, timeUp, timeIn
    ensures Clock(g, Snapshot(visited, timeIn, timeUp, parent'), timer')
    ensures Kept(g, old(Snapshot(visited, timeIn, timeUp, parent)), Snapshot(visited, timeIn, timeUp, parent'), v, p)
    ensures NewLow(g, old(Snapshot(visited, timeIn, timeUp, parent)), Snapshot(visited, timeIn, timeUp, parent'), -1)
    ensures timeIn[v] == timer + 1
    ensures BridgesAdded(g, old(Snapshot(visited, timeIn, timeUp, parent)), Snapshot(visited, timeIn, timeUp, parent'), kids, kids', v)
    ensures Tally(g, Snapshot(visited, timeIn, timeUp, parent'), enc, kids', bridges')
    ensures TreeOf(Snapshot(visited, timeIn, timeUp, parent')) == TreeFrom(g, TreeOf(old(Snapshot(visited, timeIn, timeUp, parent))), v, p)
    decreases |IndicesWith(visited[..], false)|, 0
  {
    ghost var s0 := Snapshot(visited, timeIn, timeUp, parent);
    BridgeEnter(g, s0, enc, kids, bridges, v, p, timer);
    timer' := timer + 1;
    timeIn[v] := timer';
    timeUp[v] := timer';
    visited[v] := true;
    parent' := parent[v := p];
    ghost var s := Entered(s0, v, p, timer');
    assert Snapshot(visited, timeIn, timeUp, parent') == s;
    kids', bridges' := kids, bridges;
    var k := 0;
    while k < |g[v]|
      invariant s == Snapshot(visited, timeIn, timeUp, parent')
      invariant BridgeScanning(g, s0, s, enc, kids, kids', bridges', v, p, k, timer', timer)
      invariant TreeScan(g, TreeOf(s), v, k) == TreeFrom(g, TreeOf(s0), v, p)
    {
      KeptGrown(g, s0, s, v, p);
      FewerWith(s0.visited, s.visited, false, v);
      timer', kids', bridges', parent', s := BridgeStep(g, enc, v, p, k, timer', visited, timeUp, timeIn, kids', bridges', parent', s0, s, kids, timer);
      k := k + 1;
    }
    BridgeEnd(g, s0, s, enc, kids, kids', bridges', v, p, timer', timer);
    TreeScanned(g, TreeOf(s), v);
  }

  /**
   * One pass of the loop over v's list in find_bridges_dfs_: the parent is
   * skipped, a visited entry lowers time_up[v], and an unvisited one u is
   * searched from, lowers time_up[v], and has the code of (v, u) pushed when
   * time_up[u] > time_in[v] and the edge is not multiple.
   */
  method BridgeStep(g: AdjLists, enc: PairEncoder, v: int, p: int, k: int, timer: int, visited: array<bool>, timeUp: array<int>,
                    timeIn: array<int>, ghost kids: seq<int>, bridges: seq<int>, ghost parent: seq<int>, ghost s0: Search,
                    ghost s: Search, ghost kids0: seq<int>, ghost t0: int)
    returns (timer': int, ghost kids': seq<int>, bridges': seq<int>, ghost parent': seq<int>, ghost s': Search)
    requires s == Snapshot(visited, timeIn, timeUp, parent)
    requires BridgeScanning(g, s0, s, enc, kids0, kids, bridges, v, p, k, timer, t0) && k < |g[v]|
    requires timeUp != timeIn
    modifies visited, timeUp, timeIn
    ensures s' == Snapshot(visited, timeIn, timeUp, parent')
    ensures BridgeScanning(g, s0, s', enc, kids0, kids', bridges', v, p, k + 1, timer', t0)
    ensures TreeScan(g, TreeOf(s'), v, k + 1) == TreeScan(g, TreeOf(s), v, k)
    decreases |IndicesWith(visited[..], false)|, 1
  {
    var u := g[v][k];
    timer', kids', bridges', parent' := timer, kids, bridges, parent;
    if u == p {
      BridgeSkip(g, s0, s, enc, kids0, kids, bridges, v, p, k, timer, t0);
      s' := s;
    } else if visited[u] {
      BridgeVisited(g, s0, s, enc, kids0, kids, bridges, v, p, k, timer, t0);
      timeUp[v] := Min(timeUp[v], timeIn[u]);
      s' := Lowered(s, v, Min(s.timeUp[v], s.timeIn[u]));
      assert Snapshot(visited, timeIn, timeUp, parent') == s';
    } else {
      timer', kids', bridges', parent' := BridgeDfs(g, enc, u, v, timer, visited, timeUp, timeIn, kids, bridges, parent);
      ghost var s2, kids2, bridges2 := Snapshot(visited, timeIn, timeUp, parent'), kids', bridges';
      assert KeptAt(g, s, s2, u, v);
      timeUp[v] := Min(timeUp[v], timeUp[u]);
      s' := Lowered(s2, v, Min(s2.timeUp[v], s2.timeUp[u]));
      assert Snapshot(visited, timeIn, timeUp, parent') == s';
      if timeUp[u] > timeIn[v] && !IsMultipleEdge(g, v, u) {
        kids', bridges' := kids' + [u], bridges' + [Encode(enc, v, u)];
      }
      BridgeChild(g, s0, s, s2, enc, kids0, kids, bridges, kids2, bridges2, kids', bridges', v, p, k, timer, timer', t0);
    }
  }

  /** The codes after the outer loop so far: one for each visited vertex whose tree edge is reported. */
  ghost predicate BridgesSoFar(g: AdjLists, s: Search, kids: seq<int>) {
    Sized(g, s) && forall x :: x in kids <==> 0 <= x < |g| && s.visited[x] && Bridge(g, s, x)
  }

  /** A search from the root v keeps the account: v itself has no parent. */
  lemma BridgesRoot(g: AdjLists, s1: Search, s2: Search, kids1: seq<int>, kids2: seq<int>, v: int, t1: int)
    requires Clock(g, s1, t1) && BridgesSoFar(g, s1, kids1) && Kept(g, s1, s2, v, -1)
    requires BridgesAdded(g, s1, s2, kids1, kids2, v)
    ensures BridgesSoFar(g, s2, kids2)
  {
    forall x | 0 <= x < |g| && s1.visited[x] ensures (Bridge(g, s2, x) <==> Bridge(g, s1, x)) && s2.visited[x] {
      BridgeKept(g, s1, s2, v, -1, t1, x);
      assert KeptAt(g, s1, s2, v, x);
    }
  }

  /**
   * One pass of find_bridges' loop over the vertices: a search from v when
   * it is still unvisited.  The search so far stays the start of the
   * depth-first forest, and the codes keep their account.
   */
  method BridgeRoot(g: AdjLists, enc: PairEncoder, v: int, timer: int, visited: array<bool>, timeUp: array<int>,
                    timeIn: array<int>, ghost kids: seq<int>, bridges: seq<int>, ghost parent: seq<int>)
    returns (timer': int, ghost kids': seq<int>, bridges': seq<int>, ghost parent': seq<int>)
    requires OuterForest(g, Snapshot(visited, timeIn, timeUp, parent), timer, v) && v < |g| && timeUp != timeIn
    requires BridgesSoFar(g, Snapshot(visited, timeIn, timeUp, parent), kids)
    requires Tally(g, Snapshot(visited, timeIn, timeUp, parent), enc, kids, bridges)
    modifies visited, timeUp, timeIn
    ensures OuterForest(g, Snapshot(visited, timeIn, timeUp, parent'), timer', v + 1)
    ensures BridgesSoFar(g, Snapshot(visited, timeIn, timeUp, parent'), kids')
    ensures Tally(g, Snapshot(visited, timeIn, timeUp, parent'), enc, kids', bridges')
  {
    ghost var s1 := Snapshot(visited, timeIn, timeUp, parent);
    timer', kids', bridges', parent' := timer, kids, bridges, parent;
    if !visited[v] {
      timer', kids', bridges', parent' := BridgeDfs(g, enc, v, -1, timer, visited, timeUp, timeIn, kids, bridges, parent);
      RootSearched(g, s1, Snapshot(visited, timeIn, timeUp, parent'), v, timer, timer');
      BridgesRoot(g, s1, Snapshot(visited, timeIn, timeUp, parent'), kids, kids', v, timer);
    } else {
      TreeRootsStep(g, TreeOf(s1), TreeOf(s1), v);
    }
  }

  /**
   * find_bridges(g): a search from every vertex still unvisited, in
   * increasing order.  The codes returned are those of the reported tree
   * edges, one per child end.
   */
  method FindBridges(g: AdjLists, enc: PairEncoder) returns (ghost s: Search, ghost kids: seq<int>, bridges: seq<int>)
    requires ValidGraph(g)
    ensures Searched(g, s) && s.parent == SearchForest(g).from && RootsFirst(g, s)
    ensures Tally(g, s, enc, kids, bridges)
    ensures forall x :: x in kids <==> 0 <= x < |g| && Bridge(g, s, x)
  {
    var visited := new bool[|g|](_ => false);
    var timeUp := new int[|g|](_ => 0);
    var timeIn := new int[|g|](_ => 0);
    ghost var parent := seq(|g|, _ => -1);
    Start(g, Snapshot(visited, timeIn, timeUp, parent));
    assert TreeOf(Snapshot(visited, timeIn, timeUp, parent)) == DfsTree(seq(|g|, _ => false), seq(|g|, _ => -1));
    kids, bridges := [], [];
    var timer := 0;
    var v := 0;
    while v < |g|
      invariant OuterForest(g, Snapshot(visited, timeIn, timeUp, parent), timer, v)
      invariant BridgesSoFar(g, Snapshot(visited, timeIn, timeUp, parent), kids)
      invariant Tally(g, Snapshot(visited, timeIn, timeUp, parent), enc, kids, bridges)
    {
      timer, kids, bridges, parent := BridgeRoot(g, enc, v, timer, visited, timeUp, timeIn, kids, bridges, parent);
      v := v + 1;
    }
    s := Snapshot(visited, timeIn, timeUp, parent);
    AllVisited(g, s, timer);
  }

  /** The input line e names the edge a - b, in either orientation. */
  ghost predicate Links(e: (int, int), a: int, b: int) {
    (e.0 - 1 == a && e.1 - 1 == b) || (e.0 - 1 == b && e.1 - 1 == a)
  }

  /** The 1-based number of the first input line naming a - b, or 0 when none does. */
  ghost function LineOf(edges: seq<(int, int)>, a: int, b: int): nat
    decreases |edges|
  {
    if edges == [] then 0
    else
      var r := LineOf(edges[..|edges| - 1], a, b);
      if r != 0 then r else if Links(edges[|edges| - 1], a, b) then |edges| else 0
  }

  /** LineOf is the first line naming the edge, and 0 exactly when no line does. */
  lemma {:induction false} LineOfFirst(edges: seq<(int, int)>, a: int, b: int)
    ensures LineOf(edges, a, b) <= |edges|
    ensures LineOf(edges, a, b) != 0 ==>
      Links(edges[LineOf(edges, a, b) - 1], a, b) && forall j :: 0 <= j < LineOf(edges, a, b) - 1 ==> !Links(edges[j], a, b)
    ensures LineOf(edges, a, b) == 0 <==> forall j :: 0 <= j < |edges| ==> !Links(edges[j], a, b)
    decreases |edges|
  {
    if edges != [] {
      var init := edges[..|edges| - 1];
      LineOfFirst(init, a, b);
      assert forall j :: 0 <= j < |init| ==> init[j] == edges[j];
    }
  }

  /**
   * The edges_codes part of main's input loop: emplace(encode(from - 1,
   * to - 1), i + 1), which keeps the number already stored for a code.
   * Each edge read maps to the number of the first line naming it.
   */
  method EdgeCodes(n: nat, enc: PairEncoder, edges: seq<(int, int)>) returns (codes: map<int, int>)
    requires EdgesIn(n, edges) && enc.key == n && !enc.ordered
    ensures forall a, b :: 0 <= a < n && 0 <= b < n ==>
      (Encode(enc, a, b) in codes <==> LineOf(edges, a, b) != 0) &&
      (Encode(enc, a, b) in codes ==> codes[Encode(enc, a, b)] == LineOf(edges, a, b))
  {
    codes := map[];
    var i := 0;
    while i < |edges|
      invariant 0 <= i <= |edges|
      invariant forall a, b :: 0 <= a < n && 0 <= b < n ==>
        (Encode(enc, a, b) in codes <==> LineOf(edges[..i], a, b) != 0) &&
        (Encode(enc, a, b) in codes ==> codes[Encode(enc, a, b)] == LineOf(edges[..i], a, b))
    {
      ghost var codes0 := codes;
      var code := Encode(enc, edges[i].0 - 1, edges[i].1 - 1);
      if code !in codes {
        codes := codes[code := i + 1];
      }
      forall a, b | 0 <= a < n && 0 <= b < n
        ensures (Encode(enc, a, b) in codes <==> LineOf(edges[..i + 1], a, b) != 0)
        ensures Encode(enc, a, b) in codes ==> codes[Encode(enc, a, b)] == LineOf(edges[..i + 1], a, b)
      {
        assert edges[..i + 1][..i] == edges[..i];
        EncodeUnorderedInjective(enc, a, b, edges[i].0 - 1, edges[i].1 - 1);
      }
      i := i + 1;
    }
    assert edges[..i] == edges;
  }

  /** Sorted in non-decreasing order, as std::sort leaves a vector. */
  ghost predicate NonDecreasing(l: seq<int>) {
    forall i, j :: 0 <= i < j < |l| ==> l[i] <= l[j]
  }

  /** A lower bound of a sorted list can go in front of it. */
  lemma ConsSorted(y: int, l: seq<int>)
    requires NonDecreasing(l) && forall z :: z in multiset(l) ==> y <= z
    ensures NonDecreasing([y] + l)
  {
    forall j | 0 <= j < |l| ensures y <= l[j] {
      assert l[j] in multiset(l);
    }
  }

  /** x put into the sorted l before its first greater element. */
  function InsertSorted(l: seq<int>, x: int): (r: seq<int>)
    requires NonDecreasing(l)
    ensures NonDecreasing(r) && multiset(r) == multiset(l) + multiset{x}
    decreases |l|
  {
    if l == [] || x <= l[0] then
      ConsSorted(x, l);
      [x] + l
    else
      var rest := InsertSorted(l[1..], x);
      assert l == [l[0]] + l[1..];
      ConsSorted(l[0], rest);
      [l[0]] + rest
  }

  /** std::sort: the same numbers, non-decreasing. */
  function Sort(l: seq<int>): (r: seq<int>)
    ensures NonDecreasing(r) && multiset(r) == multiset(l)
    decreases |l|
  {
    if l == [] then []
    else
      assert l == [l[0]] + l[1..];
      InsertSorted(Sort(l[1..]), l[0])
  }

  /** The number of the first input line naming the tree edge into each child end, in the order of kids. */
  ghost function BridgeLines(edges: seq<(int, int)>, s: Search, kids: seq<int>): seq<int>
    requires forall x :: x in kids ==> 0 <= x < |s.parent|
  {
    seq(|kids|, i requires 0 <= i < |kids| => assert kids[i] in kids; LineOf(edges, s.parent[kids[i]], kids[i]))
  }

  /**
   * The renumbering loop of main: bridge = edges_codes[bridge], where
   * operator[] yields 0 for a code never stored.
   */
  method Renumber(bridges: seq<int>, codes: map<int, int>) returns (numbers: seq<int>)
    ensures |numbers| == |bridges|
    ensures forall i :: 0 <= i < |bridges| ==> numbers[i] == (if bridges[i] in codes then codes[bridges[i]] else 0)
  {
    numbers := bridges;
    var i := 0;
    while i < |numbers|
      invariant 0 <= i <= |numbers| == |bridges|
      invariant forall j :: 0 <= j < i ==> numbers[j] == (if bridges[j] in codes then codes[bridges[j]] else 0)
      invariant forall j :: i <= j < |numbers| ==> numbers[j] == bridges[j]
    {
      numbers := numbers[i := if numbers[i] in codes then codes[numbers[i]] else 0];
      i := i + 1;
    }
  }

  /** The tree edge into a searched vertex x was read on some line, so LineOf names one. */
  lemma TreeEdgeLine(g: AdjLists, n: nat, edges: seq<(int, int)>, s: Search, x: int)
    requires |g| == n && forall v, u :: 0 <= v < n ==> (u in g[v] <==> Joined(edges, false, v, u))
    requires Clock(g, s, |g|) && 0 <= x < |g| && s.visited[x] && s.parent[x] != -1
    ensures 0 <= s.parent[x] < n && 1 <= LineOf(edges, s.parent[x], x) <= |edges|
  {
    var p := s.parent[x];
    assert Entry(g, s, x, |g|);
    assert Joined(edges, false, p, x);
    LineOfFirst(edges, p, x);
    if ReadPair(edges, p + 1, x + 1) {
      var j :| 0 <= j < |edges| && edges[j] == (p + 1, x + 1);
      assert Links(edges[j], p, x);
    } else {
      var j :| 0 <= j < |edges| && edges[j] == (x + 1, p + 1);
      assert Links(edges[j], p, x);
    }
  }

  /**
   * Every reported code was stored by the input loop, and maps to the first
   * line naming its edge.
   */
  lemma RenumberedLines(g: AdjLists, n: nat, edges: seq<(int, int)>, enc: PairEncoder, s: Search, kids: seq<int>,
                        bridges: seq<int>, codes: map<int, int>, numbers: seq<int>)
    requires |g| == n && forall v, u :: 0 <= v < n ==> (u in g[v] <==> Joined(edges, false, v, u))
    requires Searched(g, s) && Tally(g, s, enc, kids, bridges)
    requires forall x :: x in kids ==> 0 <= x < n && Bridge(g, s, x)
    requires forall a, b :: 0 <= a < n && 0 <= b < n ==>
      (Encode(enc, a, b) in codes <==> LineOf(edges, a, b) != 0) &&
      (Encode(enc, a, b) in codes ==> codes[Encode(enc, a, b)] == LineOf(edges, a, b))
    requires |numbers| == |bridges|
    requires forall i :: 0 <= i < |bridges| ==> numbers[i] == (if bridges[i] in codes then codes[bridges[i]] else 0)
    ensures numbers == BridgeLines(edges, s, kids)
    ensures forall i :: 0 <= i < |numbers| ==> 1 <= numbers[i] <= |edges|
  {
    forall i | 0 <= i < |kids| ensures 1 <= numbers[i] <= |edges| && numbers[i] == LineOf(edges, s.parent[kids[i]], kids[i]) {
      var x := kids[i];
      assert x in kids;
      TreeEdgeLine(g, n, edges, s, x);
    }
  }

  /**
   * main, without its I/O: the number of bridges and, sorted, the number of
   * the first input line naming each reported edge.  The search walks each
   * unordered_multiset in the order `lists` gives, any order of the elements
   * read.
   */
  method Bridges(n: nat, edges: seq<(int, int)>, lists: AdjLists)
    returns (ghost s: Search, ghost kids: seq<int>, count: nat, printed: seq<int>)
    requires EdgesIn(n, edges) && Reordered(lists, InputGraph(n, edges, false, false))
    ensures |lists| == n && Searched(lists, s)
    ensures s.parent == SearchForest(lists).from && RootsFirst(lists, s)
    ensures NoDup(kids) && forall x :: x in kids <==> 0 <= x < n && Bridge(lists, s, x)
    ensures count == |kids| == |printed|
    ensures NonDecreasing(printed) && multiset(printed) == multiset(BridgeLines(edges, s, kids))
    ensures forall y :: y in printed ==> 1 <= y <= |edges|
  {
    var stored := ReadGraph(n, edges, false, false);
    ReorderedValid(lists, stored);
    var enc := PairEncoder(n, false);
    var codes := EdgeCodes(n, enc, edges);
    var bridges;
    s, kids, bridges := FindBridges(lists, enc);
    count := |bridges|;
    var numbers := Renumber(bridges, codes);
    RenumberedLines(lists, n, edges, enc, s, kids, bridges, codes, numbers);
    printed := Sort(numbers);
    forall y | y in printed ensures 1 <= y <= |edges| {
      assert y in multiset(numbers);
      var i :| 0 <= i < |numbers| && numbers[i] == y;
    }
  }
}
