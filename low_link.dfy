/**
 * The low-link depth-first search shared by the cut-point, maglev, bridge
 * and hypertunnel programs: on entering v, time_in[v] = time_up[v] = ++timer;
 * then each neighbour u of v other than the parent either is visited, and
 * lowers time_up[v] to time_in[u], or is searched from v, and lowers
 * time_up[v] to time_up[u].
 *
 * The vectors are described by a Search value: `visited`, `timeIn`,
 * `timeUp`, and the ghost `parent` each search was entered from (-1 for a
 * root).  Once a vertex is finished its time_up is the minimum of its own
 * time_in, the time_in of its neighbours other than its parent, and the
 * time_up of its children (Low).  The lemmas here are the steps of that
 * search; the programs add their own bookkeeping on top.
 */
module LowLink {
  import opened Graphs
  import opened GraphStore
  import opened Cycles

  /** The visited / time_in / time_up vectors and the parent of each visited vertex. */
  datatype Search = Search(visited: seq<bool>, timeIn: seq<int>, timeUp: seq<int>, parent: seq<int>)

  /** The search state held in the arrays. */
  ghost function Snapshot(visited: array<bool>, timeIn: array<int>, timeUp: array<int>, parent: seq<int>): Search
    reads visited, timeIn, timeUp
  {
    Search(visited[..], timeIn[..], timeUp[..], parent)
  }

  /** The state right after entering v from p at time t. */
  ghost function Entered(s: Search, v: int, p: int, t: int): Search
    requires 0 <= v < |s.visited| && v < |s.timeIn| && v < |s.timeUp| && v < |s.parent|
  {
    Search(s.visited[v := true], s.timeIn[v := t], s.timeUp[v := t], s.parent[v := p])
  }

  /** The state after time_up[v] = m. */
  ghost function Lowered(s: Search, v: int, m: int): Search
    requires 0 <= v < |s.timeUp|
  {
    s.(timeUp := s.timeUp[v := m])
  }

  /** std::min. */
  function Min(a: int, b: int): (m: int)
    ensures m <= a && m <= b && (m == a || m == b)
  {
    if b < a then b else a
  }

  /** One entry per vertex in each vector. */
  ghost predicate Sized(g: AdjLists, s: Search) {
    |s.visited| == |g| && |s.timeIn| == |g| && |s.timeUp| == |g| && |s.parent| == |g|
  }

  /** x was searched from its parent, entered earlier, which has x in its list. */
  ghost predicate TreeEdge(g: AdjLists, s: Search, x: int)
    requires Sized(g, s) && 0 <= x < |g|
  {
    var p := s.parent[x];
    0 <= p < |g| && s.visited[p] && s.timeIn[p] < s.timeIn[x] && x in g[p]
  }

  /**
   * The entries of x at `timer`: unvisited, it has no parent; visited, its
   * time_up lies in 1 .. time_in and its time_in in 1 .. timer, and unless
   * it is a root it hangs off a tree edge.
   */
  ghost predicate Entry(g: AdjLists, s: Search, x: int, timer: int)
    requires Sized(g, s) && 0 <= x < |g|
  {
    if s.visited[x] then 1 <= s.timeUp[x] <= s.timeIn[x] <= timer && (s.parent[x] != -1 ==> TreeEdge(g, s, x))
    else s.parent[x] == -1
  }

  /** Visited vertices x and y entered at the same time are the same vertex. */
  ghost predicate Apart(g: AdjLists, s: Search, x: int, y: int)
    requires Sized(g, s) && 0 <= x < |g| && 0 <= y < |g|
  {
    s.visited[x] && s.visited[y] && s.timeIn[x] == s.timeIn[y] ==> x == y
  }

  /**
   * The invariant of the timer: `timer` vertices are visited, each vertex's
   * entries are as Entry says, and entry times are distinct.
   */
  ghost predicate Clock(g: AdjLists, s: Search, timer: int) {
    && ValidGraph(g) && Sized(g, s)
    && |IndicesWith(s.visited, true)| == timer
    && (forall x :: 0 <= x < |g| ==> Entry(g, s, x, timer))
    && (forall x, y :: 0 <= x < |g| && 0 <= y < |g| ==> Apart(g, s, x, y))
  }

  /**
   * What one search from u, entered from p, does to x: a vertex visited
   * before keeps all its entries; a vertex newly visited other than u has a
   * newly visited parent; a vertex still unvisited has none.
   */
  ghost predicate KeptAt(g: AdjLists, s0: Search, s: Search, u: int, x: int)
    requires Sized(g, s0) && Sized(g, s) && 0 <= x < |g|
  {
    if s0.visited[x] then
      s.visited[x] && s.timeIn[x] == s0.timeIn[x] && s.timeUp[x] == s0.timeUp[x] && s.parent[x] == s0.parent[x]
    else if s.visited[x] then
      x != u ==> 0 <= s.parent[x] < |g| && !s0.visited[s.parent[x]]
    else
      s.parent[x] == -1
  }

  /** The frame of one search from u entered from p: u is newly visited with parent p, and KeptAt everywhere. */
  ghost predicate Kept(g: AdjLists, s0: Search, s: Search, u: int, p: int) {
    && Sized(g, s0) && Sized(g, s) && 0 <= u < |g|
    && !s0.visited[u] && s.visited[u] && s.parent[u] == p
    && (forall x :: 0 <= x < |g| ==> KeptAt(g, s0, s, u, x))
  }

  /** m is at most time_in[x], the time_in of x's first k entries other than its parent, and its children's time_up. */
  ghost predicate Bounded(g: AdjLists, s: Search, x: int, k: int, m: int)
    requires ValidGraph(g) && Sized(g, s) && 0 <= x < |g| && 0 <= k <= |g[x]|
  {
    && m <= s.timeIn[x]
    && (forall j :: 0 <= j < k && g[x][j] != s.parent[x] ==> m <= s.timeIn[g[x][j]])
    && (forall c :: 0 <= c < |g| && s.parent[c] == x ==> m <= s.timeUp[c])
  }

  /** m is one of the values Bounded compares it with. */
  ghost predicate Attained(g: AdjLists, s: Search, x: int, k: int, m: int)
    requires ValidGraph(g) && Sized(g, s) && 0 <= x < |g| && 0 <= k <= |g[x]|
  {
    || m == s.timeIn[x]
    || (exists j :: 0 <= j < k && g[x][j] != s.parent[x] && m == s.timeIn[g[x][j]])
    || (exists c :: 0 <= c < |g| && s.parent[c] == x && m == s.timeUp[c])
  }

  /** m is the minimum over time_in[x], x's first k non-parent entries and x's children. */
  ghost predicate MinUpTo(g: AdjLists, s: Search, x: int, k: int, m: int) {
    && ValidGraph(g) && Sized(g, s) && 0 <= x < |g| && 0 <= k <= |g[x]|
    && Bounded(g, s, x, k, m) && Attained(g, s, x, k, m)
  }

  /** x is finished: its entries are all visited and its time_up is the minimum over all of them. */
  ghost predicate Low(g: AdjLists, s: Search, x: int) {
    && ValidGraph(g) && Sized(g, s) && 0 <= x < |g|
    && (forall j :: 0 <= j < |g[x]| ==> s.visited[g[x][j]])
    && MinUpTo(g, s, x, |g[x]|, s.timeUp[x])
  }

  /** Every vertex visited since s0, other than v, is finished. */
  ghost predicate NewLow(g: AdjLists, s0: Search, s: Search, v: int) {
    && Sized(g, s0) && Sized(g, s)
    && forall x :: 0 <= x < |g| && !s0.visited[x] && s.visited[x] && x != v ==> Low(g, s, x)
  }

  /**
   * The loop invariant of the search from v, entered from p with the state
   * s0, after its first k entries: time_up[v] is their minimum so far and
   * everything else visited since is finished.
   */
  ghost predicate Scanning(g: AdjLists, s0: Search, s: Search, v: int, p: int, k: int, timer: int) {
    && Clock(g, s, timer) && Kept(g, s0, s, v, p)
    && 0 <= k <= |g[v]|
    && (forall j :: 0 <= j < k ==> s.visited[g[v][j]])
    && MinUpTo(g, s, v, k, s.timeUp[v])
    && NewLow(g, s0, s, v)
  }

  /**
   * The forest a depth-first search grows, without its clocks: which
   * vertices are seen, and the vertex each was entered from (-1 for a
   * root).  It depends on the lists and their order only, so two searches
   * that skip exactly the entries already seen grow the same forest.
   */
  datatype DfsTree = DfsTree(seen: seq<bool>, from: seq<int>)

  /** One entry per vertex. */
  ghost predicate TreeSized(g: AdjLists, t: DfsTree) {
    ValidGraph(g) && |t.seen| == |g| && |t.from| == |g|
  }

  /** t' still sees every vertex t sees, with the same parent. */
  ghost predicate TreeGrown(t: DfsTree, t': DfsTree) {
    && |t'.seen| == |t.seen| && |t'.from| == |t.from|
    && forall x :: 0 <= x < |t.seen| && x < |t.from| && t.seen[x] ==> t'.seen[x] && t'.from[x] == t.from[x]
  }

  /** A grown forest has no more unseen vertices. */
  lemma GrownUnseen(t: DfsTree, t': DfsTree)
    requires TreeGrown(t, t') && |t.from| == |t.seen|
    ensures |IndicesWith(t'.seen, false)| <= |IndicesWith(t.seen, false)|
  {
    assert IndicesWith(t'.seen, false) <= IndicesWith(t.seen, false);
    SubsetCard(IndicesWith(t'.seen, false), IndicesWith(t.seen, false));
  }

  /** The search from the unseen v entered from p: v is seen with parent p, then its list is scanned. */
  ghost function TreeFrom(g: AdjLists, t: DfsTree, v: int, p: int): (r: DfsTree)
    requires TreeSized(g, t) && 0 <= v < |g| && !t.seen[v]
    ensures TreeSized(g, r) && TreeGrown(t, r) && r.seen[v] && r.from[v] == p
    decreases |IndicesWith(t.seen, false)|, 0
  {
    IndicesWithUpdate(t.seen, v, true, false);
    TreeScan(g, DfsTree(t.seen[v := true], t.from[v := p]), v, 0)
  }

  /** The scan of v's list from its k-th entry: an unseen entry is searched from v, a seen one is skipped. */
  ghost function TreeScan(g: AdjLists, t: DfsTree, v: int, k: int): (r: DfsTree)
    requires TreeSized(g, t) && 0 <= v < |g| && t.seen[v] && 0 <= k <= |g[v]|
    ensures TreeSized(g, r) && TreeGrown(t, r)
    decreases |IndicesWith(t.seen, false)|, |g[v]| - k
  {
    if k == |g[v]| then t
    else if t.seen[g[v][k]] then TreeScan(g, t, v, k + 1)
    else
      var t1 := TreeFrom(g, t, g[v][k], v);
      GrownUnseen(t, t1);
      TreeScan(g, t1, v, k + 1)
  }

  /** The outer loop from vertex v on: a search from every vertex still unseen, in increasing order. */
  ghost function TreeRoots(g: AdjLists, t: DfsTree, v: int): (r: DfsTree)
    requires TreeSized(g, t) && 0 <= v <= |g|
    ensures TreeSized(g, r) && TreeGrown(t, r)
    decreases |g| - v
  {
    if v == |g| then t
    else if t.seen[v] then TreeRoots(g, t, v + 1)
    else TreeRoots(g, TreeFrom(g, t, v, -1), v + 1)
  }

  /** The forest of the full search, started with nothing seen. */
  ghost function SearchForest(g: AdjLists): DfsTree
    requires ValidGraph(g)
  {
    TreeRoots(g, DfsTree(seq(|g|, _ => false), seq(|g|, _ => -1)), 0)
  }

  /** The forest part of the search state. */
  ghost function TreeOf(s: Search): DfsTree {
    DfsTree(s.visited, s.parent)
  }

  /** A scan past the end of v's list leaves the forest as it is. */
  lemma TreeScanned(g: AdjLists, t: DfsTree, v: int)
    requires TreeSized(g, t) && 0 <= v < |g| && t.seen[v]
    ensures TreeScan(g, t, v, |g[v]|) == t
  {
  }

  /** A visited vertex that a smaller vertex lists is no root: it was entered from a search the outer loop started earlier. */
  ghost predicate RootsFirst(g: AdjLists, s: Search)
    requires Sized(g, s)
  {
    forall x, y :: 0 <= y < x < |g| && x in g[y] && s.visited[x] ==> s.parent[x] != -1
  }

  /** The vectors as allocated: nothing visited and no parents. */
  lemma Start(g: AdjLists, s: Search)
    requires ValidGraph(g) && Sized(g, s)
    requires forall x :: 0 <= x < |g| ==> !s.visited[x] && s.parent[x] == -1
    ensures Clock(g, s, 0)
  {
    assert IndicesWith(s.visited, true) == {};
  }

  /** A search is entered from a vertex visited before it, or from none. */
  ghost predicate Rooted(g: AdjLists, s0: Search, p: int) {
    p == -1 || (0 <= p < |g| && 0 <= p < |s0.visited| && s0.visited[p])
  }

  /** No vertex has v as its parent. */
  ghost predicate Childless(s: Search, v: int) {
    forall c :: 0 <= c < |s.parent| ==> s.parent[c] != v
  }

  /** Entering the unvisited v from p at timer + 1 keeps the clock. */
  lemma EnterClock(g: AdjLists, s0: Search, t: int, v: int, p: int)
    requires Clock(g, s0, t - 1) && 0 <= v < |g| && !s0.visited[v]
    requires Rooted(g, s0, p) && (p != -1 ==> v in g[p])
    ensures Clock(g, Entered(s0, v, p, t), t)
  {
    var timer := t - 1;
    var s := Entered(s0, v, p, t);
    IndicesWithGain(s0.visited, v, true);
    if p != -1 {
      assert Entry(g, s0, p, timer);
    }
    forall x | 0 <= x < |g| ensures Entry(g, s, x, t) {
      assert Entry(g, s0, x, timer);
      if x != v && s0.visited[x] && s0.parent[x] != -1 {
        assert TreeEdge(g, s0, x);
      }
    }
    forall x, y | 0 <= x < |g| && 0 <= y < |g| ensures Apart(g, s, x, y) {
      assert Apart(g, s0, x, y);
      assert Entry(g, s0, x, timer) && Entry(g, s0, y, timer);
    }
  }

  /** Entering v opens its frame, with time_up[v] the minimum of time_in[v] alone. */
  lemma EnterScan(g: AdjLists, s0: Search, timer: int, v: int, p: int)
    requires Clock(g, s0, timer) && 0 <= v < |g| && !s0.visited[v] && Rooted(g, s0, p)
    ensures Kept(g, s0, Entered(s0, v, p, timer + 1), v, p)
    ensures MinUpTo(g, Entered(s0, v, p, timer + 1), v, 0, timer + 1)
    ensures NewLow(g, s0, Entered(s0, v, p, timer + 1), v)
    ensures Childless(Entered(s0, v, p, timer + 1), v)
  {
    var s := Entered(s0, v, p, timer + 1);
    forall x | 0 <= x < |g| ensures KeptAt(g, s0, s, v, x) {
      assert Entry(g, s0, x, timer);
    }
    forall c | 0 <= c < |g| ensures s.parent[c] != v {
      assert Entry(g, s0, c, timer);
      if c != v && s0.visited[c] && s0.parent[c] != -1 {
        assert TreeEdge(g, s0, c);
      }
    }
    assert Bounded(g, s, v, 0, timer + 1);
  }

  /** Entering the unvisited v from p at timer + 1 starts the scan of v's list. */
  lemma Enter(g: AdjLists, s0: Search, timer: int, v: int, p: int)
    requires Clock(g, s0, timer) && 0 <= v < |g| && !s0.visited[v]
    requires Rooted(g, s0, p) && (p != -1 ==> v in g[p])
    ensures Scanning(g, s0, Entered(s0, v, p, timer + 1), v, p, 0, timer + 1)
    ensures Childless(Entered(s0, v, p, timer + 1), v)
  {
    EnterClock(g, s0, timer + 1, v, p);
    EnterScan(g, s0, timer, v, p);
  }

  /** An entry equal to the parent leaves the minimum as it is. */
  lemma SkipParentMin(g: AdjLists, s: Search, v: int, k: int, m: int)
    requires MinUpTo(g, s, v, k, m) && k < |g[v]| && g[v][k] == s.parent[v]
    ensures MinUpTo(g, s, v, k + 1, m)
  {
    if exists j :: 0 <= j < k && g[v][j] != s.parent[v] && m == s.timeIn[g[v][j]] {
      var j :| 0 <= j < k && g[v][j] != s.parent[v] && m == s.timeIn[g[v][j]];
      assert Attained(g, s, v, k + 1, m);
    }
  }

  /** The parent entry is skipped. */
  lemma SkipParent(g: AdjLists, s0: Search, s: Search, v: int, p: int, k: int, timer: int)
    requires Scanning(g, s0, s, v, p, k, timer) && k < |g[v]| && g[v][k] == p
    ensures Scanning(g, s0, s, v, p, k + 1, timer)
  {
    assert Entry(g, s, v, timer);
    SkipParentMin(g, s, v, k, s.timeUp[v]);
  }

  /** Lowering time_up[v] keeps every other vertex's facts when v is not its child. */
  lemma LowLowered(g: AdjLists, s: Search, v: int, m: int, x: int)
    requires Low(g, s, x) && 0 <= v < |g| && x != v && s.parent[v] != x
    ensures Low(g, Lowered(s, v, m), x)
  {
    var s' := Lowered(s, v, m);
    var t := s.timeUp[x];
    assert Bounded(g, s', x, |g[x]|, t);
    if exists j :: 0 <= j < |g[x]| && g[x][j] != s.parent[x] && t == s.timeIn[g[x][j]] {
      var j :| 0 <= j < |g[x]| && g[x][j] != s.parent[x] && t == s.timeIn[g[x][j]];
      assert Attained(g, s', x, |g[x]|, t);
    } else if exists c :: 0 <= c < |g| && s.parent[c] == x && t == s.timeUp[c] {
      var c :| 0 <= c < |g| && s.parent[c] == x && t == s.timeUp[c];
      assert s'.timeUp[c] == t;
      assert Attained(g, s', x, |g[x]|, t);
    }
  }

  /** The vertices finished since s0 stay finished when time_up[v] is lowered. */
  lemma NewLowLowered(g: AdjLists, s0: Search, s: Search, v: int, p: int, m: int)
    requires Kept(g, s0, s, v, p) && Rooted(g, s0, p) && NewLow(g, s0, s, v)
    ensures NewLow(g, s0, Lowered(s, v, m), v)
  {
    forall x | 0 <= x < |g| && !s0.visited[x] && s.visited[x] && x != v ensures Low(g, Lowered(s, v, m), x) {
      LowLowered(g, s, v, m, x);
    }
  }

  /** Lowering time_up[v] for the vertex v under way keeps the frame and the clock. */
  lemma KeptLowered(g: AdjLists, s0: Search, s: Search, v: int, p: int, m: int, timer: int)
    requires Clock(g, s, timer) && Kept(g, s0, s, v, p) && 1 <= m <= s.timeIn[v]
    ensures Clock(g, Lowered(s, v, m), timer) && Kept(g, s0, Lowered(s, v, m), v, p)
  {
    var s' := Lowered(s, v, m);
    forall x | 0 <= x < |g| ensures Entry(g, s', x, timer) {
      assert Entry(g, s, x, timer);
      if s.visited[x] && s.parent[x] != -1 {
        assert TreeEdge(g, s, x);
      }
    }
    forall x, y | 0 <= x < |g| && 0 <= y < |g| ensures Apart(g, s', x, y) {
      assert Apart(g, s, x, y);
    }
    forall x | 0 <= x < |g| ensures KeptAt(g, s0, s', v, x) {
      assert KeptAt(g, s0, s, v, x);
    }
  }

  /** A visited entry u lowers the minimum to time_in[u] if smaller. */
  lemma VisitedMin(g: AdjLists, s: Search, v: int, k: int, m: int)
    requires MinUpTo(g, s, v, k, m) && k < |g[v]| && g[v][k] != s.parent[v] && s.parent[v] != v
    ensures MinUpTo(g, Lowered(s, v, Min(m, s.timeIn[g[v][k]])), v, k + 1, Min(m, s.timeIn[g[v][k]]))
  {
    var u := g[v][k];
    var m' := Min(m, s.timeIn[u]);
    var s' := Lowered(s, v, m');
    assert Bounded(g, s', v, k + 1, m');
    if m' == s.timeIn[u] {
      assert Attained(g, s', v, k + 1, m');
    } else if exists j :: 0 <= j < k && g[v][j] != s.parent[v] && m == s.timeIn[g[v][j]] {
      var j :| 0 <= j < k && g[v][j] != s.parent[v] && m == s.timeIn[g[v][j]];
      assert Attained(g, s', v, k + 1, m');
    } else if exists c :: 0 <= c < |g| && s.parent[c] == v && m == s.timeUp[c] {
      var c :| 0 <= c < |g| && s.parent[c] == v && m == s.timeUp[c];
      assert s'.timeUp[c] == m;
      assert Attained(g, s', v, k + 1, m');
    }
  }

  /** A vertex entered from p is not its own parent. */
  lemma NotOwnParent(g: AdjLists, s: Search, v: int, timer: int)
    requires Clock(g, s, timer) && 0 <= v < |g| && s.visited[v]
    ensures s.parent[v] != v
  {
    assert Entry(g, s, v, timer);
  }

  /** A visited entry u other than the parent lowers time_up[v] to time_in[u] if smaller. */
  lemma VisitedStep(g: AdjLists, s0: Search, s: Search, v: int, p: int, k: int, timer: int)
    requires Scanning(g, s0, s, v, p, k, timer) && Rooted(g, s0, p)
    requires k < |g[v]| && g[v][k] != p && s.visited[g[v][k]]
    ensures Scanning(g, s0, Lowered(s, v, Min(s.timeUp[v], s.timeIn[g[v][k]])), v, p, k + 1, timer)
  {
    var m' := Min(s.timeUp[v], s.timeIn[g[v][k]]);
    assert Entry(g, s, g[v][k], timer) && Entry(g, s, v, timer);
    NotOwnParent(g, s, v, timer);
    KeptLowered(g, s0, s, v, p, m', timer);
    NewLowLowered(g, s0, s, v, p, m');
    VisitedMin(g, s, v, k, s.timeUp[v]);
  }

  /** Through a search from u entered from p, the children of a vertex x visited before gain u when p == x, and nothing else. */
  lemma SameChildren(g: AdjLists, s1: Search, s2: Search, u: int, p: int, t1: int, x: int, c: int)
    requires Clock(g, s1, t1) && Kept(g, s1, s2, u, p) && 0 <= x < |g| && s1.visited[x] && 0 <= c < |g|
    ensures s2.parent[c] == x <==> s1.parent[c] == x || (c == u && p == x)
    ensures s1.parent[c] == x ==> s1.visited[c] && s2.timeUp[c] == s1.timeUp[c]
  {
    assert KeptAt(g, s1, s2, u, c);
    assert Entry(g, s1, c, t1);
  }

  /** A finished vertex stays finished through a search entered from another vertex. */
  lemma LowKept(g: AdjLists, s1: Search, s2: Search, u: int, p: int, t1: int, x: int)
    requires Clock(g, s1, t1) && Kept(g, s1, s2, u, p) && 0 <= x < |g| && s1.visited[x] && x != p && Low(g, s1, x)
    ensures Low(g, s2, x)
  {
    forall c | 0 <= c < |g| ensures (s2.parent[c] == x <==> s1.parent[c] == x) && (s1.parent[c] == x ==> s2.timeUp[c] == s1.timeUp[c]) {
      SameChildren(g, s1, s2, u, p, t1, x, c);
    }
    forall j | 0 <= j < |g[x]| ensures s2.visited[g[x][j]] && s2.timeIn[g[x][j]] == s1.timeIn[g[x][j]] {
      assert KeptAt(g, s1, s2, u, g[x][j]);
    }
    assert KeptAt(g, s1, s2, u, x);
    var t := s1.timeUp[x];
    assert Bounded(g, s2, x, |g[x]|, t);
    if exists j :: 0 <= j < |g[x]| && g[x][j] != s1.parent[x] && t == s1.timeIn[g[x][j]] {
      var j :| 0 <= j < |g[x]| && g[x][j] != s1.parent[x] && t == s1.timeIn[g[x][j]];
      assert Attained(g, s2, x, |g[x]|, t);
    } else if exists c :: 0 <= c < |g| && s1.parent[c] == x && t == s1.timeUp[c] {
      var c :| 0 <= c < |g| && s1.parent[c] == x && t == s1.timeUp[c];
      assert Attained(g, s2, x, |g[x]|, t);
    }
  }

  /** What was visited before a search stays visited. */
  lemma KeptGrown(g: AdjLists, s0: Search, s: Search, u: int, p: int)
    requires Kept(g, s0, s, u, p)
    ensures forall x :: 0 <= x < |g| && s0.visited[x] ==> s.visited[x]
  {
    forall x | 0 <= x < |g| && s0.visited[x] ensures s.visited[x] {
      assert KeptAt(g, s0, s, u, x);
    }
  }

  /** Frames compose: a child search inside the search from v stays inside v's frame. */
  lemma KeptTrans(g: AdjLists, s0: Search, s1: Search, s2: Search, v: int, p: int, u: int)
    requires Kept(g, s0, s1, v, p) && Kept(g, s1, s2, u, v) && u != v
    ensures Kept(g, s0, s2, v, p)
  {
    forall x | 0 <= x < |g| ensures KeptAt(g, s0, s2, v, x) {
      assert KeptAt(g, s0, s1, v, x) && KeptAt(g, s1, s2, u, x);
      if !s0.visited[x] && !s1.visited[x] && s2.visited[x] && x != u {
        assert KeptAt(g, s0, s1, v, s2.parent[x]);
      }
    }
    assert KeptAt(g, s1, s2, u, v);
  }

  /** The vertices finished since s0 stay finished through the child search from u. */
  lemma NewLowChild(g: AdjLists, s0: Search, s1: Search, s2: Search, v: int, p: int, u: int, t1: int)
    requires Clock(g, s1, t1) && Kept(g, s0, s1, v, p) && NewLow(g, s0, s1, v)
    requires Kept(g, s1, s2, u, v) && NewLow(g, s1, s2, -1)
    ensures NewLow(g, s0, s2, v)
  {
    forall x | 0 <= x < |g| && !s0.visited[x] && s2.visited[x] && x != v ensures Low(g, s2, x) {
      if s1.visited[x] {
        LowKept(g, s1, s2, u, v, t1, x);
      }
    }
  }

  /** After the child search from u = g[v][k], time_up[v] is the minimum including time_up[u]. */
  lemma ChildMin(g: AdjLists, s1: Search, s2: Search, v: int, k: int, t1: int, t2: int)
    requires Clock(g, s1, t1) && Clock(g, s2, t2) && 0 <= v < |g| && s1.visited[v]
    requires 0 <= k < |g[v]| && g[v][k] != s1.parent[v] && MinUpTo(g, s1, v, k, s1.timeUp[v])
    requires forall j :: 0 <= j < k ==> s1.visited[g[v][j]]
    requires Kept(g, s1, s2, g[v][k], v) && s1.parent[v] != v
    ensures MinUpTo(g, Lowered(s2, v, Min(s1.timeUp[v], s2.timeUp[g[v][k]])), v, k + 1,
                    Min(s1.timeUp[v], s2.timeUp[g[v][k]]))
  {
    var u := g[v][k];
    var m := s1.timeUp[v];
    var m' := Min(m, s2.timeUp[u]);
    var s' := Lowered(s2, v, m');
    assert KeptAt(g, s1, s2, u, v) && Entry(g, s2, u, t2);
    forall c | 0 <= c < |g| && s'.parent[c] == v ensures c == u || (s1.parent[c] == v && s'.timeUp[c] == s1.timeUp[c]) {
      SameChildren(g, s1, s2, u, v, t1, v, c);
    }
    forall j | 0 <= j < k ensures s'.timeIn[g[v][j]] == s1.timeIn[g[v][j]] {
      assert KeptAt(g, s1, s2, u, g[v][j]);
    }
    assert Bounded(g, s', v, k + 1, m');
    if m' == s2.timeUp[u] {
      assert Attained(g, s', v, k + 1, m');
    } else if exists j :: 0 <= j < k && g[v][j] != s1.parent[v] && m == s1.timeIn[g[v][j]] {
      var j :| 0 <= j < k && g[v][j] != s1.parent[v] && m == s1.timeIn[g[v][j]];
      assert Attained(g, s', v, k + 1, m');
    } else if exists c :: 0 <= c < |g| && s1.parent[c] == v && m == s1.timeUp[c] {
      var c :| 0 <= c < |g| && s1.parent[c] == v && m == s1.timeUp[c];
      SameChildren(g, s1, s2, u, v, t1, v, c);
      assert Attained(g, s', v, k + 1, m');
    }
  }

  /**
   * The child search from the unvisited entry u = g[v][k], followed by
   * time_up[v] = min(time_up[v], time_up[u]), moves the scan on by one entry.
   */
  lemma ChildStep(g: AdjLists, s0: Search, s1: Search, s2: Search, v: int, p: int, k: int, t1: int, t2: int)
    requires Scanning(g, s0, s1, v, p, k, t1) && Rooted(g, s0, p) && k < |g[v]| && g[v][k] != p
    requires Clock(g, s2, t2) && Kept(g, s1, s2, g[v][k], v) && NewLow(g, s1, s2, -1)
    ensures s2.timeUp[v] == s1.timeUp[v] && s2.timeIn[v] == s1.timeIn[v]
    ensures Scanning(g, s0, Lowered(s2, v, Min(s2.timeUp[v], s2.timeUp[g[v][k]])), v, p, k + 1, t2)
  {
    var u := g[v][k];
    assert KeptAt(g, s1, s2, u, v);
    var m' := Min(s2.timeUp[v], s2.timeUp[u]);
    NotOwnParent(g, s1, v, t1);
    KeptTrans(g, s0, s1, s2, v, p, u);
    NewLowChild(g, s0, s1, s2, v, p, u, t1);
    ChildMin(g, s1, s2, v, k, t1, t2);
    assert Entry(g, s2, u, t2) && Entry(g, s2, v, t2);
    KeptLowered(g, s0, s2, v, p, m', t2);
    NewLowLowered(g, s0, s2, v, p, m');
    forall j | 0 <= j < k ensures s2.visited[g[v][j]] {
      assert KeptAt(g, s1, s2, u, g[v][j]);
    }
  }

  /** With every entry scanned v is finished, and so is everything visited since s0. */
  lemma ScanEnd(g: AdjLists, s0: Search, s: Search, v: int, p: int, timer: int)
    requires 0 <= v < |g| && Scanning(g, s0, s, v, p, |g[v]|, timer)
    ensures Low(g, s, v) && NewLow(g, s0, s, -1)
  {
  }

  /**
   * calc_time_ups_dfs_(g, v, parent, timer, visited, time_up, time_in):
   * enters v at the next time, scans its list, searching each unvisited
   * entry from v, and leaves every vertex it visits finished.
   */
  method TimeUps(g: AdjLists, v: int, p: int, timer: int, visited: array<bool>, timeUp: array<int>, timeIn: array<int>,
                 ghost parent: seq<int>)
    returns (timer': int, ghost parent': seq<int>)
    requires Clock(g, Snapshot(visited, timeIn, timeUp, parent), timer)
    requires 0 <= v < |g| && !visited[v]
    requires p == -1 || (0 <= p < |g| && visited[p] && v in g[p])
    requires timeUp != timeIn
    modifies visited, timeUp, timeIn
    ensures Clock(g, Snapshot(visited, timeIn, timeUp, parent'), timer')
    ensures Kept(g, old(Snapshot(visited, timeIn, timeUp, parent)), Snapshot(visited, timeIn, timeUp, parent'), v, p)
    ensures NewLow(g, old(Snapshot(visited, timeIn, timeUp, parent)), Snapshot(visited, timeIn, timeUp, parent'), -1)
    ensures timeIn[v] == timer + 1
    ensures TreeOf(Snapshot(visited, timeIn, timeUp, parent')) == TreeFrom(g, TreeOf(old(Snapshot(visited, timeIn, timeUp, parent))), v, p)
    decreases |IndicesWith(visited[..], false)|, 0
  {
    ghost var s0 := Snapshot(visited, timeIn, timeUp, parent);
    Enter(g, s0, timer, v, p);
    timer' := timer + 1;
    timeIn[v] := timer';
    timeUp[v] := timer';
    visited[v] := true;
    parent' := parent[v := p];
    ghost var s := Entered(s0, v, p, timer');
    assert Snapshot(visited, timeIn, timeUp, parent') == s;
    var k := 0;
    while k < |g[v]|
      invariant s == Snapshot(visited, timeIn, timeUp, parent')
      invariant Scanning(g, s0, s, v, p, k, timer') && s.timeIn[v] == timer + 1
      invariant TreeScan(g, TreeOf(s), v, k) == TreeFrom(g, TreeOf(s0), v, p)
    {
      KeptGrown(g, s0, s, v, p);
      FewerWith(s0.visited, s.visited, false, v);
      timer', parent', s := TimeUpStep(g, v, p, k, timer', visited, timeUp, timeIn, parent', s0, s, timer);
      k := k + 1;
    }
    ScanEnd(g, s0, s, v, p, timer');
    TreeScanned(g, TreeOf(s), v);
  }

  /**
   * One pass of the loop over v's list in calc_time_ups_dfs_: the parent is
   * skipped, a visited entry u lowers time_up[v] to time_in[u], and an
   * unvisited one is searched from and lowers time_up[v] to time_up[u].
   */
  method TimeUpStep(g: AdjLists, v: int, p: int, k: int, timer: int, visited: array<bool>, timeUp: array<int>, timeIn: array<int>,
                    ghost parent: seq<int>, ghost s0: Search, ghost s: Search, ghost t0: int)
    returns (timer': int, ghost parent': seq<int>, ghost s': Search)
    requires s == Snapshot(visited, timeIn, timeUp, parent)
    requires Scanning(g, s0, s, v, p, k, timer) && s.timeIn[v] == t0 + 1 && Rooted(g, s0, p) && k < |g[v]|
    requires timeUp != timeIn
    modifies visited, timeUp, timeIn
    ensures s' == Snapshot(visited, timeIn, timeUp, parent')
    ensures Scanning(g, s0, s', v, p, k + 1, timer') && s'.timeIn[v] == t0 + 1
    ensures TreeScan(g, TreeOf(s'), v, k + 1) == TreeScan(g, TreeOf(s), v, k)
    decreases |IndicesWith(visited[..], false)|, 1
  {
    var u := g[v][k];
    timer', parent' := timer, parent;
    if u == p {
      SkipParent(g, s0, s, v, p, k, timer);
      assert KeptAt(g, s0, s, v, p);
      s' := s;
    } else if visited[u] {
      VisitedStep(g, s0, s, v, p, k, timer);
      timeUp[v] := Min(timeUp[v], timeIn[u]);
      s' := Lowered(s, v, Min(s.timeUp[v], s.timeIn[u]));
      assert Snapshot(visited, timeIn, timeUp, parent') == s';
    } else {
      timer', parent' := TimeUps(g, u, v, timer, visited, timeUp, timeIn, parent);
      ghost var s2 := Snapshot(visited, timeIn, timeUp, parent');
      ChildStep(g, s0, s, s2, v, p, k, timer, timer');
      timeUp[v] := Min(timeUp[v], timeUp[u]);
      s' := Lowered(s2, v, Min(s2.timeUp[v], s2.timeUp[u]));
      assert Snapshot(visited, timeIn, timeUp, parent') == s';
    }
  }

  /**
   * The vectors after the outer loop: every vertex visited once, with
   * entry times spread over 1 .. n, and every time_up final.
   */
  ghost predicate Searched(g: AdjLists, s: Search) {
    && Clock(g, s, |g|)
    && (forall x :: 0 <= x < |g| ==> s.visited[x])
    && (forall x :: 0 <= x < |g| ==> Low(g, s, x))
  }

  /** The invariant of the outer loop: the vertices below v are visited and every visited vertex is finished. */
  ghost predicate Outer(g: AdjLists, s: Search, timer: int, v: int) {
    && Clock(g, s, timer) && 0 <= v <= |g|
    && (forall x :: 0 <= x < v ==> s.visited[x])
    && (forall x :: 0 <= x < |g| && s.visited[x] ==> Low(g, s, x))
  }

  /** A search from the unvisited root v moves the outer loop on. */
  lemma RootDone(g: AdjLists, s1: Search, s2: Search, v: int, t1: int, t2: int)
    requires Outer(g, s1, t1, v) && v < |g| && Clock(g, s2, t2) && Kept(g, s1, s2, v, -1) && NewLow(g, s1, s2, -1)
    ensures Outer(g, s2, t2, v + 1)
  {
    KeptGrown(g, s1, s2, v, -1);
    forall x | 0 <= x < |g| && s2.visited[x] ensures Low(g, s2, x) {
      if s1.visited[x] {
        LowKept(g, s1, s2, v, -1, t1, x);
      }
    }
  }

  /**
   * A search from the root v keeps RootsFirst: every vertex listed by a
   * vertex below v was seen before v, because the searches from those
   * vertices finished with their lists seen; the other new vertices have
   * parents.
   */
  lemma RootsStep(g: AdjLists, s1: Search, s2: Search, v: int, t1: int)
    requires Outer(g, s1, t1, v) && v < |g| && RootsFirst(g, s1) && Kept(g, s1, s2, v, -1)
    ensures RootsFirst(g, s2)
  {
    NotListedBelow(g, s1, t1, v);
    forall x, y | 0 <= y < x < |g| && x in g[y] && s2.visited[x] ensures s2.parent[x] != -1 {
      assert KeptAt(g, s1, s2, v, x);
    }
  }

  /** When the outer loop reaches an unvisited v, no vertex below v lists v: their lists were seen whole. */
  lemma NotListedBelow(g: AdjLists, s: Search, timer: int, v: int)
    requires Outer(g, s, timer, v) && v < |g| && !s.visited[v]
    ensures forall y :: 0 <= y < v ==> v !in g[y]
  {
    forall y | 0 <= y < v ensures v !in g[y] {
      assert Low(g, s, y);
    }
  }

  /** One round of an outer loop moves the forest on: nothing for a seen v, the search from v otherwise. */
  lemma TreeRootsStep(g: AdjLists, t1: DfsTree, t2: DfsTree, v: int)
    requires TreeSized(g, t1) && 0 <= v < |g| && TreeRoots(g, t1, v) == SearchForest(g)
    requires t1.seen[v] ==> t2 == t1
    requires !t1.seen[v] ==> t2 == TreeFrom(g, t1, v, -1)
    ensures TreeSized(g, t2) && TreeRoots(g, t2, v + 1) == SearchForest(g)
  {
  }

  /** The invariant of the first loop of highlight_all_dcc: Outer, with the roots and the forest grown so far. */
  ghost predicate OuterForest(g: AdjLists, s: Search, timer: int, v: int) {
    && Outer(g, s, timer, v) && RootsFirst(g, s)
    && TreeRoots(g, TreeOf(s), v) == SearchForest(g)
  }

  /** A search from the unvisited root v moves OuterForest on. */
  lemma RootSearched(g: AdjLists, s1: Search, s2: Search, v: int, t1: int, t2: int)
    requires OuterForest(g, s1, t1, v) && v < |g| && !s1.visited[v]
    requires Clock(g, s2, t2) && Kept(g, s1, s2, v, -1) && NewLow(g, s1, s2, -1)
    requires TreeOf(s2) == TreeFrom(g, TreeOf(s1), v, -1)
    ensures OuterForest(g, s2, t2, v + 1)
  {
    RootDone(g, s1, s2, v, t1, t2);
    RootsStep(g, s1, s2, v, t1);
    TreeRootsStep(g, TreeOf(s1), TreeOf(s2), v);
  }

  /** After the outer loop every vertex is visited, once: the timer has counted all of them. */
  lemma AllVisited(g: AdjLists, s: Search, timer: int)
    requires Outer(g, s, timer, |g|)
    ensures timer == |g| && s.visited == seq(|g|, _ => true) && Searched(g, s)
  {
    assert IndicesWith(s.visited, true) == Range(|g|);
    RangeCard(|g|);
  }

  /** One round of the first loop of highlight_all_dcc: a search from v when v is unvisited. */
  method SearchRoot(g: AdjLists, v: int, timer: int, visited: array<bool>, timeUp: array<int>, timeIn: array<int>,
                    ghost parent: seq<int>)
    returns (timer': int, ghost parent': seq<int>)
    requires OuterForest(g, Snapshot(visited, timeIn, timeUp, parent), timer, v) && v < |g|
    requires timeUp != timeIn
    modifies visited, timeUp, timeIn
    ensures OuterForest(g, Snapshot(visited, timeIn, timeUp, parent'), timer', v + 1)
  {
    ghost var s1 := Snapshot(visited, timeIn, timeUp, parent);
    timer', parent' := timer, parent;
    if !visited[v] {
      timer', parent' := TimeUps(g, v, -1, timer, visited, timeUp, timeIn, parent);
      RootSearched(g, s1, Snapshot(visited, timeIn, timeUp, parent'), v, timer, timer');
    } else {
      TreeRootsStep(g, TreeOf(s1), TreeOf(s1), v);
    }
  }

  /**
   * The first loop of highlight_all_dcc: a search from every vertex still
   * unvisited, in increasing order, with the vectors zero-initialised.
   */
  method FindTimeUps(g: AdjLists) returns (timeIn: seq<int>, timeUp: seq<int>, ghost parent: seq<int>)
    requires ValidGraph(g)
    ensures Searched(g, Search(seq(|g|, _ => true), timeIn, timeUp, parent))
    ensures parent == SearchForest(g).from && RootsFirst(g, Search(seq(|g|, _ => true), timeIn, timeUp, parent))
  {
    var visited := new bool[|g|](_ => false);
    var up := new int[|g|](_ => 0);
    var tin := new int[|g|](_ => 0);
    parent := seq(|g|, _ => -1);
    Start(g, Snapshot(visited, tin, up, parent));
    assert TreeOf(Snapshot(visited, tin, up, parent)) == DfsTree(seq(|g|, _ => false), seq(|g|, _ => -1));
    var timer := 0;
    var v := 0;
    while v < |g|
      invariant OuterForest(g, Snapshot(visited, tin, up, parent), timer, v)
    {
      timer, parent := SearchRoot(g, v, timer, visited, up, tin, parent);
      v := v + 1;
    }
    AllVisited(g, Snapshot(visited, tin, up, parent), timer);
    timeIn := tin[..];
    timeUp := up[..];
  }
}
