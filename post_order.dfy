/**
 * The first pass of Kosaraju's algorithm as the condensation programs write
 * it: a depth-first search with one `viewed` flag per vertex, started from
 * every unviewed vertex in increasing order, that writes each vertex into
 * `sorted` from the back once all its neighbours are viewed.  `sorted` is
 * then the reverse post-order: the vertex finished last comes first.
 */
module PostOrder {
  import opened Graphs
  import opened GraphStore
  import opened Cycles
  import opened TopSort

  /** Every vertex of the walk p is one of s. */
  ghost predicate Within(p: seq<int>, s: seq<int>) {
    forall k :: 0 <= k < |p| ==> p[k] in s
  }

  /** a reaches b by a walk every vertex of which is one of s. */
  ghost predicate ReachesWithin(g: AdjLists, a: int, b: int, s: seq<int>) {
    exists p :: IsWalkFromTo(g, p, a, b) && Within(p, s)
  }

  /**
   * The property of a finishing order, latest first, that the second pass
   * relies on: whatever reaches done[i] without leaving done[i..] is
   * reachable from done[i].
   */
  ghost predicate LateReaches(g: AdjLists, done: seq<int>) {
    forall i, w :: 0 <= i < |done| && ReachesWithin(g, w, done[i], done[i..]) ==> Reaches(g, done[i], w)
  }

  /**
   * The state of the search: `stack` is the path of vertices under way,
   * `done` the finished ones, latest first; exactly these are viewed, no
   * finished vertex has an unviewed neighbour, and the finishing order so
   * far has the late-reaching property.
   */
  ghost predicate Searching(g: AdjLists, viewed: seq<bool>, stack: seq<int>, done: seq<int>) {
    && ValidGraph(g) && |viewed| == |g|
    && (forall k :: 0 <= k < |stack| ==> 0 <= stack[k] < |g|)
    && (forall k :: 0 <= k < |done| ==> 0 <= done[k] < |g|)
    && NoDup(stack + done)
    && (forall x :: 0 <= x < |g| ==> (viewed[x] <==> x in stack || x in done))
    && (forall i, k :: 0 <= i < |done| && 0 <= k < |g[done[i]]| ==> viewed[g[done[i]][k]])
    && LateReaches(g, done)
  }

  /** Neither part of a repeat-free concatenation repeats, and they share nothing. */
  lemma NoDupParts(a: seq<int>, b: seq<int>)
    requires NoDup(a + b)
    ensures NoDup(a) && NoDup(b) && forall x :: x in a ==> x !in b
  {
    forall i, j | 0 <= i < j < |b| ensures b[i] != b[j] {
      assert (a + b)[|a| + i] == b[i] && (a + b)[|a| + j] == b[j];
    }
    forall i, j | 0 <= i < |a| && 0 <= j < |b| ensures a[i] != b[j] {
      assert (a + b)[i] == a[i] && (a + b)[|a| + j] == b[j];
    }
    forall i, j | 0 <= i < j < |a| ensures a[i] != a[j] {
      assert (a + b)[i] == a[i] && (a + b)[j] == a[j];
    }
  }

  /** Two repeat-free sequences that share nothing concatenate without repeats. */
  lemma NoDupJoin(a: seq<int>, b: seq<int>)
    requires NoDup(a) && NoDup(b) && forall x :: x in a ==> x !in b
    ensures NoDup(a + b)
  {
    var s := a + b;
    forall i, j | 0 <= i < j < |s| ensures s[i] != s[j] {
      if j < |a| {
        assert s[i] == a[i] && s[j] == a[j];
      } else if i >= |a| {
        assert s[i] == b[i - |a|] && s[j] == b[j - |a|];
      } else {
        assert s[i] == a[i] && s[j] == b[j - |a|];
        assert s[i] in a;
      }
    }
  }

  /** Viewing the unviewed vertex v puts it on top of the path. */
  lemma Enter(g: AdjLists, viewed: seq<bool>, stack: seq<int>, done: seq<int>, v: int)
    requires Searching(g, viewed, stack, done) && 0 <= v < |g| && !viewed[v]
    ensures Searching(g, viewed[v := true], stack + [v], done)
  {
    NoDupParts(stack, done);
    NoDupJoin(stack, [v]);
    NoDupJoin(stack + [v], done);
    assert stack + [v] + done == (stack + [v]) + done;
  }

  /** Every neighbour of a vertex of d0 is viewed. */
  ghost predicate ViewedAround(g: AdjLists, d0: seq<int>, viewed0: seq<bool>) {
    forall x, y :: x in d0 && 0 <= x < |g| && y in g[x] ==> 0 <= y < |viewed0| && viewed0[y]
  }

  /**
   * A walk inside s that ends outside d0 never enters d0, when every
   * neighbour of d0 was viewed and the viewed vertices of s all lie in d0.
   */
  lemma {:induction false} StaysOut(g: AdjLists, p: seq<int>, s: seq<int>, d0: seq<int>, viewed0: seq<bool>)
    requires IsWalk(g, p) && Within(p, s) && p[|p| - 1] !in d0 && |viewed0| == |g|
    requires ViewedAround(g, d0, viewed0)
    requires forall y :: y in s && 0 <= y < |g| && viewed0[y] ==> y in d0
    ensures forall k :: 0 <= k < |p| ==> p[k] !in d0
    decreases |p|
  {
    if |p| > 1 {
      var q := p[1..];
      assert IsWalk(g, q) by {
        forall i | 0 <= i < |q| - 1 ensures q[i + 1] in g[q[i]] {
          assert q[i] == p[i + 1] && q[i + 1] == p[i + 2];
        }
      }
      assert Within(q, s) by {
        forall k | 0 <= k < |q| ensures q[k] in s {
          assert q[k] == p[k + 1];
        }
      }
      StaysOut(g, q, s, d0, viewed0);
      assert p[1] == q[0] && p[1] in g[p[0]] && p[1] in s;
      forall k | 0 <= k < |p| ensures p[k] !in d0 {
        if k > 0 {
          assert p[k] == q[k - 1];
        }
      }
    }
  }

  /** Nothing viewed in a has become unviewed in b. */
  ghost predicate Grown(a: seq<bool>, b: seq<bool>) {
    |a| == |b| && forall x :: 0 <= x < |a| && a[x] ==> b[x]
  }

  /** done' is done with vertices reachable from v in front. */
  ghost predicate FinishedFrom(g: AdjLists, v: int, done: seq<int>, done': seq<int>) {
    && |done| <= |done'| && done'[|done'| - |done|..] == done
    && forall i :: 0 <= i < |done'| - |done| ==> Reaches(g, v, done'[i])
  }

  /** Viewing v, which was unviewed, leaves fewer unviewed vertices: the measure of the search. */
  lemma GrownFewer(a: seq<bool>, b: seq<bool>, v: int)
    requires Grown(a, b) && 0 <= v < |a| && !a[v] && b[v]
    ensures |IndicesWith(b, false)| < |IndicesWith(a, false)|
  {
    FewerWith(a, b, false, v);
  }

  /**
   * The state of a search from v after its first k neighbours: v is on top
   * of `path`, those neighbours are viewed, the vertices finished since the
   * search began with `done0` and `viewed0` are all reachable from v, and
   * nothing viewed has become unviewed.
   */
  ghost predicate Scanning(g: AdjLists, v: int, k: int, path: seq<int>, done0: seq<int>, cur: seq<int>,
                           viewed0: seq<bool>, viewed: seq<bool>) {
    && 0 <= v < |g| && 0 <= k <= |g[v]|
    && Searching(g, viewed, path, cur) && path != [] && path[|path| - 1] == v && viewed[v]
    && FinishedFrom(g, v, done0, cur)
    && Grown(viewed0, viewed)
    && (forall j :: 0 <= j < k ==> viewed[g[v][j]])
  }

  /** Viewing v starts the scan of its neighbours. */
  lemma ScanStart(g: AdjLists, v: int, stack: seq<int>, done: seq<int>, viewed0: seq<bool>)
    requires Searching(g, viewed0, stack, done) && 0 <= v < |g| && !viewed0[v]
    ensures Scanning(g, v, 0, stack + [v], done, done, viewed0, viewed0[v := true])
  {
    Enter(g, viewed0, stack, done, v);
  }

  /** A neighbour already viewed needs nothing. */
  lemma ScanViewed(g: AdjLists, v: int, k: int, path: seq<int>, done0: seq<int>, cur: seq<int>,
                   viewed0: seq<bool>, viewed: seq<bool>)
    requires Scanning(g, v, k, path, done0, cur, viewed0, viewed) && k < |g[v]| && viewed[g[v][k]]
    ensures Scanning(g, v, k + 1, path, done0, cur, viewed0, viewed)
  {
  }

  /** The search of the neighbour u = g[v][k] finished vertices reachable from u, hence from v. */
  lemma ScanChild(g: AdjLists, v: int, k: int, path: seq<int>, done0: seq<int>, cur: seq<int>,
                  viewed0: seq<bool>, viewed1: seq<bool>, cur2: seq<int>, viewed2: seq<bool>)
    requires Scanning(g, v, k, path, done0, cur, viewed0, viewed1) && k < |g[v]|
    requires Searching(g, viewed2, path, cur2) && viewed2[g[v][k]]
    requires Grown(viewed1, viewed2) && FinishedFrom(g, g[v][k], cur, cur2)
    ensures Scanning(g, v, k + 1, path, done0, cur2, viewed0, viewed2)
  {
    var u := g[v][k];
    EdgeReaches(g, v, u);
    assert cur2[|cur2| - |done0|..] == done0 by {
      assert cur2[|cur2| - |done0|..] == cur2[|cur2| - |cur|..][|cur| - |done0|..];
    }
    forall i | 0 <= i < |cur2| - |done0| ensures Reaches(g, v, cur2[i]) {
      if i < |cur2| - |cur| {
        ReachesTrans(g, v, u, cur2[i]);
      } else {
        assert cur2[i] == cur[i - (|cur2| - |cur|)];
      }
    }
  }

  /**
   * When the last neighbour of v is viewed, v is finished and goes in front
   * of the finished vertices.  Anything that reaches v inside the vertices
   * finished from now back to v's start was finished during the search of
   * v, because no vertex finished before had an unviewed neighbour then.
   */
  lemma ScanEnd(g: AdjLists, v: int, stack: seq<int>, done0: seq<int>, cur: seq<int>,
                viewed0: seq<bool>, viewed: seq<bool>)
    requires 0 <= v < |g| && Scanning(g, v, |g[v]|, stack + [v], done0, cur, viewed0, viewed)
    requires Searching(g, viewed0, stack, done0) && !viewed0[v]
    ensures |cur| < |g|
    ensures Searching(g, viewed, stack, [v] + cur)
    ensures FinishedFrom(g, v, done0, [v] + cur)
  {
    var d := [v] + cur;
    NoDupParts(stack + [v], cur);
    NoDupParts(stack, [v]);
    assert v !in cur;
    ShortOfAll(cur, |g|, v);
    assert NoDup(d) by {
      NoDupJoin([v], cur);
    }
    assert NoDup(stack + d) by {
      forall x | x in stack ensures x !in d {
        assert x in stack + [v];
      }
      NoDupJoin(stack, d);
    }
    ReachesRefl(g, v);
    assert d[|d| - |done0|..] == cur[|cur| - |done0|..];
    forall i | 0 <= i < |cur| + 1 - |done0| ensures Reaches(g, v, d[i]) {
      if i > 0 {
        assert d[i] == cur[i - 1];
      }
    }
    forall i, w | 0 <= i < |d| && ReachesWithin(g, w, d[i], d[i..]) ensures Reaches(g, d[i], w) {
      if i > 0 {
        assert d[i] == cur[i - 1] && d[i..] == cur[i - 1..];
      } else {
        LateFront(g, v, stack, done0, cur, viewed0, viewed, w);
      }
    }
  }

  /**
   * The new front v of the finishing order reaches whatever reaches it
   * inside the finished vertices: such a walk never enters the vertices
   * finished before v was viewed, so it runs through vertices finished
   * during the search of v.
   */
  lemma LateFront(g: AdjLists, v: int, stack: seq<int>, done0: seq<int>, cur: seq<int>,
                  viewed0: seq<bool>, viewed: seq<bool>, w: int)
    requires 0 <= v < |g| && Scanning(g, v, |g[v]|, stack + [v], done0, cur, viewed0, viewed)
    requires Searching(g, viewed0, stack, done0) && !viewed0[v]
    requires NoDup(stack + [v] + cur) && FinishedFrom(g, v, done0, [v] + cur)
    requires ReachesWithin(g, w, v, [v] + cur)
    ensures Reaches(g, v, w)
  {
    var d := [v] + cur;
    var nNew := |cur| - |done0|;
    var p :| IsWalkFromTo(g, p, w, v) && Within(p, d);
    assert v !in done0 by {
      assert !viewed0[v];
    }
    NoDupParts(stack + [v], cur);
    forall y | y in d && 0 <= y < |g| && viewed0[y] ensures y in done0 {
      assert y != v;
      assert y in cur;
      assert y !in stack by {
        assert y in stack + [v] ==> y !in cur;
      }
    }
    forall x, y | x in done0 && 0 <= x < |g| && y in g[x] ensures 0 <= y < |viewed0| && viewed0[y] {
      var i0 :| 0 <= i0 < |done0| && done0[i0] == x;
      var k0 :| 0 <= k0 < |g[x]| && g[x][k0] == y;
    }
    StaysOut(g, p, d, done0, viewed0);
    assert p[0] !in done0;
    forall j | nNew < j < |d| ensures d[j] in done0 {
      assert d[j] == cur[j - 1] == done0[j - 1 - nNew];
    }
    var j :| 0 <= j < |d| && d[j] == w;
  }

  /**
   * top_sort_impl_(g, v, viewed, it): the search from the unviewed vertex v,
   * entered with `stack` under way.  It views v, finishes the vertices it
   * newly reaches, all reachable from v, and writes them in front of those
   * already in the back of `sorted`.
   */
  method Visit(g: AdjLists, v: int, viewed: array<bool>, sorted: array<int>, it: int,
               ghost stack: seq<int>, ghost done: seq<int>)
    returns (it': int, ghost done': seq<int>)
    requires Searching(g, viewed[..], stack, done) && 0 <= v < |g| && !viewed[v]
    requires Written(g, sorted[..], it, done)
    modifies viewed, sorted
    ensures Searching(g, viewed[..], stack, done') && viewed[v]
    ensures Written(g, sorted[..], it', done')
    ensures Grown(old(viewed[..]), viewed[..]) && FinishedFrom(g, v, done, done')
    decreases |IndicesWith(viewed[..], false)|
  {
    ghost var viewed0 := viewed[..];
    ScanStart(g, v, stack, done, viewed0);
    viewed[v] := true;
    assert viewed[..] == viewed0[v := true];
    ghost var path := stack + [v];
    ghost var cur := done;
    it' := it;
    var k := 0;
    while k < |g[v]|
      invariant Scanning(g, v, k, path, done, cur, viewed0, viewed[..]) && Written(g, sorted[..], it', cur)
    {
      var u := g[v][k];
      if !viewed[u] {
        ghost var viewed1, cur1 := viewed[..], cur;
        GrownFewer(viewed0, viewed1, v);
        it', cur := Visit(g, u, viewed, sorted, it', path, cur);
        ghost var viewed2 := viewed[..];
        ScanChild(g, v, k, path, done, cur1, viewed0, viewed1, cur, viewed2);
      } else {
        ScanViewed(g, v, k, path, done, cur, viewed0, viewed[..]);
      }
      k := k + 1;
    }
    ScanEnd(g, v, stack, done, cur, viewed0, viewed[..]);
    ghost var written := sorted[..];
    WriteFront(g, written, it', cur, v);
    sorted[|g| - 1 - it'] := v;
    assert sorted[..] == written[|g| - 1 - it' := v];
    it' := it' + 1;
    done' := [v] + cur;
  }

  /** A repeat-free sequence of vertices below n that lists all of them has length n. */
  lemma AllListed(s: seq<int>, n: nat)
    requires NoDup(s) && (forall i :: 0 <= i < |s| ==> 0 <= s[i] < n) && forall v :: 0 <= v < n ==> v in s
    ensures |s| == n
  {
    DistinctCard(s);
    RangeCard(n);
    assert (set x | x in s) == Range(n);
  }

  /** Before the first search nothing is viewed or finished. */
  lemma SearchStart(g: AdjLists)
    requires ValidGraph(g)
    ensures Searching(g, seq(|g|, _ => false), [], [])
  {
    var none: seq<int> := [];
    assert none + none == none;
  }

  /** Once every vertex is viewed and no search is under way, the finished vertices are all of them. */
  lemma SearchDone(g: AdjLists, viewed: seq<bool>, done: seq<int>)
    requires Searching(g, viewed, [], done) && forall x :: 0 <= x < |g| ==> viewed[x]
    ensures IsPermutation(done, |g|) && LateReaches(g, done)
  {
    assert [] + done == done;
    NoDupParts([], done);
    AllListed(done, |g|);
  }

  /**
   * top_sort(g): every vertex exactly once, in reverse post-order, which
   * has the late-reaching property.
   */
  method ReversePostOrder(g: AdjLists) returns (r: seq<int>)
    requires ValidGraph(g)
    ensures IsPermutation(r, |g|)
    ensures LateReaches(g, r)
  {
    var viewed := new bool[|g|](_ => false);
    var sorted := new int[|g|](_ => 0);
    ghost var done: seq<int> := [];
    assert viewed[..] == seq(|g|, _ => false);
    SearchStart(g);
    var it := 0;
    var v := 0;
    while v < |g|
      invariant 0 <= v <= |g| && Searching(g, viewed[..], [], done) && Written(g, sorted[..], it, done)
      invariant forall x :: 0 <= x < v ==> viewed[x]
    {
      if !viewed[v] {
        it, done := Visit(g, v, viewed, sorted, it, [], done);
      }
      v := v + 1;
    }
    SearchDone(g, viewed[..], done);
    assert sorted[..] == sorted[|g| - it..];
    r := sorted[..];
  }
}
