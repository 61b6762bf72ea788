/**
 * The hypertunnels program: an undirected multigraph on unordered
 * multisets; highlight_all_dcc computes the low-link values of every vertex
 * and then labels the clusters by a second search, in which a tree edge
 * (v, u) with time_up[u] > time_in[v] starts a new cluster at u;
 * count_leaves_in_cluster_tree counts the clusters with exactly one
 * adjacency entry leaving them, and main prints (leaves + 1) / 2.
 *
 * The test of the labelling search never asks is_multiple_edge, so a
 * doubled edge separates clusters like a bridge does.  The flag `fixed`
 * selects the corrected test, which also demands that the edge not be
 * multiple; `fixed == false` is the program as written.
 */
module Hypertunnels {
  import opened Graphs
  import opened GraphStore
  import opened LowLink
  import opened Bridges

  /**
   * x starts a cluster when labelled from p: p is no vertex (x is a root of
   * the labelling), or time_up[x] > time_in[p] and, when fixed, the edge
   * p - x is not multiple.
   */
  ghost predicate Head(g: AdjLists, up: seq<int>, tin: seq<int>, fixed: bool, x: int, p: int)
    requires |up| == |g| && |tin| == |g| && 0 <= x < |g|
  {
    !(0 <= p < |g|) || (up[x] > tin[p] && !(fixed && IsMultipleEdge(g, p, x)))
  }

  /** The vectors of the labelling pass all have one entry per vertex. */
  ghost predicate Shaped(g: AdjLists, up: seq<int>, tin: seq<int>, dcc: seq<int>, par: seq<int>, order: seq<int>) {
    && ValidGraph(g) && |up| == |g| && |tin| == |g| && |dcc| == |g| && |par| == |g| && |order| == |g|
  }

  /**
   * x in the labelling forest: unlabelled (id -1), it has no parent;
   * labelled, it was labelled at order[x] < tick, after its parent, which
   * lists it.
   */
  ghost predicate Placed(g: AdjLists, dcc: seq<int>, par: seq<int>, order: seq<int>, tick: int, x: int)
    requires |dcc| == |g| && |par| == |g| && |order| == |g| && 0 <= x < |g|
  {
    if dcc[x] == -1 then par[x] == -1
    else
      && 0 <= order[x] < tick
      && (par[x] == -1 || (0 <= par[x] < |g| && dcc[par[x]] != -1 && x in g[par[x]] && order[par[x]] < order[x]))
  }

  /** Every vertex is placed in the labelling forest. */
  ghost predicate Forest(g: AdjLists, dcc: seq<int>, par: seq<int>, order: seq<int>, tick: int)
    requires |dcc| == |g| && |par| == |g| && |order| == |g|
  {
    forall x :: 0 <= x < |g| ==> Placed(g, dcc, par, order, tick, x)
  }

  /** Labelled ids lie in [0, top), and a vertex that is no head shares its parent's id. */
  ghost predicate Inherited(g: AdjLists, up: seq<int>, tin: seq<int>, fixed: bool, dcc: seq<int>, par: seq<int>,
                            order: seq<int>, top: int)
    requires Shaped(g, up, tin, dcc, par, order)
  {
    forall x :: 0 <= x < |g| && dcc[x] != -1 ==>
      0 <= dcc[x] < top && (!Head(g, up, tin, fixed, x, par[x]) ==> dcc[x] == dcc[par[x]])
  }

  /** A labelled head is labelled first among the vertices with its id, and is their only head. */
  ghost predicate Firsts(g: AdjLists, up: seq<int>, tin: seq<int>, fixed: bool, dcc: seq<int>, par: seq<int>, order: seq<int>)
    requires Shaped(g, up, tin, dcc, par, order)
  {
    forall x, y :: 0 <= x < |g| && 0 <= y < |g| && dcc[x] != -1 && Head(g, up, tin, fixed, x, par[x]) && dcc[y] == dcc[x] ==>
      order[x] <= order[y] && (Head(g, up, tin, fixed, y, par[y]) ==> x == y)
  }

  /** Some head carries the id l. */
  ghost predicate HasHead(g: AdjLists, up: seq<int>, tin: seq<int>, fixed: bool, dcc: seq<int>, par: seq<int>, l: int)
    requires |up| == |g| && |tin| == |g| && |dcc| == |g| && |par| == |g|
  {
    exists x :: 0 <= x < |g| && dcc[x] == l && Head(g, up, tin, fixed, x, par[x])
  }

  /** Every id in [0, top) is carried by a head. */
  ghost predicate Covered(g: AdjLists, up: seq<int>, tin: seq<int>, fixed: bool, dcc: seq<int>, par: seq<int>, top: int)
    requires |up| == |g| && |tin| == |g| && |dcc| == |g| && |par| == |g|
  {
    forall l :: 0 <= l < top ==> HasHead(g, up, tin, fixed, dcc, par, l)
  }

  /**
   * The state of the labelling pass, `top` ids handed out after `tick`
   * vertices labelled: the forest, and clusters each made of one head and
   * the vertices labelled below it without passing another head.
   */
  ghost predicate Labels(g: AdjLists, up: seq<int>, tin: seq<int>, fixed: bool, dcc: seq<int>, par: seq<int>,
                         order: seq<int>, top: int, tick: int) {
    && Shaped(g, up, tin, dcc, par, order) && tick >= 0
    && Forest(g, dcc, par, order, tick)
    && Inherited(g, up, tin, fixed, dcc, par, order, top)
    && Firsts(g, up, tin, fixed, dcc, par, order)
    && Covered(g, up, tin, fixed, dcc, par, top)
  }

  /** The forest of the labelling pass: the labelled vertices, and the vertex each was labelled from. */
  ghost function LabelTree(dcc: seq<int>, par: seq<int>): DfsTree {
    DfsTree(seq(|dcc|, x requires 0 <= x < |dcc| => dcc[x] != -1), par)
  }

  /** Labelling v from p adds v, with parent p, to the forest. */
  lemma LabelTreeEnter(g: AdjLists, dcc: seq<int>, par: seq<int>, v: int, id: int, p: int)
    requires ValidGraph(g) && |dcc| == |g| && |par| == |g| && 0 <= v < |g| && dcc[v] == -1 && id != -1
    ensures TreeSized(g, LabelTree(dcc[v := id], par[v := p])) && LabelTree(dcc[v := id], par[v := p]).seen[v]
    ensures TreeScan(g, LabelTree(dcc[v := id], par[v := p]), v, 0) == TreeFrom(g, LabelTree(dcc, par), v, p)
  {
    assert LabelTree(dcc[v := id], par[v := p]) == DfsTree(LabelTree(dcc, par).seen[v := true], par[v := p]);
  }

  /** Vertices already labelled keep their id, parent and order. */
  ghost predicate Settled(dcc0: seq<int>, dcc: seq<int>, par0: seq<int>, par: seq<int>, order0: seq<int>, order: seq<int>) {
    && |dcc| == |dcc0| && |par| == |par0| == |dcc0| && |order| == |order0| == |dcc0|
    && forall x :: 0 <= x < |dcc0| && dcc0[x] != -1 ==> dcc[x] == dcc0[x] && par[x] == par0[x] && order[x] == order0[x]
  }

  /** The preconditions of labelling v from p with id while max_dcc_id is maxId. */
  ghost predicate Entering(g: AdjLists, up: seq<int>, tin: seq<int>, fixed: bool, dcc: seq<int>, par: seq<int>, order: seq<int>,
                           tick: int, v: int, p: int, id: int, maxId: int) {
    && ValidGraph(g) && |up| == |g| && |tin| == |g| && 0 <= v < |g| && maxId >= 0
    && Labels(g, up, tin, fixed, dcc, par, order, if Head(g, up, tin, fixed, v, p) then maxId else maxId + 1, tick)
    && dcc[v] == -1 && (p == -1 || (0 <= p < |g| && dcc[p] != -1 && v in g[p]))
    && id == if Head(g, up, tin, fixed, v, p) then maxId else dcc[p]
  }

  /** Labelling v keeps every vertex placed. */
  lemma ForestEnter(g: AdjLists, up: seq<int>, tin: seq<int>, fixed: bool, dcc: seq<int>, par: seq<int>, order: seq<int>,
                    tick: int, v: int, p: int, id: int, maxId: int)
    requires Entering(g, up, tin, fixed, dcc, par, order, tick, v, p, id, maxId)
    ensures Forest(g, dcc[v := id], par[v := p], order[v := tick], tick + 1)
  {
    var dcc', par', order' := dcc[v := id], par[v := p], order[v := tick];
    if p != -1 {
      assert Placed(g, dcc, par, order, tick, p);
    }
    var tick' := tick + 1;
    forall x | 0 <= x < |g| ensures Placed(g, dcc', par', order', tick', x) {
      assert Placed(g, dcc, par, order, tick, x);
      if x != v && dcc[x] != -1 && par[x] != -1 {
        assert par[x] != v;
      }
    }
  }

  /** Labelling v keeps the ids in range and inherited. */
  lemma InheritedEnter(g: AdjLists, up: seq<int>, tin: seq<int>, fixed: bool, dcc: seq<int>, par: seq<int>, order: seq<int>,
                       tick: int, v: int, p: int, id: int, maxId: int)
    requires Entering(g, up, tin, fixed, dcc, par, order, tick, v, p, id, maxId)
    ensures Inherited(g, up, tin, fixed, dcc[v := id], par[v := p], order[v := tick], maxId + 1)
  {
    var dcc', par' := dcc[v := id], par[v := p];
    forall x | 0 <= x < |g| && dcc'[x] != -1
      ensures 0 <= dcc'[x] < maxId + 1 && (!Head(g, up, tin, fixed, x, par'[x]) ==> dcc'[x] == dcc'[par'[x]])
    {
      if x != v {
        assert Placed(g, dcc, par, order, tick, x);
      }
    }
  }

  /** Labelling v keeps each head first and alone in its cluster. */
  lemma FirstsEnter(g: AdjLists, up: seq<int>, tin: seq<int>, fixed: bool, dcc: seq<int>, par: seq<int>, order: seq<int>,
                    tick: int, v: int, p: int, id: int, maxId: int)
    requires Entering(g, up, tin, fixed, dcc, par, order, tick, v, p, id, maxId)
    ensures Firsts(g, up, tin, fixed, dcc[v := id], par[v := p], order[v := tick])
  {
    var dcc', par', order' := dcc[v := id], par[v := p], order[v := tick];
    forall x, y | 0 <= x < |g| && 0 <= y < |g| && dcc'[x] != -1 && Head(g, up, tin, fixed, x, par'[x]) && dcc'[y] == dcc'[x]
      ensures order'[x] <= order'[y] && (Head(g, up, tin, fixed, y, par'[y]) ==> x == y)
    {
      assert Placed(g, dcc, par, order, tick, x) && Placed(g, dcc, par, order, tick, y);
      if x != v && y == v && !Head(g, up, tin, fixed, v, p) {
        assert dcc[p] == dcc[x];
        assert order[x] <= order[p];
      }
    }
  }

  /** Labelling v keeps every id handed out carried by a head. */
  lemma CoveredEnter(g: AdjLists, up: seq<int>, tin: seq<int>, fixed: bool, dcc: seq<int>, par: seq<int>, order: seq<int>,
                     tick: int, v: int, p: int, id: int, maxId: int)
    requires Entering(g, up, tin, fixed, dcc, par, order, tick, v, p, id, maxId)
    ensures Covered(g, up, tin, fixed, dcc[v := id], par[v := p], maxId + 1)
  {
    var dcc', par' := dcc[v := id], par[v := p];
    var top0 := if Head(g, up, tin, fixed, v, p) then maxId else maxId + 1;
    forall l | 0 <= l < maxId + 1 ensures HasHead(g, up, tin, fixed, dcc', par', l) {
      if l < top0 {
        assert HasHead(g, up, tin, fixed, dcc, par, l);
        var x :| 0 <= x < |g| && dcc[x] == l && Head(g, up, tin, fixed, x, par[x]);
        assert dcc'[x] == l && par'[x] == par[x];
      } else {
        assert dcc'[v] == l && par'[v] == p;
      }
    }
  }

  /**
   * dcc_ids[v] = dcc_id for v entered from p: a head gets the fresh id
   * max_dcc_id (top was max_dcc_id), any other vertex p's id (top was
   * max_dcc_id + 1); afterwards max_dcc_id + 1 ids are in use.
   */
  lemma LabelEnter(g: AdjLists, up: seq<int>, tin: seq<int>, fixed: bool, dcc: seq<int>, par: seq<int>, order: seq<int>,
                   tick: int, v: int, p: int, id: int, maxId: int)
    requires Entering(g, up, tin, fixed, dcc, par, order, tick, v, p, id, maxId)
    ensures Labels(g, up, tin, fixed, dcc[v := id], par[v := p], order[v := tick], maxId + 1, tick + 1)
  {
    ForestEnter(g, up, tin, fixed, dcc, par, order, tick, v, p, id, maxId);
    InheritedEnter(g, up, tin, fixed, dcc, par, order, tick, v, p, id, maxId);
    FirstsEnter(g, up, tin, fixed, dcc, par, order, tick, v, p, id, maxId);
    CoveredEnter(g, up, tin, fixed, dcc, par, order, tick, v, p, id, maxId);
  }

  /**
   * highlight_dcc_dfs_(g, v, dcc_id, max_dcc_id, dcc_ids, time_up,
   * time_in): labels v with dcc_id and searches from every unlabelled entry
   * of its list.  It keeps the labels of the vertices labelled before.
   */
  method HighlightDfs(g: AdjLists, up: seq<int>, tin: seq<int>, fixed: bool, v: int, id: int, maxId: int, dcc: array<int>,
                      ghost p: int, ghost par: seq<int>, ghost order: seq<int>, ghost tick: int)
    returns (maxId': int, ghost par': seq<int>, ghost order': seq<int>, ghost tick': int)
    requires Entering(g, up, tin, fixed, dcc[..], par, order, tick, v, p, id, maxId)
    modifies dcc
    ensures maxId' >= maxId && dcc[v] == id
    ensures Labels(g, up, tin, fixed, dcc[..], par', order', maxId' + 1, tick')
    ensures Settled(old(dcc[..]), dcc[..], par, par', order, order')
    ensures LabelTree(dcc[..], par') == TreeFrom(g, LabelTree(old(dcc[..]), par), v, p)
    decreases |IndicesWith(dcc[..], -1)|, 0
  {
    ghost var dcc0 := dcc[..];
    LabelEnter(g, up, tin, fixed, dcc[..], par, order, tick, v, p, id, maxId);
    dcc[v] := id;
    par', order', tick' := par[v := p], order[v := tick], tick + 1;
    maxId' := maxId;
    assert id >= 0 by {
      if !Head(g, up, tin, fixed, v, p) {
        assert dcc0[p] != -1;
      }
    }
    LabelTreeEnter(g, dcc0, par, v, id, p);
    ghost var target := TreeFrom(g, LabelTree(dcc0, par), v, p);
    ghost var t := LabelTree(dcc0[v := id], par');
    var k := 0;
    while k < |g[v]|
      invariant 0 <= k <= |g[v]| && maxId' >= maxId && dcc[v] == id
      invariant Labels(g, up, tin, fixed, dcc[..], par', order', maxId' + 1, tick')
      invariant Settled(dcc0, dcc[..], par, par', order, order')
      invariant t == LabelTree(dcc[..], par') && TreeSized(g, t) && t.seen[v] && TreeScan(g, t, v, k) == target
    {
      FewerWith(dcc0, dcc[..], -1, v);
      maxId', par', order', tick' := HighlightStep(g, up, tin, fixed, v, k, id, maxId', dcc, par', order', tick');
      t := LabelTree(dcc[..], par');
      k := k + 1;
    }
    TreeScanned(g, t, v);
  }

  /**
   * One pass of the loop of highlight_dcc_dfs_ over v's list: an unlabelled
   * entry u is searched from with the fresh id ++max_dcc_id when
   * time_up[u] > time_in[v], and with v's id otherwise.
   */
  method HighlightStep(g: AdjLists, up: seq<int>, tin: seq<int>, fixed: bool, v: int, k: int, id: int, maxId: int,
                       dcc: array<int>, ghost par: seq<int>, ghost order: seq<int>, ghost tick: int)
    returns (maxId': int, ghost par': seq<int>, ghost order': seq<int>, ghost tick': int)
    requires 0 <= v < |g| && 0 <= k < |g[v]| && maxId >= 0
    requires Labels(g, up, tin, fixed, dcc[..], par, order, maxId + 1, tick) && dcc[v] == id && id >= 0
    modifies dcc
    ensures maxId' >= maxId && dcc[v] == id
    ensures Labels(g, up, tin, fixed, dcc[..], par', order', maxId' + 1, tick')
    ensures Settled(old(dcc[..]), dcc[..], par, par', order, order')
    ensures TreeScan(g, LabelTree(dcc[..], par'), v, k + 1) == TreeScan(g, LabelTree(old(dcc[..]), par), v, k)
    decreases |IndicesWith(dcc[..], -1)|, 1
  {
    var u := g[v][k];
    maxId', par', order', tick' := maxId, par, order, tick;
    assert Placed(g, dcc[..], par, order, tick, v);
    if dcc[u] == -1 {
      assert u in g[v];
      if up[u] > tin[v] && !(fixed && IsMultipleEdge(g, v, u)) {
        maxId' := maxId' + 1;
        maxId', par', order', tick' := HighlightDfs(g, up, tin, fixed, u, maxId', maxId', dcc, v, par, order, tick);
      } else {
        maxId', par', order', tick' := HighlightDfs(g, up, tin, fixed, u, id, maxId', dcc, v, par, order, tick);
      }
    }
  }

  /**
   * The second loop of highlight_all_dcc: a labelling search from every
   * vertex still unlabelled, in increasing order, with the id max_id, then
   * ++max_id.  Every vertex ends with an id in [0, count).
   */
  method LabelClusters(g: AdjLists, up: seq<int>, tin: seq<int>, fixed: bool)
    returns (count: int, ids: seq<int>, ghost par: seq<int>, ghost order: seq<int>, ghost tick: int)
    requires ValidGraph(g) && |up| == |g| && |tin| == |g|
    ensures Labels(g, up, tin, fixed, ids, par, order, count, tick) && par == SearchForest(g).from
    ensures count >= 0 && forall x :: 0 <= x < |g| ==> 0 <= ids[x] < count
  {
    var dcc := new int[|g|](_ => -1);
    par, order, tick := seq(|g|, _ => -1), seq(|g|, _ => -1), 0;
    count := 0;
    assert LabelTree(dcc[..], par) == DfsTree(seq(|g|, _ => false), seq(|g|, _ => -1));
    var v := 0;
    while v < |g|
      invariant 0 <= v <= |g| && count >= 0
      invariant Labels(g, up, tin, fixed, dcc[..], par, order, count, tick)
      invariant forall x :: 0 <= x < v ==> dcc[x] != -1
      invariant TreeRoots(g, LabelTree(dcc[..], par), v) == SearchForest(g)
    {
      count, par, order, tick := LabelRoot(g, up, tin, fixed, v, count, dcc, par, order, tick);
      v := v + 1;
    }
    ids := dcc[..];
    assert LabelTree(ids, par).from == par;
  }

  /** One round of the second loop of highlight_all_dcc: a labelling search from v when v is unlabelled. */
  method LabelRoot(g: AdjLists, up: seq<int>, tin: seq<int>, fixed: bool, v: int, count: int, dcc: array<int>,
                   ghost par: seq<int>, ghost order: seq<int>, ghost tick: int)
    returns (count': int, ghost par': seq<int>, ghost order': seq<int>, ghost tick': int)
    requires ValidGraph(g) && |up| == |g| && |tin| == |g| && 0 <= v < |g| && count >= 0
    requires Labels(g, up, tin, fixed, dcc[..], par, order, count, tick)
    requires forall x :: 0 <= x < v ==> dcc[x] != -1
    requires TreeRoots(g, LabelTree(dcc[..], par), v) == SearchForest(g)
    modifies dcc
    ensures count' >= 0 && Labels(g, up, tin, fixed, dcc[..], par', order', count', tick')
    ensures forall x :: 0 <= x < v + 1 ==> dcc[x] != -1
    ensures TreeRoots(g, LabelTree(dcc[..], par'), v + 1) == SearchForest(g)
  {
    ghost var dcc0 := dcc[..];
    count', par', order', tick' := count, par, order, tick;
    if dcc[v] == -1 {
      var top;
      top, par', order', tick' := HighlightDfs(g, up, tin, fixed, v, count, count, dcc, -1, par, order, tick);
      assert forall x :: 0 <= x < v ==> dcc0[x] != -1;
      count' := top + 1;
      TreeRootsStep(g, LabelTree(dcc0, par), LabelTree(dcc[..], par'), v);
    } else {
      TreeRootsStep(g, LabelTree(dcc0, par), LabelTree(dcc0, par), v);
    }
  }

  /** highlight_all_dcc(g): the low-link values of a full search, then the cluster labels. */
  method HighlightAll(g: AdjLists, fixed: bool)
    returns (ghost s: Search, count: int, ids: seq<int>, ghost order: seq<int>, ghost tick: int)
    requires ValidGraph(g)
    ensures Searched(g, s) && s.parent == SearchForest(g).from && RootsFirst(g, s)
    ensures Labels(g, s.timeUp, s.timeIn, fixed, ids, s.parent, order, count, tick)
    ensures count >= 0 && forall x :: 0 <= x < |g| ==> 0 <= ids[x] < count
  {
    var tin, up, parent := FindTimeUps(g);
    s := Search(seq(|g|, _ => true), tin, up, parent);
    ghost var par;
    count, ids, par, order, tick := LabelClusters(g, up, tin, fixed);
  }

  /** A head never shares its id with the vertex it was labelled from. */
  lemma HeadSeparated(g: AdjLists, up: seq<int>, tin: seq<int>, fixed: bool, dcc: seq<int>, par: seq<int>,
                      order: seq<int>, top: int, tick: int, x: int)
    requires Labels(g, up, tin, fixed, dcc, par, order, top, tick)
    requires 0 <= x < |g| && dcc[x] != -1 && 0 <= par[x] < |g| && Head(g, up, tin, fixed, x, par[x])
    ensures dcc[x] != dcc[par[x]]
  {
    assert Placed(g, dcc, par, order, tick, x);
  }

  /**
   * The corrected labelling, on the tree of the low-link search, cuts
   * exactly the bridges: x shares its parent's cluster unless the edge into
   * x is reported by find_bridges.
   */
  lemma FixedCutsBridges(g: AdjLists, s: Search, dcc: seq<int>, order: seq<int>, top: int, tick: int, x: int)
    requires Searched(g, s) && Labels(g, s.timeUp, s.timeIn, true, dcc, s.parent, order, top, tick)
    requires 0 <= x < |g| && dcc[x] != -1 && 0 <= s.parent[x] < |g|
    ensures dcc[x] == dcc[s.parent[x]] <==> !Bridge(g, s, x)
  {
    if Head(g, s.timeUp, s.timeIn, true, x, s.parent[x]) {
      HeadSeparated(g, s.timeUp, s.timeIn, true, dcc, s.parent, order, top, tick, x);
    }
  }

  /**
   * As written: a vertex x whose every entry is its tree parent p has
   * time_up[x] == time_in[x] > time_in[p], so it gets a cluster of its own,
   * however many times the edge p - x was read.
   */
  lemma AsWrittenSplitsLeaf(g: AdjLists, s: Search, dcc: seq<int>, order: seq<int>, top: int, tick: int, x: int)
    requires Searched(g, s) && Labels(g, s.timeUp, s.timeIn, false, dcc, s.parent, order, top, tick)
    requires 0 <= x < |g| && 0 <= s.parent[x] < |g| && forall j :: 0 <= j < |g[x]| ==> g[x][j] == s.parent[x]
    requires dcc[x] != -1
    ensures dcc[x] != dcc[s.parent[x]]
  {
    var p := s.parent[x];
    assert Entry(g, s, x, |g|) && TreeEdge(g, s, x);
    forall c | 0 <= c < |g| ensures s.parent[c] != x {
      assert Entry(g, s, c, |g|) && Entry(g, s, p, |g|);
    }
    assert Low(g, s, x);
    HeadSeparated(g, s.timeUp, s.timeIn, false, dcc, s.parent, order, top, tick, x);
  }

  /** Five vertices: 1 joined to 2, 3 and 4, and 2 joined to 5 twice. */
  const DoubledLines: seq<(int, int)> := [(1, 2), (1, 3), (1, 4), (2, 5), (2, 5)]

  /** The add_edge calls main makes for DoubledLines. */
  const DoubledCalls: seq<(int, int)> := [(0, 1), (0, 2), (0, 3), (1, 4), (1, 4)]

  /** No line starts at vertex 5, and the lines ending at 5 start at 2. */
  lemma DoubledEnds()
    ensures forall i :: 0 <= i < |DoubledLines| ==> DoubledLines[i].0 != 5 && (DoubledLines[i].1 == 5 ==> DoubledLines[i].0 == 2)
  {
  }

  /**
   * The store main builds from DoubledLines: vertex 2 (index 1) lists
   * vertex 5 (index 4) twice, and 5 lists nothing but 2.
   */
  lemma DoubledStore()
    ensures EdgesIn(5, DoubledLines)
    ensures var g := InputGraph(5, DoubledLines, false, false);
      |g| == 5 && IsMultipleEdge(g, 1, 4) && forall j :: 0 <= j < |g[4]| ==> g[4][j] == 1
  {
    DoubledCount();
    var g := InputGraph(5, DoubledLines, false, false);
    InputGraphEdges(5, DoubledLines, false, false);
    DoubledEnds();
    forall j | 0 <= j < |g[4]| ensures g[4][j] == 1 {
      assert g[4][j] in g[4];
      assert ReadPair(DoubledLines, g[4][j] + 1, 5);
    }
  }

  /** The calls (1, 4) made twice put 4 twice into list 1. */
  lemma DoubledCount()
    ensures EdgesIn(5, DoubledLines) && Count(InputGraph(5, DoubledLines, false, false)[1], 4) == 2
  {
    assert Shifted(DoubledLines)[3] == DoubledCalls[3];
    assert Shifted(DoubledLines) == DoubledCalls;
    var none: seq<seq<int>> := seq(5, _ => []);
    assert multiset(DoubledCalls)[(1, 4)] == 2 && multiset(DoubledCalls)[(4, 1)] == 0;
    EdgesAddedCount(none, DoubledCalls, false, 1, 4);
    assert Count(none[1], 4) == 0;
  }

  /**
   * On DoubledLines, as written, vertex 5 (index 4) is put in a cluster
   * apart from vertex 2 (index 1), although the edge between them was read
   * twice and is no bridge.
   */
  lemma AsWrittenSplitsDoubled(g: AdjLists, s: Search, dcc: seq<int>, order: seq<int>, top: int, tick: int)
    requires EdgesIn(5, DoubledLines) && Reordered(g, InputGraph(5, DoubledLines, false, false))
    requires Searched(g, s) && RootsFirst(g, s) && Labels(g, s.timeUp, s.timeIn, false, dcc, s.parent, order, top, tick)
    requires dcc[4] != -1
    ensures IsMultipleEdge(g, 1, 4) && !Bridge(g, s, 4) && dcc[4] != dcc[1]
  {
    DoubledStore();
    InputGraphEdges(5, DoubledLines, false, false);
    ReorderedValid(g, InputGraph(5, DoubledLines, false, false));
    forall j | 0 <= j < |g[4]| ensures g[4][j] == 1 {
      assert g[4][j] in InputGraph(5, DoubledLines, false, false)[4];
    }
    DoubledParent(g, s);
    AsWrittenSplitsLeaf(g, s, dcc, order, top, tick, 4);
  }

  /** In the search of the DoubledLines store, vertex 5 (index 4) is entered from vertex 2 (index 1), its only neighbour. */
  lemma DoubledParent(g: AdjLists, s: Search)
    requires EdgesIn(5, DoubledLines) && Reordered(g, InputGraph(5, DoubledLines, false, false))
    requires Searched(g, s) && RootsFirst(g, s)
    ensures s.parent[4] == 1
  {
    var stored := InputGraph(5, DoubledLines, false, false);
    DoubledStore();
    InputGraphEdges(5, DoubledLines, false, false);
    ReorderedValid(g, stored);
    assert 4 in stored[1];
    forall j | 0 <= j < |g[4]| ensures g[4][j] == 1 {
      assert g[4][j] in stored[4];
    }
    OnlyNeighbourParent(g, s, 4, 1);
  }

  /**
   * In a symmetric graph, a vertex x whose every entry is y < x, and which
   * y lists, is entered from y: the search from y, or an earlier one,
   * reaches it first.
   */
  lemma OnlyNeighbourParent(g: AdjLists, s: Search, x: int, y: int)
    requires Searched(g, s) && RootsFirst(g, s) && Symmetric(g)
    requires 0 <= y < x < |g| && x in g[y] && forall j :: 0 <= j < |g[x]| ==> g[x][j] == y
    ensures s.parent[x] == y
  {
    assert x in g[y];
    assert Entry(g, s, x, |g|);
    assert s.parent[x] in g[x];
  }

  /** The entries of v's first k that lead out of v's cluster. */
  function ExitsUpTo(g: AdjLists, ids: seq<int>, v: int, k: int): nat
    requires ValidGraph(g) && |ids| == |g| && 0 <= v < |g| && 0 <= k <= |g[v]|
  {
    if k == 0 then 0 else ExitsUpTo(g, ids, v, k - 1) + (if ids[g[v][k - 1]] != ids[v] then 1 else 0)
  }

  /** ExitsUpTo counts the positions among v's first k entries whose ids differ from v's. */
  lemma {:induction false} ExitsCounted(g: AdjLists, ids: seq<int>, v: int, k: int)
    requires ValidGraph(g) && |ids| == |g| && 0 <= v < |g| && 0 <= k <= |g[v]|
    ensures ExitsUpTo(g, ids, v, k) == |set j | 0 <= j < k && ids[g[v][j]] != ids[v]|
  {
    if k > 0 {
      ExitsCounted(g, ids, v, k - 1);
      var before := set j | 0 <= j < k - 1 && ids[g[v][j]] != ids[v];
      if ids[g[v][k - 1]] != ids[v] {
        assert (set j | 0 <= j < k && ids[g[v][j]] != ids[v]) == before + {k - 1};
      } else {
        assert (set j | 0 <= j < k && ids[g[v][j]] != ids[v]) == before;
      }
    }
  }

  /** The entries of vertices below upto in cluster c that lead out of it. */
  function ClusterExits(g: AdjLists, ids: seq<int>, c: int, upto: int): nat
    requires ValidGraph(g) && |ids| == |g| && 0 <= upto <= |g|
  {
    if upto == 0 then 0
    else ClusterExits(g, ids, c, upto - 1) + (if ids[upto - 1] == c then ExitsUpTo(g, ids, upto - 1, |g[upto - 1]|) else 0)
  }

  /** The leaves of the cluster tree: the clusters with exactly one entry leading out of them. */
  ghost function LeafClusters(g: AdjLists, ids: seq<int>, count: int): set<int>
    requires ValidGraph(g) && |ids| == |g|
  {
    set c | 0 <= c < count && ClusterExits(g, ids, c, |g|) == 1
  }

  /** The inner loop of count_leaves_in_cluster_tree: each entry of v leaving v's cluster adds one to n_neighbors[ids[v]]. */
  method ScanExits(g: AdjLists, ids: seq<int>, v: int, nNeighbors: array<int>)
    requires ValidGraph(g) && |ids| == |g| && 0 <= v < |g| && forall x :: 0 <= x < |g| ==> 0 <= ids[x] < nNeighbors.Length
    modifies nNeighbors
    ensures forall c :: 0 <= c < nNeighbors.Length ==>
      nNeighbors[c] == old(nNeighbors[c]) + (if c == ids[v] then ExitsUpTo(g, ids, v, |g[v]|) else 0)
  {
    var k := 0;
    assert ExitsUpTo(g, ids, v, 0) == 0;
    assert forall c :: 0 <= c < nNeighbors.Length ==> nNeighbors[c] == old(nNeighbors[c]);
    while k < |g[v]|
      invariant 0 <= k <= |g[v]|
      invariant forall c :: 0 <= c < nNeighbors.Length ==>
        nNeighbors[c] == old(nNeighbors[c]) + (if c == ids[v] then ExitsUpTo(g, ids, v, k) else 0)
    {
      var u := g[v][k];
      if ids[u] != ids[v] {
        nNeighbors[ids[v]] := nNeighbors[ids[v]] + 1;
      }
      k := k + 1;
    }
  }

  /** The last loop of count_leaves_in_cluster_tree: the number of entries equal to 1. */
  method CountOnes(a: array<int>) returns (r: int)
    ensures r == |set d | 0 <= d < a.Length && a[d] == 1|
  {
    r := 0;
    var c := 0;
    while c < a.Length
      invariant 0 <= c <= a.Length
      invariant r == |set d | 0 <= d < c && a[d] == 1|
    {
      ghost var before := set d | 0 <= d < c && a[d] == 1;
      if a[c] == 1 {
        assert (set d | 0 <= d < c + 1 && a[d] == 1) == before + {c};
        r := r + 1;
      } else {
        assert (set d | 0 <= d < c + 1 && a[d] == 1) == before;
      }
      c := c + 1;
    }
  }

  /**
   * count_leaves_in_cluster_tree(g, highlights): n_neighbors[c] counts the
   * entries leaving cluster c (`visited` is never set, so every vertex is
   * scanned), and the result is the number of clusters with exactly one.
   */
  method CountLeaves(g: AdjLists, ids: seq<int>, count: int) returns (leaves: int)
    requires ValidGraph(g) && |ids| == |g| && count >= 0 && forall x :: 0 <= x < |g| ==> 0 <= ids[x] < count
    ensures leaves == |LeafClusters(g, ids, count)|
  {
    var nNeighbors := new int[count](_ => 0);
    var visited := new bool[|g|](_ => false);
    var v := 0;
    while v < |g|
      invariant 0 <= v <= |g|
      invariant forall x :: 0 <= x < |g| ==> !visited[x]
      invariant forall c :: 0 <= c < count ==> nNeighbors[c] == ClusterExits(g, ids, c, v)
    {
      if !visited[v] {
        ScanExits(g, ids, v, nNeighbors);
      }
      v := v + 1;
    }
    leaves := CountOnes(nNeighbors);
    assert (set d | 0 <= d < nNeighbors.Length && nNeighbors[d] == 1) == LeafClusters(g, ids, count);
  }

  /**
   * main, without its I/O: the clusters of the graph read and
   * (leaves + 1) / 2, the number of tunnels printed.  The search walks each
   * unordered_multiset in the order `lists` gives, any order of the elements
   * read.
   */
  method Hypertunnels(n: nat, edges: seq<(int, int)>, lists: AdjLists, fixed: bool)
    returns (ghost s: Search, ghost ids: seq<int>, ghost count: int, printed: int)
    requires EdgesIn(n, edges) && Reordered(lists, InputGraph(n, edges, false, false))
    ensures |lists| == n && Searched(lists, s) && |ids| == n
    ensures count >= 0 && forall x :: 0 <= x < n ==> 0 <= ids[x] < count
    ensures s.parent == SearchForest(lists).from && RootsFirst(lists, s)
    ensures exists order, tick :: Labels(lists, s.timeUp, s.timeIn, fixed, ids, s.parent, order, count, tick)
    ensures printed == (|LeafClusters(lists, ids, count)| + 1) / 2
  {
    var stored := ReadGraph(n, edges, false, false);
    ReorderedValid(lists, stored);
    var clusters, labels;
    ghost var order, tick;
    s, clusters, labels, order, tick := HighlightAll(lists, fixed);
    ids, count := labels, clusters;
    var leaves := CountLeaves(lists, labels, clusters);
    printed := (leaves + 1) / 2;
  }
}
