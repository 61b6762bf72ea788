/**
 * The gutters program: a length x width height map, cell (i, j) numbered
 * i * width + j.  Water flows from a cell to each orthogonal neighbour that
 * is not higher; main condenses the flow graph and counts the components
 * no water leaves, one gutter each.
 */
module Gutters {
  import opened Graphs
  import opened GraphStore
  import opened PairEncoding
  import opened Kosaraju
  import opened Condensation

  /** u is the up, left, down or right neighbour of cell v inside the grid's guards. */
  ghost predicate Neighbour(length: int, width: int, v: int, u: int)
    requires width > 0
  {
    var i, j := v / width, v % width;
    (i > 0 && u == v - width) || (j > 0 && u == v - 1) ||
    (i < length - 1 && u == v + width) || (j < width - 1 && u == v + 1)
  }

  /** The flow edge v -> u: u neighbours v and is not higher. */
  ghost predicate FlowsTo(length: int, width: int, heights: seq<int>, v: int, u: int) {
    && width > 0 && 0 <= v < |heights|
    && Neighbour(length, width, v, u) && 0 <= u < |heights| && heights[u] <= heights[v]
  }

  /** Moving one row down or up moves the cell number by width. */
  lemma RowStep(width: int, i: int, j: int)
    ensures (i + 1) * width + j == i * width + j + width
    ensures (i - 1) * width + j == i * width + j - width
  {
    assert (i + 1) * width == i * width + width;
    assert (i - 1) * width == i * width - width;
  }

  /** The neighbours of cell (i, j), numbered i * width + j. */
  lemma NeighbourCell(length: int, width: int, i: int, j: int, u: int)
    requires width > 0 && 0 <= i && 0 <= j < width
    ensures var pos := i * width + j;
      Neighbour(length, width, pos, u) <==>
        (i > 0 && u == pos - width) || (j > 0 && u == pos - 1) ||
        (i < length - 1 && u == pos + width) || (j < width - 1 && u == pos + 1)
  {
    DivModUnique(width, i, j);
  }

  /** The guards keep every neighbour of a cell inside the grid. */
  lemma NeighbourInGrid(length: int, width: int, v: int, u: int)
    requires width > 0 && 0 <= v < length * width && Neighbour(length, width, v, u)
    ensures 0 <= u < length * width
  {
    QuotientInRange(length, width, v);
    var i, j := v / width, v % width;
    assert v == i * width + j;
    NeighbourCell(length, width, i, j, u);
    RowStep(width, i, j);
    if i > 0 && u == v - width {
      CodeInRange(length, width, i - 1, j);
    } else if j > 0 && u == v - 1 {
      CodeInRange(length, width, i, j - 1);
    } else if i < length - 1 && u == v + width {
      CodeInRange(length, width, i + 1, j);
    } else {
      CodeInRange(length, width, i, j + 1);
    }
  }

  /** Being neighbours is symmetric. */
  lemma NeighbourSymmetric(length: int, width: int, v: int, u: int)
    requires width > 0 && 0 <= v < length * width && Neighbour(length, width, v, u)
    ensures Neighbour(length, width, u, v)
  {
    QuotientInRange(length, width, v);
    var i, j := v / width, v % width;
    NeighbourCell(length, width, i, j, u);
    RowStep(width, i, j);
    if i > 0 && u == v - width {
      NeighbourCell(length, width, i - 1, j, v);
      RowStep(width, i - 1, j);
    } else if j > 0 && u == v - 1 {
      NeighbourCell(length, width, i, j - 1, v);
    } else if i < length - 1 && u == v + width {
      NeighbourCell(length, width, i + 1, j, v);
      RowStep(width, i + 1, j);
    } else {
      NeighbourCell(length, width, i, j + 1, v);
    }
  }

  /** The lists hold exactly the flow edges out of the cells before `pos`. */
  ghost predicate Built(length: int, width: int, heights: seq<int>, lists: seq<seq<int>>, pos: int) {
    |lists| == |heights| &&
    forall v, u :: 0 <= v < |lists| ==> (u in lists[v] <==> v < pos && FlowsTo(length, width, heights, v, u))
  }

  /** Cell (i, j) and the neighbours its guards allow are inside the grid. */
  lemma CellRange(length: int, width: int, i: int, j: int)
    requires 0 <= i < length && 0 <= j < width
    ensures var pos := i * width + j;
      && 0 <= pos < length * width
      && (i > 0 ==> 0 <= pos - width) && (i < length - 1 ==> pos + width < length * width)
      && (j > 0 ==> 0 <= pos - 1) && (j < width - 1 ==> pos + 1 < length * width)
  {
    CodeInRange(length, width, i, j);
    RowStep(width, i, j);
    if i > 0 {
      CodeInRange(length, width, i - 1, j);
    }
    if i < length - 1 {
      CodeInRange(length, width, i + 1, j);
    }
    if j < width - 1 {
      CodeInRange(length, width, i, j + 1);
    }
  }

  /** The four tests of the inner loop pick out exactly the flow edges of cell (i, j). */
  lemma CellFlows(length: int, width: int, heights: seq<int>, i: int, j: int, u: int)
    requires 0 <= i < length && 0 <= j < width && |heights| == length * width
    ensures var pos := i * width + j;
      && 0 <= pos < |heights|
      && (i > 0 ==> 0 <= pos - width) && (i < length - 1 ==> pos + width < |heights|)
      && (j > 0 ==> 0 <= pos - 1) && (j < width - 1 ==> pos + 1 < |heights|)
    ensures var pos := i * width + j;
      FlowsTo(length, width, heights, pos, u) <==>
        (i > 0 && u == pos - width && heights[pos - width] <= heights[pos]) ||
        (j > 0 && u == pos - 1 && heights[pos - 1] <= heights[pos]) ||
        (i < length - 1 && u == pos + width && heights[pos + width] <= heights[pos]) ||
        (j < width - 1 && u == pos + 1 && heights[pos + 1] <= heights[pos])
  {
    CellRange(length, width, i, j);
    NeighbourCell(length, width, i, j, u);
  }

  /** Filling the list of cell (i, j) with its flow edges extends the lists by that cell. */
  lemma CellDone(length: int, width: int, heights: seq<int>, i: int, j: int,
                 lists0: seq<seq<int>>, lists: seq<seq<int>>)
    requires 0 <= i < length && 0 <= j < width && |heights| == length * width
    requires Built(length, width, heights, lists0, i * width + j)
    requires var pos := i * width + j;
      && 0 <= pos < |heights|
      && (i > 0 ==> 0 <= pos - width) && (i < length - 1 ==> pos + width < |heights|)
      && (j > 0 ==> 0 <= pos - 1) && (j < width - 1 ==> pos + 1 < |heights|)
    requires var pos := i * width + j;
      RowOnly(lists0, lists, pos, FlowTargets(heights, width, pos, i > 0, j > 0, i < length - 1, j < width - 1))
    ensures Built(length, width, heights, lists, i * width + j + 1)
  {
    var pos := i * width + j;
    forall v, u | 0 <= v < |lists|
      ensures u in lists[v] <==> v < pos + 1 && FlowsTo(length, width, heights, v, u)
    {
      if v == pos {
        CellFlows(length, width, heights, i, j, u);
      }
    }
  }

  /**
   * The cells the four tests of the inner loop add to the list of pos,
   * with the grid guards given as up, left, down and right.
   */
  ghost function FlowTargets(heights: seq<int>, width: int, pos: int, up: bool, left: bool, down: bool, right: bool): (r: set<int>)
    requires 0 <= width && 0 <= pos < |heights|
    requires (up ==> 0 <= pos - width) && (down ==> pos + width < |heights|)
    requires (left ==> 0 <= pos - 1) && (right ==> pos + 1 < |heights|)
    ensures forall u :: u in r <==>
      (up && u == pos - width && heights[pos - width] <= heights[pos]) ||
      (left && u == pos - 1 && heights[pos - 1] <= heights[pos]) ||
      (down && u == pos + width && heights[pos + width] <= heights[pos]) ||
      (right && u == pos + 1 && heights[pos + 1] <= heights[pos])
  {
    (if up && heights[pos - width] <= heights[pos] then {pos - width} else {}) +
    (if left && heights[pos - 1] <= heights[pos] then {pos - 1} else {}) +
    (if down && heights[pos + width] <= heights[pos] then {pos + width} else {}) +
    (if right && heights[pos + 1] <= heights[pos] then {pos + 1} else {})
  }

  /** Only the list of cell pos differs from lists0, and it holds exactly `targets`. */
  ghost predicate RowOnly(lists0: seq<seq<int>>, lists: seq<seq<int>>, pos: int, targets: set<int>) {
    && |lists| == |lists0| && 0 <= pos < |lists|
    && (forall v :: 0 <= v < |lists| && v != pos ==> lists[v] == lists0[v])
    && (forall u :: u in lists[pos] <==> u in targets)
  }

  /** add_edge(pos, u) on the directed set-list store adds u to the targets of pos. */
  lemma RowAdd(lists0: seq<seq<int>>, lists: seq<seq<int>>, pos: int, targets: set<int>, u: int)
    requires RowOnly(lists0, lists, pos, targets)
    ensures RowOnly(lists0, EdgeAdded(lists, pos, u, true, true), pos, targets + {u})
  {
  }

  /** add_edge(pos, u) on the directed set-list store adds u to the targets of pos. */
  method AddFlow(g: AdjListsGraph, pos: int, u: int, ghost lists0: seq<seq<int>>, ghost targets: set<int>)
    requires g.Valid() && g.directed && g.asSet && RowOnly(lists0, g.lists, pos, targets)
    modifies g
    ensures g.Valid() && g.nVertices == old(g.nVertices)
    ensures RowOnly(lists0, g.lists, pos, targets + {u})
  {
    RowAdd(lists0, g.lists, pos, targets, u);
    g.AddEdge(pos, u);
  }

  /**
   * The four tests of the inner loop for the cell pos, with the grid
   * guards i > 0, j > 0, i < length - 1 and j < width - 1 given as
   * up, left, down and right.
   */
  method AddFlows(g: AdjListsGraph, heights: seq<int>, width: int, pos: int, up: bool, left: bool, down: bool, right: bool)
    requires g.Valid() && g.directed && g.asSet && |g.lists| == |heights|
    requires 0 <= width && 0 <= pos < |heights|
    requires (up ==> 0 <= pos - width) && (down ==> pos + width < |heights|)
    requires (left ==> 0 <= pos - 1) && (right ==> pos + 1 < |heights|)
    requires forall u :: u !in g.lists[pos]
    modifies g
    ensures g.Valid() && g.nVertices == old(g.nVertices)
    ensures RowOnly(old(g.lists), g.lists, pos, FlowTargets(heights, width, pos, up, left, down, right))
  {
    ghost var lists0 := g.lists;
    assert RowOnly(lists0, g.lists, pos, {});
    ghost var t1 := FlowIf(g, pos, pos - width, up && heights[pos - width] <= heights[pos], lists0, {});
    ghost var t2 := FlowIf(g, pos, pos - 1, left && heights[pos - 1] <= heights[pos], lists0, t1);
    ghost var t3 := FlowIf(g, pos, pos + width, down && heights[pos + width] <= heights[pos], lists0, t2);
    ghost var t4 := FlowIf(g, pos, pos + 1, right && heights[pos + 1] <= heights[pos], lists0, t3);
  }

  /** One test of the inner loop: add_edge(pos, u) when the neighbour u is no higher. */
  method FlowIf(g: AdjListsGraph, pos: int, u: int, flows: bool, ghost lists0: seq<seq<int>>, ghost targets: set<int>)
    returns (ghost targets': set<int>)
    requires g.Valid() && g.directed && g.asSet && RowOnly(lists0, g.lists, pos, targets)
    modifies g
    ensures g.Valid() && g.nVertices == old(g.nVertices)
    ensures targets' == (if flows then targets + {u} else targets) && RowOnly(lists0, g.lists, pos, targets')
  {
    targets' := targets;
    if flows {
      AddFlow(g, pos, u, lists0, targets);
      targets' := targets + {u};
    }
  }

  /** One iteration of the inner loop of generate_flow_graph: the flow edges out of cell (i, j). */
  method FlowCell(g: AdjListsGraph, length: int, width: int, heights: seq<int>, i: int, j: int)
    requires 0 <= i < length && 0 <= j < width && |heights| == length * width
    requires g.Valid() && g.directed && g.asSet && |g.lists| == |heights|
    requires Built(length, width, heights, g.lists, i * width + j)
    modifies g
    ensures g.Valid() && g.nVertices == old(g.nVertices)
    ensures Built(length, width, heights, g.lists, i * width + j + 1)
  {
    ghost var lists0 := g.lists;
    var pos := i * width + j;
    CellRange(length, width, i, j);
    AddFlows(g, heights, width, pos, i > 0, j > 0, i < length - 1, j < width - 1);
    CellDone(length, width, heights, i, j, lists0, g.lists);
  }

  /** The inner loop over the cells of row i. */
  method FlowRow(g: AdjListsGraph, length: int, width: int, heights: seq<int>, i: int)
    requires 0 <= i < length && 0 <= width && |heights| == length * width
    requires g.Valid() && g.directed && g.asSet && |g.lists| == |heights|
    requires Built(length, width, heights, g.lists, i * width)
    modifies g
    ensures g.Valid() && g.nVertices == old(g.nVertices)
    ensures Built(length, width, heights, g.lists, (i + 1) * width)
  {
    var j := 0;
    while j < width
      invariant 0 <= j <= width
      invariant g.Valid() && g.nVertices == old(g.nVertices) && |g.lists| == |heights|
      invariant Built(length, width, heights, g.lists, i * width + j)
    {
      FlowCell(g, length, width, heights, i, j);
      j := j + 1;
    }
    assert (i + 1) * width == i * width + width;
  }

  /**
   * The flow graph: one vertex per cell, and u in v's list exactly when
   * water flows from v to u.
   */
  ghost predicate FlowGraph(length: int, width: int, heights: seq<int>, g: AdjLists) {
    && |g| == |heights| && ValidGraph(g)
    && forall v, u :: 0 <= v < |g| ==> (u in g[v] <==> FlowsTo(length, width, heights, v, u))
  }

  /** generate_flow_graph(length, width, map), on the directed set-list store. */
  method GenerateFlowGraph(length: nat, width: nat, heights: seq<int>) returns (g: AdjLists)
    requires |heights| == length * width
    ensures FlowGraph(length, width, heights, g)
  {
    var store := new AdjListsGraph(length * width, true, true, false);
    var i := 0;
    while i < length
      invariant 0 <= i <= length
      invariant store.Valid() && store.directed && store.asSet && |store.lists| == |heights|
      invariant Built(length, width, heights, store.lists, i * width)
    {
      FlowRow(store, length, width, heights, i);
      i := i + 1;
    }
    g := store.lists;
    forall v, k | 0 <= v < |g| && 0 <= k < |g[v]| ensures 0 <= g[v][k] < |g| {
      assert g[v][k] in g[v];
    }
  }

  /** Adjacent cells of equal height flow into each other, so they lie in one component. */
  lemma LevelNeighbours(length: int, width: int, heights: seq<int>, g: AdjLists, comps: seq<int>, count: int, v: int, u: int)
    requires FlowGraph(length, width, heights, g) && Components(g, comps, count)
    requires width > 0 && 0 <= v < |g| && 0 <= u < |g| && |g| == length * width
    requires Neighbour(length, width, v, u) && heights[u] == heights[v]
    ensures comps[u] == comps[v]
  {
    NeighbourSymmetric(length, width, v, u);
    assert FlowsTo(length, width, heights, v, u) && FlowsTo(length, width, heights, u, v);
    EdgeReaches(g, v, u);
    EdgeReaches(g, u, v);
  }

  /** No edge of g leaves component c. */
  ghost predicate Sink(g: AdjLists, comps: seq<int>, c: int) {
    forall x, k :: 0 <= x < |g| && 0 <= k < |g[x]| && x < |comps| && comps[x] == c ==>
      0 <= g[x][k] < |comps| && comps[g[x][k]] == c
  }

  /** A component has an empty list in the directed condensation exactly when it is a sink. */
  lemma EmptyIffSink(g: AdjLists, comps: seq<int>, cond: AdjLists, c: int)
    requires ValidGraph(g) && Components(g, comps, |cond|) && CondEdges(g, comps, cond, true) && 0 <= c < |cond|
    ensures cond[c] == [] <==> Sink(g, comps, c)
  {
    if cond[c] != [] {
      var d := cond[c][0];
      assert d in cond[c];
      var x, j :| Crosses(g, comps, x, j, c, d);
      assert comps[g[x][j]] != c;
    }
    if !Sink(g, comps, c) {
      var x, k :| 0 <= x < |g| && 0 <= k < |g[x]| && comps[x] == c && comps[g[x][k]] != c;
      assert Crosses(g, comps, x, k, c, comps[g[x][k]]);
      assert comps[g[x][k]] in cond[c];
    }
  }

  /** The sink components among the first n. */
  ghost function Sinks(g: AdjLists, comps: seq<int>, n: int): set<int> {
    set c | 0 <= c < n && Sink(g, comps, c)
  }

  /** The counting loop of main: the condensation vertices with no neighbours. */
  method CountSinks(g: AdjLists, comps: seq<int>, cond: AdjLists) returns (answer: nat)
    requires ValidGraph(g) && Components(g, comps, |cond|) && CondEdges(g, comps, cond, true)
    ensures answer == |Sinks(g, comps, |cond|)|
  {
    answer := 0;
    var i := 0;
    while i < |cond|
      invariant 0 <= i <= |cond| && answer == |Sinks(g, comps, i)|
    {
      EmptyIffSink(g, comps, cond, i);
      if cond[i] == [] {
        assert Sinks(g, comps, i + 1) == Sinks(g, comps, i) + {i};
        answer := answer + 1;
      } else {
        assert Sinks(g, comps, i + 1) == Sinks(g, comps, i);
      }
      i := i + 1;
    }
  }

  /**
   * main, without its I/O: the flow graph of the map, its strongly
   * connected components, and the number of them that no water leaves.
   */
  method Gutters(length: nat, width: nat, heights: seq<int>)
    returns (ghost g: AdjLists, ghost comps: seq<int>, ghost count: nat, answer: nat)
    requires |heights| == length * width
    ensures FlowGraph(length, width, heights, g) && Components(g, comps, count)
    ensures answer == |Sinks(g, comps, count)|
  {
    var flow := GenerateFlowGraph(length, width, heights);
    var cond, c := BuildCondensation(flow, true);
    answer := CountSinks(flow, c, cond);
    g, comps, count := flow, c, |cond|;
  }
}
