/**
 * The knight's shortest path (C_knight_min_path): the cells of a square board
 * are vertices numbered by an ordered PairEncoder, every knight move inside
 * the board is an undirected edge, and a shortest path is found by
 * breadth-first search.
 */
module Knight {
  import opened Graphs
  import opened GraphStore
  import opened PairEncoding
  import Bfs

  /** Grid(n_rows, n_cols): its encoder is ordered with key n_cols. */
  datatype Grid = Grid(nRows: int, nCols: int)

  function Encoder(grid: Grid): PairEncoder {
    PairEncoder(grid.nCols, true)
  }

  /** contains_cell(x, y): x is a column and y a row of the grid. */
  predicate ContainsCell(grid: Grid, x: int, y: int) {
    (x >= 0 && x < grid.nCols) && (y >= 0 && y < grid.nRows)
  }

  /** The code of a board cell lies in [0, n_cells), and decoding it gives the cell back. */
  lemma {:induction false} CellCode(grid: Grid, x: int, y: int)
    requires grid.nRows == grid.nCols && ContainsCell(grid, x, y)
    ensures var c := Encode(Encoder(grid), x, y);
      && c == x * grid.nCols + y
      && 0 <= c < grid.nRows * grid.nCols
      && c / grid.nCols == x && c % grid.nCols == y
      && Decode(Encoder(grid), c) == (x, y)
  {
    var n := grid.nCols;
    EncodePairBijective(n, n);
    assert 0 <= EncodePair(x, y, n) < n * n;
    DecodeEncodeOrdered(Encoder(grid), x, y);
  }

  /** The code of a board cell is one of the store's cells. */
  lemma CellInStore(grid: Grid, x: int, y: int)
    requires grid.nRows == grid.nCols && ContainsCell(grid, x, y)
    ensures 0 <= Encode(Encoder(grid), x, y) < grid.nRows * grid.nCols
  {
    CellCode(grid, x, y);
  }

  /** On a square board every code in [0, n_cells) is the code of a cell. */
  lemma {:induction false} CodeCell(grid: Grid, c: int)
    requires grid.nRows == grid.nCols && grid.nCols > 0 && 0 <= c < grid.nRows * grid.nCols
    ensures ContainsCell(grid, c / grid.nCols, c % grid.nCols)
    ensures Encode(Encoder(grid), c / grid.nCols, c % grid.nCols) == c
  {
    EncodePairBijective(grid.nCols, grid.nCols);
    assert EncodePair(c / grid.nCols, c % grid.nCols, grid.nCols) == c;
  }

  /** The eight moves of knight_moves, in the order the generator tries them. */
  const KnightMoves: seq<(int, int)> := [(1, -2), (1, 2), (-1, -2), (-1, 2), (2, -1), (2, 1), (-2, -1), (-2, 1)]

  function Abs(a: int): int {
    if a < 0 then -a else a
  }

  /** A knight move: one coordinate changes by 1 and the other by 2. */
  predicate KnightDelta(dx: int, dy: int) {
    (Abs(dx) == 1 && Abs(dy) == 2) || (Abs(dx) == 2 && Abs(dy) == 1)
  }

  /** Each entry of knight_moves is a knight move. */
  lemma MoveIsDelta(j: int)
    requires 0 <= j < |KnightMoves|
    ensures KnightDelta(KnightMoves[j].0, KnightMoves[j].1)
  {
  }

  /** Every knight move has an entry in knight_moves. */
  lemma DeltaIsMove(dx: int, dy: int) returns (j: int)
    requires KnightDelta(dx, dy)
    ensures 0 <= j < |KnightMoves| && KnightMoves[j] == (dx, dy)
  {
    if Abs(dx) == 1 {
      if dx == 1 && dy == -2 { j := 0; }
      else if dx == 1 && dy == 2 { j := 1; }
      else if dx == -1 && dy == -2 { j := 2; }
      else { j := 3; }
    } else {
      if dx == 2 && dy == -1 { j := 4; }
      else if dx == 2 && dy == 1 { j := 5; }
      else if dx == -2 && dy == -1 { j := 6; }
      else { j := 7; }
    }
  }

  /** No knight move is listed twice. */
  lemma MovesTableDistinct(j: int, k: int)
    requires 0 <= j < |KnightMoves| && 0 <= k < |KnightMoves| && KnightMoves[j] == KnightMoves[k]
    ensures j == k
  {
  }

  /** knight_moves lists every knight move, each once. */
  lemma KnightMovesExact()
    ensures |KnightMoves| == 8
    ensures forall dx, dy :: (dx, dy) in KnightMoves <==> KnightDelta(dx, dy)
    ensures forall j, k :: 0 <= j < k < |KnightMoves| ==> KnightMoves[j] != KnightMoves[k]
  {
    forall dx, dy ensures (dx, dy) in KnightMoves <==> KnightDelta(dx, dy) {
      if KnightDelta(dx, dy) {
        var j := DeltaIsMove(dx, dy);
      }
      if (dx, dy) in KnightMoves {
        var j :| 0 <= j < |KnightMoves| && KnightMoves[j] == (dx, dy);
        MoveIsDelta(j);
      }
    }
    forall j, k | 0 <= j < k < |KnightMoves| ensures KnightMoves[j] != KnightMoves[k] {
      if KnightMoves[j] == KnightMoves[k] {
        MovesTableDistinct(j, k);
      }
    }
  }

  /** Cells v and u of an n x n board (by code) are a knight move apart. */
  ghost predicate KnightStep(n: int, v: int, u: int) {
    n > 0 && 0 <= v < n * n && 0 <= u < n * n && KnightDelta(u / n - v / n, u % n - v % n)
  }

  /** A knight move can be made back. */
  lemma KnightStepSymmetric(n: int, v: int, u: int)
    ensures KnightStep(n, v, u) <==> KnightStep(n, u, v)
  {
  }

  /** Move j of knight_moves from (x, y) stays on the board and reaches the cell with code u. */
  ghost predicate MoveTo(grid: Grid, x: int, y: int, j: int, u: int)
    requires 0 <= j < |KnightMoves|
  {
    var (nx, ny) := (x + KnightMoves[j].0, y + KnightMoves[j].1);
    ContainsCell(grid, nx, ny) && u == Encode(Encoder(grid), nx, ny)
  }

  /** u is the target of one of the first k moves from (x, y). */
  ghost predicate TargetAmong(grid: Grid, x: int, y: int, u: int, k: int) {
    exists j :: 0 <= j < k && j < |KnightMoves| && MoveTo(grid, x, y, j, u)
  }

  /** Different moves from one cell reach different cells. */
  lemma MovesDistinct(grid: Grid, x: int, y: int, j: int, k: int, u: int)
    requires grid.nRows == grid.nCols && ContainsCell(grid, x, y)
    requires 0 <= j < |KnightMoves| && 0 <= k < |KnightMoves|
    requires MoveTo(grid, x, y, j, u) && MoveTo(grid, x, y, k, u)
    ensures j == k
  {
    var e := Encoder(grid);
    EncodeInjective(e, x + KnightMoves[j].0, y + KnightMoves[j].1, x + KnightMoves[k].0, y + KnightMoves[k].1);
    MovesTableDistinct(j, k);
  }

  /** A move that stays on the board is a knight step between the two codes. */
  lemma TargetIsKnightStep(grid: Grid, x: int, y: int, j: int, u: int)
    requires grid.nRows == grid.nCols && grid.nCols > 0 && ContainsCell(grid, x, y)
    requires 0 <= j < |KnightMoves| && MoveTo(grid, x, y, j, u)
    ensures KnightStep(grid.nCols, Encode(Encoder(grid), x, y), u)
  {
    var n := grid.nCols;
    var (dx, dy) := KnightMoves[j];
    CellCode(grid, x, y);
    CellCode(grid, x + dx, y + dy);
    MoveIsDelta(j);
    assert u / n - x == dx && u % n - y == dy;
  }

  /** Every knight step out of a board cell is one of its moves. */
  lemma KnightStepIsTarget(grid: Grid, x: int, y: int, u: int)
    requires grid.nRows == grid.nCols && grid.nCols > 0 && ContainsCell(grid, x, y)
    requires KnightStep(grid.nCols, Encode(Encoder(grid), x, y), u)
    ensures TargetAmong(grid, x, y, u, 8)
  {
    var n := grid.nCols;
    CellCode(grid, x, y);
    CodeCell(grid, u);
    var (ux, uy) := (u / n, u % n);
    var (dx, dy) := (ux - x, uy - y);
    assert KnightDelta(dx, dy);
    var j := DeltaIsMove(dx, dy);
    assert x + dx == ux && y + dy == uy;
    assert MoveTo(grid, x, y, j, u);
  }

  /** The eight moves from a board cell reach exactly its knight neighbours. */
  lemma TargetsAreKnightSteps(grid: Grid, x: int, y: int, u: int)
    requires grid.nRows == grid.nCols && grid.nCols > 0 && ContainsCell(grid, x, y)
    ensures TargetAmong(grid, x, y, u, 8) <==> KnightStep(grid.nCols, Encode(Encoder(grid), x, y), u)
  {
    if TargetAmong(grid, x, y, u, 8) {
      var j :| 0 <= j < 8 && j < |KnightMoves| && MoveTo(grid, x, y, j, u);
      TargetIsKnightStep(grid, x, y, j, u);
    }
    if KnightStep(grid.nCols, Encode(Encoder(grid), x, y), u) {
      KnightStepIsTarget(grid, x, y, u);
    }
  }

  /** Trying move k adds its target to the targets of the moves before it, and that target is new. */
  lemma TargetAmongNext(grid: Grid, x: int, y: int, k: int)
    requires grid.nRows == grid.nCols && ContainsCell(grid, x, y) && 0 <= k < |KnightMoves|
    ensures forall u :: TargetAmong(grid, x, y, u, k + 1) <==> TargetAmong(grid, x, y, u, k) || MoveTo(grid, x, y, k, u)
    ensures forall u :: TargetAmong(grid, x, y, u, k) ==> !MoveTo(grid, x, y, k, u)
  {
    forall u | TargetAmong(grid, x, y, u, k) ensures !MoveTo(grid, x, y, k, u) {
      var j :| 0 <= j < k && j < |KnightMoves| && MoveTo(grid, x, y, j, u);
      if MoveTo(grid, x, y, k, u) {
        MovesDistinct(grid, x, y, j, k, u);
      }
    }
    forall u | TargetAmong(grid, x, y, u, k + 1) ensures TargetAmong(grid, x, y, u, k) || MoveTo(grid, x, y, k, u) {
      var j :| 0 <= j < k + 1 && j < |KnightMoves| && MoveTo(grid, x, y, j, u);
      if j < k {
        assert TargetAmong(grid, x, y, u, k);
      }
    }
    forall u | MoveTo(grid, x, y, k, u) ensures TargetAmong(grid, x, y, u, k + 1) {
      assert 0 <= k < k + 1;
    }
  }

  /** One round of the move loop: add_edge(code, target) when move k stays on the board. */
  method TryKnightMove(g: AdjListsGraph, grid: Grid, x: int, y: int, k: int, ghost init: seq<seq<int>>, ghost calls: seq<(int, int)>)
    returns (ghost calls': seq<(int, int)>)
    requires grid.nRows == grid.nCols && ContainsCell(grid, x, y) && 0 <= k < |KnightMoves|
    requires g.Valid() && !g.directed && |g.lists| == grid.nRows * grid.nCols + 1
    requires |init| == |g.lists| && CallsInRange(calls, |init|, false) && g.lists == EdgesAdded(init, calls, false, g.asSet)
    modifies g
    ensures g.Valid() && g.nVertices == old(g.nVertices)
    ensures CallsInRange(calls', |init|, false) && g.lists == EdgesAdded(init, calls', false, g.asSet)
    ensures forall v, u :: (multiset(calls')[(v, u)] ==
      multiset(calls)[(v, u)] + (if v == Encode(Encoder(grid), x, y) && MoveTo(grid, x, y, k, u) then 1 else 0))
  {
    var e := Encoder(grid);
    var code := Encode(e, x, y);
    var (nx, ny) := (x + KnightMoves[k].0, y + KnightMoves[k].1);
    if ContainsCell(grid, nx, ny) {
      var target := Encode(e, nx, ny);
      CellInStore(grid, x, y);
      CellInStore(grid, nx, ny);
      calls' := AddEdgeLogged(g, code, target, init, calls);
    } else {
      calls' := calls;
    }
  }

  /**
   * The move loop of generate_knight_moves_graph for cell (x, y): one
   * add_edge(code, target) per move that stays on the board.
   */
  method AddKnightMoves(g: AdjListsGraph, grid: Grid, x: int, y: int, ghost init: seq<seq<int>>, ghost calls: seq<(int, int)>)
    returns (ghost calls': seq<(int, int)>)
    requires grid.nRows == grid.nCols && grid.nCols > 0 && ContainsCell(grid, x, y)
    requires g.Valid() && !g.directed && |g.lists| == grid.nRows * grid.nCols + 1
    requires |init| == |g.lists| && CallsInRange(calls, |init|, false) && g.lists == EdgesAdded(init, calls, false, g.asSet)
    modifies g
    ensures g.Valid() && g.nVertices == old(g.nVertices)
    ensures CallsInRange(calls', |init|, false) && g.lists == EdgesAdded(init, calls', false, g.asSet)
    ensures forall v, u :: (multiset(calls')[(v, u)] ==
      multiset(calls)[(v, u)] + (if v == Encode(Encoder(grid), x, y) && KnightStep(grid.nCols, v, u) then 1 else 0))
  {
    var code := Encode(Encoder(grid), x, y);
    calls' := calls;
    assert forall u :: !TargetAmong(grid, x, y, u, 0);
    assert forall v, u :: multiset(calls')[(v, u)] == multiset(calls)[(v, u)];
    var k := 0;
    while k < |KnightMoves|
      invariant 0 <= k <= |KnightMoves|
      invariant g.Valid() && g.nVertices == old(g.nVertices)
      invariant CallsInRange(calls', |init|, false) && g.lists == EdgesAdded(init, calls', false, g.asSet)
      invariant forall v, u :: (multiset(calls')[(v, u)] ==
        multiset(calls)[(v, u)] + (if v == code && TargetAmong(grid, x, y, u, k) then 1 else 0))
    {
      calls' := TryKnightMove(g, grid, x, y, k, init, calls');
      TargetAmongNext(grid, x, y, k);
      k := k + 1;
    }
    forall v, u ensures (v == code && TargetAmong(grid, x, y, u, 8)) <==> (v == code && KnightStep(grid.nCols, v, u)) {
      TargetsAreKnightSteps(grid, x, y, u);
    }
  }

  /** A store of the n x n board: every list holds each knight neighbour twice and nothing else. */
  ghost predicate IsKnightGraph(n: int, g: AdjLists) {
    |g| == n * n + 1 && forall v, u :: 0 <= v < |g| ==> Count(g[v], u) == (if KnightStep(n, v, u) then 2 else 0)
  }

  /** The log names each knight step out of the cells with codes below done once, and nothing else. */
  ghost predicate StepsLogged(calls: seq<(int, int)>, n: int, done: int) {
    forall v, u :: multiset(calls)[(v, u)] == (if 0 <= v < done && KnightStep(n, v, u) then 1 else 0)
  }

  /** The store of the n x n board is the fold of the log, which names the knight steps out of the cells below done. */
  ghost predicate ColumnsAdded(g: AdjListsGraph, n: int, init: seq<seq<int>>, calls: seq<(int, int)>, done: int)
    reads g
  {
    && g.Valid() && !g.directed && |g.lists| == n * n + 1
    && |init| == |g.lists| && CallsInRange(calls, |init|, false) && g.lists == EdgesAdded(init, calls, false, g.asSet)
    && StepsLogged(calls, n, done)
  }

  /** The y loop of generate_knight_moves_graph for column x: the cells with codes done .. done + n - 1. */
  method AddKnightMovesColumn(g: AdjListsGraph, grid: Grid, x: int, ghost done: int, ghost init: seq<seq<int>>, ghost calls: seq<(int, int)>)
    returns (ghost calls': seq<(int, int)>)
    requires grid.nRows == grid.nCols && grid.nCols > 0 && 0 <= x < grid.nCols && done == x * grid.nCols
    requires ColumnsAdded(g, grid.nCols, init, calls, done)
    modifies g
    ensures g.nVertices == old(g.nVertices) && ColumnsAdded(g, grid.nCols, init, calls', done + grid.nCols)
  {
    var n := grid.nCols;
    calls' := calls;
    ghost var next := done;
    var y := 0;
    while y < n
      invariant 0 <= y <= n && next == done + y
      invariant g.nVertices == old(g.nVertices) && ColumnsAdded(g, n, init, calls', next)
    {
      CellCode(grid, x, y);
      calls' := AddKnightMoves(g, grid, x, y, init, calls');
      next := next + 1;
      y := y + 1;
    }
  }

  /**
   * generate_knight_moves_graph: an undirected vector-list store with
   * n_cells + 1 lists, and for every cell (x-major, then y) and every move
   * that stays on the board, add_edge(code, target).  The board is square,
   * as main builds it.
   */
  method GenerateKnightMovesGraph(grid: Grid) returns (g: AdjListsGraph)
    requires grid.nRows == grid.nCols && grid.nCols > 0
    ensures fresh(g) && g.Valid() && !g.directed && !g.asSet && g.nVertices == grid.nRows * grid.nCols
    ensures IsKnightGraph(grid.nCols, g.lists)
  {
    var n := grid.nCols;
    g := new AdjListsGraph(grid.nRows * grid.nCols, false, false, true);
    ghost var init := g.lists;
    ghost var calls: seq<(int, int)> := [];
    ghost var done := 0;
    var x := 0;
    while x < n
      invariant 0 <= x <= n && done == x * n
      invariant !g.asSet && g.nVertices == n * n && ColumnsAdded(g, n, init, calls, done)
    {
      calls := AddKnightMovesColumn(g, grid, x, done, init, calls);
      assert x * n + n == (x + 1) * n;
      done := done + n;
      x := x + 1;
    }
    KnightCounts(n, init, calls);
  }

  /** Calls that name each knight step once, folded into empty lists, give the knight store. */
  lemma KnightCounts(n: int, init: seq<seq<int>>, calls: seq<(int, int)>)
    requires init == seq(n * n + 1, _ => []) && CallsInRange(calls, |init|, false)
    requires StepsLogged(calls, n, n * n)
    ensures IsKnightGraph(n, EdgesAdded(init, calls, false, false))
  {
    var g := EdgesAdded(init, calls, false, false);
    forall v, u | 0 <= v < |g| ensures Count(g[v], u) == (if KnightStep(n, v, u) then 2 else 0) {
      EdgesAddedCount(init, calls, false, v, u);
      KnightStepSymmetric(n, v, u);
    }
  }

  /** In a knight store, u is a neighbour of v iff it is a knight move away, and every neighbour is a cell. */
  lemma KnightGraphEdges(n: int, g: AdjLists)
    requires IsKnightGraph(n, g)
    ensures forall v, u :: 0 <= v < |g| ==> (u in g[v] <==> KnightStep(n, v, u))
    ensures ValidGraph(g)
  {
    forall v, u | 0 <= v < |g| ensures u in g[v] <==> KnightStep(n, v, u) {
      assert Count(g[v], u) == (if KnightStep(n, v, u) then 2 else 0);
    }
    forall v, k | 0 <= v < |g| && 0 <= k < |g[v]| ensures 0 <= g[v][k] < |g| {
      assert g[v][k] in g[v];
      assert KnightStep(n, v, g[v][k]);
    }
  }

  /** p runs from s to t by knight moves on the n x n board. */
  ghost predicate IsKnightWalk(n: int, p: seq<int>, s: int, t: int) {
    |p| >= 1 && p[0] == s && p[|p| - 1] == t && 0 <= s < n * n
      && forall i :: 0 <= i < |p| - 1 ==> KnightStep(n, p[i], p[i + 1])
  }

  /** Walks of a knight store are exactly the knight walks. */
  lemma KnightWalks(n: int, g: AdjLists, p: seq<int>, s: int, t: int)
    requires IsKnightGraph(n, g) && 0 <= s < n * n
    ensures IsWalkFromTo(g, p, s, t) <==> IsKnightWalk(n, p, s, t)
  {
    KnightGraphEdges(n, g);
    if IsKnightWalk(n, p, s, t) {
      forall i | 0 <= i < |p| ensures 0 <= p[i] < |g| {
        if i > 0 {
          assert KnightStep(n, p[i - 1], p[i]);
        }
      }
      forall i | 0 <= i < |p| - 1 ensures p[i + 1] in g[p[i]] {
        assert KnightStep(n, p[i], p[i + 1]);
      }
    }
    if IsWalkFromTo(g, p, s, t) {
      forall i | 0 <= i < |p| - 1 ensures KnightStep(n, p[i], p[i + 1]) {
        assert p[i + 1] in g[p[i]];
      }
    }
  }

  /**
   * main between input and output: the knight graph of the n x n board,
   * then find_shortest_path between the two cells' codes.  The result is a
   * shortest knight walk, or empty when finish cannot be reached.
   */
  method KnightPath(n: int, startX: int, startY: int, finishX: int, finishY: int) returns (path: seq<int>)
    requires n > 0 && ContainsCell(Grid(n, n), startX, startY) && ContainsCell(Grid(n, n), finishX, finishY)
    ensures var (s, t) := (startX * n + startY, finishX * n + finishY);
      && (path == [] <==> !exists p :: IsKnightWalk(n, p, s, t))
      && (path != [] ==> IsKnightWalk(n, path, s, t))
      && (forall p :: IsKnightWalk(n, p, s, t) ==> |path| <= |p|)
    ensures path != [] ==>
      Decode(Encoder(Grid(n, n)), path[0]) == (startX, startY) && Decode(Encoder(Grid(n, n)), path[|path| - 1]) == (finishX, finishY)
  {
    var grid := Grid(n, n);
    var g := GenerateKnightMovesGraph(grid);
    var start := Encode(Encoder(grid), startX, startY);
    var finish := Encode(Encoder(grid), finishX, finishY);
    CellCode(grid, startX, startY);
    CellCode(grid, finishX, finishY);
    KnightGraphEdges(n, g.lists);
    Bfs.AllVerticesClosed(g.lists);
    path := Bfs.FindShortestPath(g.lists, start, finish, 0, Range(|g.lists|));
    forall p ensures IsWalkFromTo(g.lists, p, start, finish) <==> IsKnightWalk(n, p, start, finish) {
      KnightWalks(n, g.lists, p, start, finish);
    }
  }
}
