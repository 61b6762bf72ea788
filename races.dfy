/**
 * The races program (F_races): on a length x width map, cells numbered
 * row-major, a move from a free cell stops at the midpoint between the cell
 * and the nearest wall (or border) in one of the four directions.  The moves
 * graph is directed with set lists (length * width + 1 of them), and the
 * answer is the number of moves of a shortest breadth-first path.
 */
module Races {
  import opened Graphs
  import opened GraphStore
  import opened PairEncoding
  import Bfs

  /** The wall flags of row i; a code outside the map counts as a wall. */
  ghost function Row(walls: seq<bool>, width: int, i: int): seq<bool>
    requires width >= 0
  {
    seq(width, j => !(0 <= i * width + j < |walls|) || walls[i * width + j])
  }

  /** The wall flags of column j, top to bottom; a code outside the map counts as a wall. */
  ghost function Column(walls: seq<bool>, width: int, length: int, j: int): seq<bool>
    requires length >= 0
  {
    seq(length, i => !(0 <= i * width + j < |walls|) || walls[i * width + j])
  }

  /** The nearest wall of the line before position k, or -1 when there is none. */
  function LastWall(line: seq<bool>, k: int): (w: int)
    requires 0 <= k <= |line|
    ensures -1 <= w < k && (w >= 0 ==> line[w])
    ensures forall c :: w < c < k ==> !line[c]
    decreases k
  {
    if k == 0 then -1 else if line[k - 1] then k - 1 else LastWall(line, k - 1)
  }

  /** The nearest wall of the line after position k, or |line| when there is none. */
  function NextWall(line: seq<bool>, k: int): (w: int)
    requires -1 <= k < |line|
    ensures k < w <= |line| && (w < |line| ==> line[w])
    ensures forall c :: k < c < w ==> !line[c]
    decreases |line| - k
  {
    if k == |line| - 1 then |line| else if line[k + 1] then k + 1 else NextWall(line, k + 1)
  }

  /**
   * The stop of a move towards the start of the line: (w + k + 1) / 2 for the
   * nearest wall w before k.  It lies after the wall and is free when k is.
   */
  function MidBefore(line: seq<bool>, k: int): (t: int)
    requires 0 <= k < |line|
    ensures LastWall(line, k) < t <= k
    ensures !line[k] ==> !line[t]
  {
    (LastWall(line, k) + k + 1) / 2
  }

  /**
   * The stop of a move towards the end of the line: (k + w) / 2 for the
   * nearest wall w after k.  It lies before the wall and is free when k is.
   */
  function MidAfter(line: seq<bool>, k: int): (t: int)
    requires 0 <= k < |line|
    ensures k <= t < NextWall(line, k)
    ensures !line[k] ==> !line[t]
  {
    (k + NextWall(line, k)) / 2
  }

  /** A move along the row of the free cell v (row v / width, column v % width). */
  ghost predicate RowMove(walls: seq<bool>, width: int, v: int, u: int) {
    width > 0 && 0 <= v < |walls| && !walls[v] &&
    var (i, j) := (v / width, v % width);
    (u == i * width + MidBefore(Row(walls, width, i), j) || u == i * width + MidAfter(Row(walls, width, i), j))
  }

  /** A move along the column of the free cell v. */
  ghost predicate ColumnMove(walls: seq<bool>, length: int, width: int, v: int, u: int) {
    width > 0 && 0 <= v < |walls| && !walls[v] && 0 <= v / width < length &&
    var (i, j) := (v / width, v % width);
    (u == j + width * MidBefore(Column(walls, width, length, j), i) || u == j + width * MidAfter(Column(walls, width, length, j), i))
  }

  /** The moves out of cell v: the four midpoints, and nothing out of a wall. */
  ghost predicate RaceMove(walls: seq<bool>, length: int, width: int, v: int, u: int) {
    RowMove(walls, width, v, u) || ColumnMove(walls, length, width, v, u)
  }

  /** Row and column of a cell code. */
  lemma {:induction false} CellOfCode(length: int, width: int, v: int)
    requires width > 0 && 0 <= v < length * width
    ensures 0 <= v / width < length && 0 <= v % width < width && v == (v / width) * width + v % width
  {
    QuotientInRange(length, width, v);
  }

  /** A row move ends on a free cell of the same row. */
  lemma {:induction false} RowMoveTarget(walls: seq<bool>, length: int, width: int, v: int, u: int)
    requires |walls| == length * width && RowMove(walls, width, v, u)
    ensures 0 <= u < |walls| && !walls[u] && u / width == v / width
  {
    CellOfCode(length, width, v);
    var (i, j) := (v / width, v % width);
    var row := Row(walls, width, i);
    assert !row[j];
    var t := if u == i * width + MidBefore(row, j) then MidBefore(row, j) else MidAfter(row, j);
    assert u == i * width + t && 0 <= t < width && !row[t];
    CodeInRange(length, width, i, t);
    DivModUnique(width, i, t);
  }

  /** A column move ends on a free cell of the same column. */
  lemma {:induction false} ColumnMoveTarget(walls: seq<bool>, length: int, width: int, v: int, u: int)
    requires |walls| == length * width && ColumnMove(walls, length, width, v, u)
    ensures 0 <= u < |walls| && !walls[u] && u % width == v % width
  {
    var (i, j) := (v / width, v % width);
    assert 0 <= j < width;
    var col := Column(walls, width, length, j);
    SameCell(width, v, i, j);
    assert !col[i];
    var t := if u == j + width * MidBefore(col, i) then MidBefore(col, i) else MidAfter(col, i);
    assert 0 <= t < length && !col[t] && u == j + width * t;
    var c := t * width + j;
    assert u == c;
    CodeInRange(length, width, t, j);
    assert !walls[c];
    DivModUnique(width, t, j);
  }

  /** Every move ends on a free cell inside the map; a wall cell has no move. */
  lemma MoveTargetsFree(walls: seq<bool>, length: int, width: int, v: int, u: int)
    requires |walls| == length * width && RaceMove(walls, length, width, v, u)
    ensures 0 <= u < |walls| && !walls[u] && !walls[v]
    ensures RowMove(walls, width, v, u) ==> u / width == v / width
    ensures ColumnMove(walls, length, width, v, u) ==> u % width == v % width
  {
    if RowMove(walls, width, v, u) {
      RowMoveTarget(walls, length, width, v, u);
    }
    if ColumnMove(walls, length, width, v, u) {
      ColumnMoveTarget(walls, length, width, v, u);
    }
  }

  /** A code with row i and column j is i * width + j. */
  lemma SameCell(width: int, v: int, i: int, j: int)
    requires width > 0 && v >= 0 && v / width == i && v % width == j
    ensures v == i * width + j
  {
  }

  /** The left-to-right calls of row i so far: each free cell of a column below k to its MidBefore stop. */
  ghost predicate SweptRight(walls: seq<bool>, width: int, i: int, k: int, v: int, u: int) {
    0 <= k <= width && i * width <= v < i * width + k && 0 <= v < |walls| && !walls[v] &&
    u == i * width + MidBefore(Row(walls, width, i), v - i * width)
  }

  /** The right-to-left calls of row i so far: each free cell of a column from k on to its MidAfter stop. */
  ghost predicate SweptLeft(walls: seq<bool>, width: int, i: int, k: int, v: int, u: int) {
    0 <= k <= width && i * width + k <= v < i * width + width && 0 <= v < |walls| && !walls[v] &&
    u == i * width + MidAfter(Row(walls, width, i), v - i * width)
  }

  /** The top-to-bottom calls of column j so far: each free cell of a row below k to its MidBefore stop. */
  ghost predicate SweptDown(walls: seq<bool>, length: int, width: int, j: int, k: int, v: int, u: int) {
    width > 0 && 0 <= k <= length && 0 <= v < |walls| && v % width == j && v / width < k && !walls[v] &&
    u == j + width * MidBefore(Column(walls, width, length, j), v / width)
  }

  /** The bottom-to-top calls of column j so far: each free cell of a row from k on to its MidAfter stop. */
  ghost predicate SweptUp(walls: seq<bool>, length: int, width: int, j: int, k: int, v: int, u: int) {
    width > 0 && 0 <= k <= length && 0 <= v < |walls| && v % width == j && k <= v / width < length && !walls[v] &&
    u == j + width * MidAfter(Column(walls, width, length, j), v / width)
  }

  /** The store the sweeps write into: directed, as sets, with |walls| + 1 lists. */
  ghost predicate Store(g: AdjListsGraph, walls: seq<bool>) reads g {
    g.Valid() && g.directed && |g.lists| == |walls| + 1
  }

  /** The left-to-right sweep of row i: the wall seen last decides each free cell's stop. */
  method SweepRight(g: AdjListsGraph, length: int, width: int, walls: seq<bool>, i: int,
                    ghost init: seq<seq<int>>, ghost calls: seq<(int, int)>)
    returns (ghost calls': seq<(int, int)>)
    requires width > 0 && 0 <= i < length && |walls| == length * width && Store(g, walls)
    requires |init| == |g.lists| && CallsInRange(calls, |init|, true) && g.lists == EdgesAdded(init, calls, true, g.asSet)
    modifies g
    ensures Store(g, walls) && g.nVertices == old(g.nVertices)
    ensures CallsInRange(calls', |init|, true) && g.lists == EdgesAdded(init, calls', true, g.asSet)
    ensures forall v, u :: Called(calls', v, u) <==> Called(calls, v, u) || SweptRight(walls, width, i, width, v, u)
  {
    ghost var row := Row(walls, width, i);
    calls' := calls;
    var nearestWallPos := -1;
    var j := 0;
    while j < width
      invariant 0 <= j <= width && nearestWallPos == LastWall(row, j)
      invariant Store(g, walls) && g.nVertices == old(g.nVertices)
      invariant CallsInRange(calls', |init|, true) && g.lists == EdgesAdded(init, calls', true, g.asSet)
      invariant forall v, u :: Called(calls', v, u) <==> Called(calls, v, u) || SweptRight(walls, width, i, j, v, u)
    {
      CodeInRange(length, width, i, j);
      var pos := i * width + j;
      if walls[pos] {
        nearestWallPos := j;
      } else {
        calls' := AddEdgeLogged(g, pos, i * width + (nearestWallPos + j + 1) / 2, init, calls');
      }
      j := j + 1;
    }
  }

  /** The right-to-left sweep of row i. */
  method SweepLeft(g: AdjListsGraph, length: int, width: int, walls: seq<bool>, i: int,
                   ghost init: seq<seq<int>>, ghost calls: seq<(int, int)>)
    returns (ghost calls': seq<(int, int)>)
    requires width > 0 && 0 <= i < length && |walls| == length * width && Store(g, walls)
    requires |init| == |g.lists| && CallsInRange(calls, |init|, true) && g.lists == EdgesAdded(init, calls, true, g.asSet)
    modifies g
    ensures Store(g, walls) && g.nVertices == old(g.nVertices)
    ensures CallsInRange(calls', |init|, true) && g.lists == EdgesAdded(init, calls', true, g.asSet)
    ensures forall v, u :: Called(calls', v, u) <==> Called(calls, v, u) || SweptLeft(walls, width, i, 0, v, u)
  {
    ghost var row := Row(walls, width, i);
    calls' := calls;
    var nearestWallPos := width;
    var j := width - 1;
    while j >= 0
      invariant -1 <= j < width && nearestWallPos == NextWall(row, j)
      invariant Store(g, walls) && g.nVertices == old(g.nVertices)
      invariant CallsInRange(calls', |init|, true) && g.lists == EdgesAdded(init, calls', true, g.asSet)
      invariant forall v, u :: Called(calls', v, u) <==> Called(calls, v, u) || SweptLeft(walls, width, i, j + 1, v, u)
    {
      CodeInRange(length, width, i, j);
      var pos := i * width + j;
      if walls[pos] {
        nearestWallPos := j;
      } else {
        calls' := AddEdgeLogged(g, pos, i * width + (j + nearestWallPos) / 2, init, calls');
      }
      j := j - 1;
    }
  }

  /** Row i of column j extends the top-to-bottom calls by the one from its cell, when free. */
  lemma DownStep(walls: seq<bool>, length: int, width: int, j: int, i: int)
    requires 0 <= j < width && 0 <= i < length && |walls| == length * width
    ensures 0 <= i * width + j < |walls| && Column(walls, width, length, j)[i] == walls[i * width + j]
    ensures forall v, u :: SweptDown(walls, length, width, j, i + 1, v, u) <==>
      SweptDown(walls, length, width, j, i, v, u) ||
      (v == i * width + j && !walls[v] && u == j + width * MidBefore(Column(walls, width, length, j), i))
  {
    CodeInRange(length, width, i, j);
    DivModUnique(width, i, j);
    forall v, u | SweptDown(walls, length, width, j, i + 1, v, u) && !SweptDown(walls, length, width, j, i, v, u)
      ensures v == i * width + j
    {
      SameCell(width, v, i, j);
    }
  }

  /** Row i of column j extends the bottom-to-top calls by the one from its cell, when free. */
  lemma UpStep(walls: seq<bool>, length: int, width: int, j: int, i: int)
    requires 0 <= j < width && 0 <= i < length && |walls| == length * width
    ensures 0 <= i * width + j < |walls| && Column(walls, width, length, j)[i] == walls[i * width + j]
    ensures forall v, u :: SweptUp(walls, length, width, j, i, v, u) <==>
      SweptUp(walls, length, width, j, i + 1, v, u) ||
      (v == i * width + j && !walls[v] && u == j + width * MidAfter(Column(walls, width, length, j), i))
  {
    CodeInRange(length, width, i, j);
    DivModUnique(width, i, j);
    forall v, u | SweptUp(walls, length, width, j, i, v, u) && !SweptUp(walls, length, width, j, i + 1, v, u)
      ensures v == i * width + j
    {
      SameCell(width, v, i, j);
    }
  }

  /** The top-to-bottom sweep of column j. */
  method SweepDown(g: AdjListsGraph, length: int, width: int, walls: seq<bool>, j: int,
                   ghost init: seq<seq<int>>, ghost calls: seq<(int, int)>)
    returns (ghost calls': seq<(int, int)>)
    requires 0 <= j < width && length >= 0 && |walls| == length * width && Store(g, walls)
    requires |init| == |g.lists| && CallsInRange(calls, |init|, true) && g.lists == EdgesAdded(init, calls, true, g.asSet)
    modifies g
    ensures Store(g, walls) && g.nVertices == old(g.nVertices)
    ensures CallsInRange(calls', |init|, true) && g.lists == EdgesAdded(init, calls', true, g.asSet)
    ensures forall v, u :: Called(calls', v, u) <==> Called(calls, v, u) || SweptDown(walls, length, width, j, length, v, u)
  {
    ghost var col := Column(walls, width, length, j);
    calls' := calls;
    var nearestWallPos := -1;
    var i := 0;
    while i < length
      invariant 0 <= i <= length && nearestWallPos == LastWall(col, i)
      invariant Store(g, walls) && g.nVertices == old(g.nVertices)
      invariant CallsInRange(calls', |init|, true) && g.lists == EdgesAdded(init, calls', true, g.asSet)
      invariant forall v, u :: Called(calls', v, u) <==> Called(calls, v, u) || SweptDown(walls, length, width, j, i, v, u)
    {
      DownStep(walls, length, width, j, i);
      var pos := i * width + j;
      if walls[pos] {
        nearestWallPos := i;
      } else {
        calls' := AddEdgeLogged(g, pos, j + width * ((nearestWallPos + i + 1) / 2), init, calls');
      }
      i := i + 1;
    }
  }

  /** The bottom-to-top sweep of column j. */
  method SweepUp(g: AdjListsGraph, length: int, width: int, walls: seq<bool>, j: int,
                 ghost init: seq<seq<int>>, ghost calls: seq<(int, int)>)
    returns (ghost calls': seq<(int, int)>)
    requires 0 <= j < width && length >= 0 && |walls| == length * width && Store(g, walls)
    requires |init| == |g.lists| && CallsInRange(calls, |init|, true) && g.lists == EdgesAdded(init, calls, true, g.asSet)
    modifies g
    ensures Store(g, walls) && g.nVertices == old(g.nVertices)
    ensures CallsInRange(calls', |init|, true) && g.lists == EdgesAdded(init, calls', true, g.asSet)
    ensures forall v, u :: Called(calls', v, u) <==> Called(calls, v, u) || SweptUp(walls, length, width, j, 0, v, u)
  {
    ghost var col := Column(walls, width, length, j);
    calls' := calls;
    var nearestWallPos := length;
    var i := length - 1;
    while i >= 0
      invariant -1 <= i < length && nearestWallPos == NextWall(col, i)
      invariant Store(g, walls) && g.nVertices == old(g.nVertices)
      invariant CallsInRange(calls', |init|, true) && g.lists == EdgesAdded(init, calls', true, g.asSet)
      invariant forall v, u :: Called(calls', v, u) <==> Called(calls, v, u) || SweptUp(walls, length, width, j, i + 1, v, u)
    {
      UpStep(walls, length, width, j, i);
      var pos := i * width + j;
      if walls[pos] {
        nearestWallPos := i;
      } else {
        calls' := AddEdgeLogged(g, pos, j + width * ((nearestWallPos + i) / 2), init, calls');
      }
      i := i - 1;
    }
  }

  /** Row i's two sweeps together make exactly the row moves out of its cells. */
  lemma RowSwept(walls: seq<bool>, length: int, width: int, i: int, v: int, u: int)
    requires width > 0 && 0 <= i < length && |walls| == length * width
    ensures SweptRight(walls, width, i, width, v, u) || SweptLeft(walls, width, i, 0, v, u) <==>
      i * width <= v < i * width + width && RowMove(walls, width, v, u)
  {
    if i * width <= v < i * width + width {
      CodeInRange(length, width, i, v - i * width);
      DivModUnique(width, i, v - i * width);
    }
  }

  /** Column j's two sweeps together make exactly the column moves out of its cells. */
  lemma ColumnSwept(walls: seq<bool>, length: int, width: int, j: int, v: int, u: int)
    requires 0 <= j < width && |walls| == length * width
    ensures SweptDown(walls, length, width, j, length, v, u) || SweptUp(walls, length, width, j, 0, v, u) <==>
      0 <= v < |walls| && v % width == j && ColumnMove(walls, length, width, v, u)
  {
    if 0 <= v < |walls| {
      CellOfCode(length, width, v);
    }
  }

  /** The two sweeps of row i. */
  method AddRowMoves(g: AdjListsGraph, length: int, width: int, walls: seq<bool>, i: int,
                     ghost init: seq<seq<int>>, ghost calls: seq<(int, int)>)
    returns (ghost calls': seq<(int, int)>)
    requires width > 0 && 0 <= i < length && |walls| == length * width && Store(g, walls)
    requires |init| == |g.lists| && CallsInRange(calls, |init|, true) && g.lists == EdgesAdded(init, calls, true, g.asSet)
    modifies g
    ensures Store(g, walls) && g.nVertices == old(g.nVertices)
    ensures CallsInRange(calls', |init|, true) && g.lists == EdgesAdded(init, calls', true, g.asSet)
    ensures forall v, u :: (Called(calls', v, u) <==>
      Called(calls, v, u) || (i * width <= v < i * width + width && RowMove(walls, width, v, u)))
  {
    calls' := SweepRight(g, length, width, walls, i, init, calls);
    calls' := SweepLeft(g, length, width, walls, i, init, calls');
    forall v, u {
      RowSwept(walls, length, width, i, v, u);
    }
  }

  /** The two sweeps of column j. */
  method AddColumnMoves(g: AdjListsGraph, length: int, width: int, walls: seq<bool>, j: int,
                        ghost init: seq<seq<int>>, ghost calls: seq<(int, int)>)
    returns (ghost calls': seq<(int, int)>)
    requires 0 <= j < width && length >= 0 && |walls| == length * width && Store(g, walls)
    requires |init| == |g.lists| && CallsInRange(calls, |init|, true) && g.lists == EdgesAdded(init, calls, true, g.asSet)
    modifies g
    ensures Store(g, walls) && g.nVertices == old(g.nVertices)
    ensures CallsInRange(calls', |init|, true) && g.lists == EdgesAdded(init, calls', true, g.asSet)
    ensures forall v, u :: (Called(calls', v, u) <==>
      Called(calls, v, u) || (0 <= v < |walls| && v % width == j && ColumnMove(walls, length, width, v, u)))
  {
    calls' := SweepDown(g, length, width, walls, j, init, calls);
    calls' := SweepUp(g, length, width, walls, j, init, calls');
    forall v, u {
      ColumnSwept(walls, length, width, j, v, u);
    }
  }

  /** The calls so far are exactly the row moves out of the cells below k. */
  ghost predicate RowsLogged(walls: seq<bool>, width: int, calls: seq<(int, int)>, k: int) {
    forall v, u :: Called(calls, v, u) <==> 0 <= v < k && RowMove(walls, width, v, u)
  }

  /** The calls so far are all row moves and the column moves out of the columns below k. */
  ghost predicate ColumnsLogged(walls: seq<bool>, length: int, width: int, calls: seq<(int, int)>, k: int) {
    forall v, u :: Called(calls, v, u) <==>
      (0 <= v < |walls| && RowMove(walls, width, v, u)) || (width > 0 && 0 <= v < |walls| && v % width < k && ColumnMove(walls, length, width, v, u))
  }

  /** The first pair of sweeps, row by row. */
  method AddAllRowMoves(g: AdjListsGraph, length: int, width: int, walls: seq<bool>, ghost init: seq<seq<int>>)
    returns (ghost calls: seq<(int, int)>)
    requires width > 0 && length >= 0 && |walls| == length * width && Store(g, walls) && g.lists == init
    modifies g
    ensures Store(g, walls) && g.nVertices == old(g.nVertices)
    ensures CallsInRange(calls, |init|, true) && g.lists == EdgesAdded(init, calls, true, g.asSet)
    ensures RowsLogged(walls, width, calls, |walls|)
  {
    calls := [];
    ghost var done := 0;
    var i := 0;
    while i < length
      invariant 0 <= i <= length && done == i * width
      invariant Store(g, walls) && g.nVertices == old(g.nVertices)
      invariant CallsInRange(calls, |init|, true) && g.lists == EdgesAdded(init, calls, true, g.asSet)
      invariant RowsLogged(walls, width, calls, done)
    {
      calls := AddRowMoves(g, length, width, walls, i, init, calls);
      assert done + width == (i + 1) * width;
      done := done + width;
      i := i + 1;
    }
  }

  /** The second pair of sweeps, column by column. */
  method AddAllColumnMoves(g: AdjListsGraph, length: int, width: int, walls: seq<bool>,
                           ghost init: seq<seq<int>>, ghost calls: seq<(int, int)>)
    returns (ghost calls': seq<(int, int)>)
    requires width > 0 && length >= 0 && |walls| == length * width && Store(g, walls)
    requires |init| == |g.lists| && CallsInRange(calls, |init|, true) && g.lists == EdgesAdded(init, calls, true, g.asSet)
    requires RowsLogged(walls, width, calls, |walls|)
    modifies g
    ensures Store(g, walls) && g.nVertices == old(g.nVertices)
    ensures CallsInRange(calls', |init|, true) && g.lists == EdgesAdded(init, calls', true, g.asSet)
    ensures forall v, u :: Called(calls', v, u) <==> 0 <= v < |walls| && RaceMove(walls, length, width, v, u)
  {
    calls' := calls;
    var j := 0;
    while j < width
      invariant 0 <= j <= width
      invariant Store(g, walls) && g.nVertices == old(g.nVertices)
      invariant CallsInRange(calls', |init|, true) && g.lists == EdgesAdded(init, calls', true, g.asSet)
      invariant ColumnsLogged(walls, length, width, calls', j)
    {
      calls' := AddColumnMoves(g, length, width, walls, j, init, calls');
      j := j + 1;
    }
  }

  /** The store generate_moves_graph returns: each cell's list holds exactly its moves, once each. */
  ghost predicate IsMovesGraph(walls: seq<bool>, length: int, width: int, g: AdjLists) {
    && |g| == |walls| + 1
    && (forall v, u :: 0 <= v < |g| ==> (u in g[v] <==> RaceMove(walls, length, width, v, u)))
    && (forall v :: 0 <= v < |g| ==> NoDup(g[v]))
  }

  /** generate_moves_graph(length, width, map): the four sweeps into a directed set store. */
  method GenerateMovesGraph(length: int, width: int, walls: seq<bool>) returns (g: AdjListsGraph)
    requires width > 0 && length >= 0 && |walls| == length * width
    ensures fresh(g) && g.Valid() && g.directed && g.asSet && g.nVertices == length * width
    ensures IsMovesGraph(walls, length, width, g.lists)
  {
    MulMono(0, length, width);
    g := new AdjListsGraph(length * width, true, true, true);
    ghost var init := g.lists;
    ghost var calls := AddAllRowMoves(g, length, width, walls, init);
    calls := AddAllColumnMoves(g, length, width, walls, init, calls);
    forall v, u | 0 <= v < |g.lists| ensures u in g.lists[v] <==> RaceMove(walls, length, width, v, u) {
      EdgesAddedMembership(init, calls, true, g.asSet, v, u);
    }
  }

  /** Every stored neighbour of the moves graph is a cell. */
  lemma MovesGraphValid(walls: seq<bool>, length: int, width: int, g: AdjLists)
    requires |walls| == length * width && IsMovesGraph(walls, length, width, g)
    ensures ValidGraph(g)
  {
    forall v, k | 0 <= v < |g| && 0 <= k < |g[v]| ensures 0 <= g[v][k] < |g| {
      assert g[v][k] in g[v];
      MoveTargetsFree(walls, length, width, v, g[v][k]);
    }
  }

  /** A sequence of moves from s to t over the map. */
  ghost predicate IsMoveSequence(walls: seq<bool>, length: int, width: int, p: seq<int>, s: int, t: int) {
    |p| >= 1 && p[0] == s && p[|p| - 1] == t && 0 <= s < |walls| &&
    forall k :: 0 <= k < |p| - 1 ==> RaceMove(walls, length, width, p[k], p[k + 1])
  }

  /** The walks of the moves graph from a cell are exactly the move sequences. */
  lemma MoveWalks(walls: seq<bool>, length: int, width: int, g: AdjLists, p: seq<int>, s: int, t: int)
    requires |walls| == length * width && IsMovesGraph(walls, length, width, g) && 0 <= s < |walls|
    ensures IsWalkFromTo(g, p, s, t) <==> IsMoveSequence(walls, length, width, p, s, t)
  {
    if IsMoveSequence(walls, length, width, p, s, t) {
      forall k | 0 <= k < |p| ensures 0 <= p[k] < |g| {
        if k > 0 {
          MoveTargetsFree(walls, length, width, p[k - 1], p[k]);
        }
      }
      forall k | 0 <= k < |p| - 1 ensures p[k + 1] in g[p[k]] {
        assert RaceMove(walls, length, width, p[k], p[k + 1]);
      }
    }
    if IsWalkFromTo(g, p, s, t) {
      forall k | 0 <= k < |p| - 1 ensures RaceMove(walls, length, width, p[k], p[k + 1]) {
        assert p[k + 1] in g[p[k]];
      }
    }
  }

  /**
   * main between input and output: the moves graph, a shortest path from
   * start to finish, and its size minus one, which is -1 when finish cannot
   * be reached.
   */
  method MinMoves(length: int, width: int, walls: seq<bool>, start: int, finish: int) returns (moves: int)
    requires width > 0 && length >= 0 && |walls| == length * width
    requires 0 <= start < |walls| && 0 <= finish < |walls|
    ensures moves == -1 <==> !exists p :: IsMoveSequence(walls, length, width, p, start, finish)
    ensures moves >= 0 ==> exists p :: IsMoveSequence(walls, length, width, p, start, finish) && |p| == moves + 1
    ensures forall p :: IsMoveSequence(walls, length, width, p, start, finish) ==> moves <= |p| - 1
  {
    var g := GenerateMovesGraph(length, width, walls);
    var lists := g.lists;
    MovesGraphValid(walls, length, width, lists);
    Bfs.AllVerticesClosed(lists);
    var path := Bfs.FindShortestPath(lists, start, finish, -1, Range(|lists|));
    moves := |path| - 1;
    forall p ensures IsWalkFromTo(lists, p, start, finish) <==> IsMoveSequence(walls, length, width, p, start, finish) {
      MoveWalks(walls, length, width, lists, p, start, finish);
    }
  }
}
