/**
 * The four-digit puzzle (D_4_digits): numbers 1111..9999 are vertices of a
 * directed graph whose edges add 1 to the first digit, subtract 1 from the
 * last digit, or rotate the digits left or right; a shortest path between two
 * numbers is found by breadth-first search.
 */
module FourDigits {
  import opened Graphs
  import opened GraphStore
  import Bfs

  /** What is_correct accepts: its loop looks at the last digit only. */
  ghost predicate Correct(n: int) {
    1111 <= n <= 9999 && n % 10 != 0
  }

  /** All four decimal digits of n are non-zero (the numbers the puzzle is about). */
  ghost predicate ZeroFree(n: int) {
    1000 <= n <= 9999 && n % 10 != 0 && (n / 10) % 10 != 0 && (n / 100) % 10 != 0
  }

  /** is_correct(number): range check, then a three-round loop that tests `number % 10`. */
  method IsCorrect(number: int) returns (ok: bool)
    ensures ok <==> Correct(number)
  {
    if number < 1111 || number > 9999 {
      return false;
    }
    var b := 10;
    while b < 10000
      invariant b >= 10
      invariant b > 10 ==> number % 10 != 0
      decreases 10000 - b
    {
      if number % 10 == 0 {
        return false;
      }
      b := b * 10;
    }
    return true;
  }

  /** shift_left: the first digit moves to the end. */
  function ShiftLeft(n: int): int {
    (n % 1000) * 10 + n / 1000
  }

  /** shift_right: the last digit moves to the front. */
  function ShiftRight(n: int): int {
    (n % 10) * 1000 + n / 10
  }

  /** The number with decimal digits a b c d. */
  function FromDigits(a: int, b: int, c: int, d: int): int {
    1000 * a + 100 * b + 10 * c + d
  }

  /** The quotients and remainders the program takes of a four-digit number, read off its digits. */
  lemma OfDigits(a: int, b: int, c: int, d: int)
    requires 0 <= a <= 9 && 0 <= b <= 9 && 0 <= c <= 9 && 0 <= d <= 9
    ensures var n := FromDigits(a, b, c, d);
      && n % 10 == d && n / 10 == 100 * a + 10 * b + c && (n / 10) % 10 == c
      && n / 100 == 10 * a + b && (n / 100) % 10 == b
      && n / 1000 == a && n % 1000 == 100 * b + 10 * c + d
  {
  }

  /** Every number in [0, 9999] has four decimal digits. */
  lemma ToDigits(n: int) returns (a: int, b: int, c: int, d: int)
    requires 0 <= n <= 9999
    ensures 0 <= a <= 9 && 0 <= b <= 9 && 0 <= c <= 9 && 0 <= d <= 9
    ensures n == FromDigits(a, b, c, d)
  {
    var q1 := n / 10;
    d := n % 10;
    assert n == 10 * q1 + d && 0 <= q1 <= 999;
    var q2 := q1 / 10;
    c := q1 % 10;
    assert q1 == 10 * q2 + c && 0 <= q2 <= 99;
    a := q2 / 10;
    b := q2 % 10;
    assert q2 == 10 * a + b && 0 <= a <= 9;
  }

  /** The two rotations keep [0, 9999] and undo each other there. */
  lemma ShiftsRoundTrip(n: int)
    requires 0 <= n <= 9999
    ensures 0 <= ShiftLeft(n) <= 9999 && 0 <= ShiftRight(n) <= 9999
    ensures ShiftRight(ShiftLeft(n)) == n && ShiftLeft(ShiftRight(n)) == n
  {
    var a, b, c, d := ToDigits(n);
    OfDigits(a, b, c, d);
    assert ShiftLeft(n) == FromDigits(b, c, d, a);
    assert ShiftRight(n) == FromDigits(d, a, b, c);
    OfDigits(b, c, d, a);
    OfDigits(d, a, b, c);
  }

  /** The edges fill_graph adds out of v. */
  ghost predicate DigitEdge(v: int, u: int) {
    Correct(v) && ((v < 9111 && u == v + 1000) || (v % 10 > 1 && u == v - 1) || u == ShiftLeft(v) || u == ShiftRight(v))
  }

  /** The store fill_graph leaves: list v holds exactly the targets of DigitEdge(v, _). */
  ghost predicate IsDigitsGraph(g: AdjLists) {
    |g| == 10000 && forall v, u :: 0 <= v < 10000 ==> (u in g[v] <==> DigitEdge(v, u))
  }

  /** The add_edge calls fill_graph makes for one correct number i, in its order. */
  function DigitCalls(i: int): seq<(int, int)> {
    (if i < 9111 then [(i, i + 1000)] else []) + (if i % 10 > 1 then [(i, i - 1)] else [])
      + [(i, ShiftLeft(i)), (i, ShiftRight(i))]
  }

  /** The calls made for a correct i are exactly the DigitEdge pairs out of i. */
  lemma DigitCallsAreEdges(i: int, v: int, u: int)
    requires Correct(i)
    ensures Called(DigitCalls(i), v, u) <==> v == i && DigitEdge(v, u)
  {
    var c := DigitCalls(i);
    if v == i && DigitEdge(v, u) {
      var k := if i < 9111 && u == i + 1000 then 0
        else if i % 10 > 1 && u == i - 1 then (if i < 9111 then 1 else 0)
        else if u == ShiftLeft(i) then |c| - 2 else |c| - 1;
      assert c[k] == (v, u);
    }
  }

  /** The body of fill_graph's loop for a correct i: its add_edge calls, logged. */
  method AddDigitEdges(g: AdjListsGraph, i: int, ghost init: seq<seq<int>>, ghost calls: seq<(int, int)>)
    returns (ghost calls': seq<(int, int)>)
    requires Correct(i) && g.Valid() && g.directed && g.asSet && |g.lists| == 10000
    requires CallsInRange(calls, 10000, true) && |init| == 10000 && g.lists == EdgesAdded(init, calls, true, true)
    modifies g
    ensures g.Valid() && g.nVertices == old(g.nVertices)
    ensures CallsInRange(calls', 10000, true) && g.lists == EdgesAdded(init, calls', true, true)
    ensures forall v, u :: Called(calls', v, u) <==> Called(calls, v, u) || (v == i && DigitEdge(v, u))
  {
    calls' := calls;
    if i < 9111 {
      calls' := AddEdgeLogged(g, i, i + 1000, init, calls');
    }
    if i % 10 > 1 {
      calls' := AddEdgeLogged(g, i, i - 1, init, calls');
    }
    calls' := AddEdgeLogged(g, i, ShiftLeft(i), init, calls');
    calls' := AddEdgeLogged(g, i, ShiftRight(i), init, calls');
  }

  /**
   * fill_graph: a directed set-list store for 9999 numbers (10000 lists);
   * every correct i gets i+1000 when i < 9111, i-1 when its last digit
   * exceeds 1, and both rotations.
   */
  method FillGraph() returns (g: AdjListsGraph)
    ensures fresh(g) && g.Valid() && g.directed && g.asSet && g.nVertices == 9999
    ensures IsDigitsGraph(g.lists)
  {
    g := new AdjListsGraph(9999, true, true, true);
    ghost var init := g.lists;
    ghost var calls: seq<(int, int)> := [];
    var i := 1111;
    while i < 10000
      invariant 1111 <= i <= 10000
      invariant g.Valid() && g.directed && g.asSet && g.nVertices == 9999 && |g.lists| == 10000
      invariant CallsInRange(calls, 10000, true) && g.lists == EdgesAdded(init, calls, true, true)
      invariant forall v, u :: Called(calls, v, u) <==> v < i && DigitEdge(v, u)
    {
      var ok := IsCorrect(i);
      if ok {
        ghost var before := calls;
        calls := AddDigitEdges(g, i, init, calls);
        forall v, u ensures Called(calls, v, u) <==> v < i + 1 && DigitEdge(v, u) {
          CalledAppend(before, DigitCalls(i), v, u);
          DigitCallsAreEdges(i, v, u);
        }
      }
      i := i + 1;
    }
    forall v, u | 0 <= v < 10000 ensures u in g.lists[v] <==> DigitEdge(v, u) {
      EdgesAddedMembership(init, calls, true, true, v, u);
    }
  }

  /** The decrement edge never takes the last digit below 1. */
  lemma DecrementKeepsLastDigit(v: int)
    requires v >= 0 && v % 10 > 1
    ensures (v - 1) % 10 == v % 10 - 1 >= 1
  {
  }

  /** For a zero-free number, `i < 9111` means "first digit below 9", and i + 1000 stays zero-free. */
  lemma ZeroFreeIncrement(i: int)
    requires ZeroFree(i)
    ensures i < 9111 <==> i / 1000 < 9
    ensures i < 9111 ==> ZeroFree(i + 1000)
  {
  }

  /** For correct numbers 9001..9110 the increment target is not one of the store's 10000 ids. */
  lemma IncrementLeavesStore(i: int)
    requires Correct(i) && 9000 < i < 9111
    ensures DigitEdge(i, i + 1000) && i + 1000 >= 10000
  {
  }

  /** Every edge out of a zero-free number goes to a zero-free number. */
  lemma ZeroFreeEdge(v: int, u: int)
    requires ZeroFree(v) && DigitEdge(v, u)
    ensures ZeroFree(u)
  {
    var a, b, c, d := ToDigits(v);
    OfDigits(a, b, c, d);
    if v < 9111 && u == v + 1000 {
      OfDigits(a + 1, b, c, d);
      assert u == FromDigits(a + 1, b, c, d);
    } else if v % 10 > 1 && u == v - 1 {
      OfDigits(a, b, c, d - 1);
      assert u == FromDigits(a, b, c, d - 1);
    } else if u == ShiftLeft(v) {
      OfDigits(b, c, d, a);
      assert u == FromDigits(b, c, d, a);
    } else {
      OfDigits(d, a, b, c);
      assert u == FromDigits(d, a, b, c);
    }
  }

  /** The zero-free numbers as a set of vertices. */
  ghost function ZeroFreeSet(): (s: set<int>)
    ensures forall n :: n in s <==> ZeroFree(n)
  {
    set n | n in Range(10000) && ZeroFree(n)
  }

  /** In the digits graph the zero-free numbers are closed, so a search from one stays in range. */
  lemma ZeroFreeClosed(g: AdjLists)
    requires IsDigitsGraph(g)
    ensures Bfs.Closed(g, ZeroFreeSet())
  {
    forall v, u | v in ZeroFreeSet() && u in g[v] ensures u in ZeroFreeSet() {
      ZeroFreeEdge(v, u);
    }
  }

  /** p runs from s to t along DigitEdge. */
  ghost predicate IsDigitWalk(p: seq<int>, s: int, t: int) {
    |p| >= 1 && p[0] == s && p[|p| - 1] == t && forall i :: 0 <= i < |p| - 1 ==> DigitEdge(p[i], p[i + 1])
  }

  /** A DigitEdge walk from a zero-free number is a walk of the digits graph. */
  lemma {:induction false} DigitWalkIsWalk(g: AdjLists, p: seq<int>, s: int, t: int)
    requires IsDigitsGraph(g) && ZeroFree(s) && IsDigitWalk(p, s, t)
    ensures IsWalkFromTo(g, p, s, t)
    decreases |p|
  {
    if |p| > 1 {
      var q := p[..|p| - 1];
      assert IsDigitWalk(q, s, q[|q| - 1]);
      DigitWalkIsWalk(g, q, s, q[|q| - 1]);
      ZeroFreeOnWalk(p, s, t, |p| - 2);
      ZeroFreeEdge(p[|p| - 2], p[|p| - 1]);
    }
  }

  /** Every vertex of a DigitEdge walk from a zero-free number is zero-free. */
  lemma {:induction false} ZeroFreeOnWalk(p: seq<int>, s: int, t: int, k: int)
    requires ZeroFree(s) && IsDigitWalk(p, s, t) && 0 <= k < |p|
    ensures ZeroFree(p[k])
    decreases k
  {
    if k > 0 {
      ZeroFreeOnWalk(p, s, t, k - 1);
      ZeroFreeEdge(p[k - 1], p[k]);
    }
  }

  /** A walk of the digits graph follows DigitEdge. */
  lemma WalkIsDigitWalk(g: AdjLists, p: seq<int>, s: int, t: int)
    requires IsDigitsGraph(g) && IsWalkFromTo(g, p, s, t)
    ensures IsDigitWalk(p, s, t)
  {
    forall i | 0 <= i < |p| - 1 ensures DigitEdge(p[i], p[i + 1]) {
      assert p[i + 1] in g[p[i]];
    }
  }

  /**
   * The program between input and output: fill_graph, then
   * find_shortest_path from start to finish.  The result is a shortest
   * DigitEdge walk, or empty when finish cannot be reached.
   */
  method FindNumberPath(start: int, finish: int) returns (path: seq<int>)
    requires ZeroFree(start) && 0 <= finish < 10000
    ensures path == [] <==> !exists p :: IsDigitWalk(p, start, finish)
    ensures path != [] ==> IsDigitWalk(path, start, finish)
    ensures forall p :: IsDigitWalk(p, start, finish) ==> |path| <= |p|
  {
    var g := FillGraph();
    ZeroFreeClosed(g.lists);
    path := Bfs.FindShortestPath(g.lists, start, finish, -1, ZeroFreeSet());
    forall p | IsDigitWalk(p, start, finish) ensures IsWalkFromTo(g.lists, p, start, finish) {
      DigitWalkIsWalk(g.lists, p, start, finish);
    }
    if path != [] {
      WalkIsDigitWalk(g.lists, path, start, finish);
    }
  }
}
