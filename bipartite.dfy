/**
 * The bipartiteness check (B_check_bipart): a depth-first search colours
 * each vertex and the opposite colour on its unvisited neighbours, failing
 * on a visited neighbour of the same colour; is_bipartite runs it from
 * every vertex 1 .. n with a fresh visited vector and the colours kept.
 */
module Bipartite {
  import opened Graphs

  /** col gives the two ends of every stored edge different colours. */
  ghost predicate ProperColouring(g: AdjLists, col: seq<bool>) {
    |col| == |g| && forall v, u :: 0 <= v < |g| && u in g[v] && 0 <= u < |g| ==> col[v] != col[u]
  }

  ghost predicate TwoColourable(g: AdjLists) {
    exists col :: ProperColouring(g, col)
  }

  /** There is a walk from r to w whose number of edges is even exactly when c is true (r's colour). */
  ghost predicate ColourWitness(g: AdjLists, r: int, w: int, c: bool) {
    exists p :: IsWalkFromTo(g, p, r, w) && (c <==> |p| % 2 == 1)
  }

  /** Every visited vertex's colour is witnessed by a walk from the root r. */
  ghost predicate Witnessed(g: AdjLists, r: int, visited: seq<bool>, colors: seq<bool>) {
    |visited| == |g| && |colors| == |g| &&
    forall w :: 0 <= w < |g| && visited[w] ==> ColourWitness(g, r, w, colors[w])
  }

  /** Along a walk a proper colouring alternates: the ends agree exactly when the walk has an even number of edges. */
  lemma {:induction false} WalkAlternates(g: AdjLists, col: seq<bool>, p: seq<int>)
    requires ProperColouring(g, col) && IsWalk(g, p)
    ensures col[p[|p| - 1]] == col[p[0]] <==> |p| % 2 == 1
    decreases |p|
  {
    if |p| > 1 {
      var q := p[..|p| - 1];
      assert IsWalk(g, q);
      WalkAlternates(g, col, q);
      assert p[|p| - 1] in g[q[|q| - 1]];
    }
  }

  /** Two same-coloured witnessed ends of an edge close an odd walk: no proper colouring exists. */
  lemma OddConflict(g: AdjLists, r: int, w: int, u: int, c: bool)
    requires ValidGraph(g) && 0 <= w < |g| && u in g[w]
    requires ColourWitness(g, r, w, c) && ColourWitness(g, r, u, c)
    ensures !TwoColourable(g)
  {
    var pw :| IsWalkFromTo(g, pw, r, w) && (c <==> |pw| % 2 == 1);
    var pu :| IsWalkFromTo(g, pu, r, u) && (c <==> |pu| % 2 == 1);
    var q := pw + [u];
    assert IsWalkFromTo(g, q, r, u) by {
      assert forall i :: 0 <= i < |pw| ==> q[i] == pw[i];
    }
    if col :| ProperColouring(g, col) {
      WalkAlternates(g, col, q);
      WalkAlternates(g, col, pu);
    }
  }

  /** A walk to v extended by an edge witnesses the opposite colour for the neighbour. */
  lemma ExtendWitness(g: AdjLists, r: int, v: int, color: bool, u: int)
    requires ValidGraph(g) && 0 <= v < |g| && u in g[v] && ColourWitness(g, r, v, color)
    ensures ColourWitness(g, r, u, !color)
  {
    var p :| IsWalkFromTo(g, p, r, v) && (color <==> |p| % 2 == 1);
    var q := p + [u];
    assert IsWalkFromTo(g, q, r, u) by {
      assert forall i :: 0 <= i < |p| ==> q[i] == p[i];
      var k :| 0 <= k < |g[v]| && g[v][k] == u;
    }
  }

  /** Visited marks are never removed, and the colours of visited vertices never change. */
  ghost predicate Grown(visited0: seq<bool>, colors0: seq<bool>, visited: seq<bool>, colors: seq<bool>) {
    |visited0| == |visited| && |colors0| == |colors| == |visited| &&
    (forall w :: 0 <= w < |visited| && visited0[w] ==> visited[w] && colors[w] == colors0[w]) &&
    (forall w :: 0 <= w < |visited| && !visited[w] ==> colors[w] == colors0[w])
  }

  /** Every newly visited vertex other than skip has all its neighbours visited, in the other colour. */
  ghost predicate NewChecked(g: AdjLists, visited0: seq<bool>, visited: seq<bool>, colors: seq<bool>, skip: int) {
    |visited0| == |g| && |visited| == |g| && |colors| == |g| &&
    forall w, u :: 0 <= w < |g| && visited[w] && !visited0[w] && w != skip && u in g[w] && 0 <= u < |g| ==>
      visited[u] && colors[u] != colors[w]
  }

  /** Some visited edge has both ends of one colour. */
  ghost predicate Conflict(g: AdjLists, visited: seq<bool>, colors: seq<bool>) {
    |visited| == |g| && |colors| == |g| &&
    exists w, u :: 0 <= w < |g| && 0 <= u < |g| && u in g[w] && visited[w] && visited[u] && colors[w] == colors[u]
  }

  /**
   * The state of is_bipartite_impl_'s scan of v's list after k neighbours:
   * v is coloured, the first k neighbours are visited in the other colour,
   * and every other vertex visited since the call has its neighbourhood
   * visited in the other colour.
   */
  ghost predicate Scanned(g: AdjLists, r: int, v: int, color: bool, k: int,
                          visited0: seq<bool>, colors0: seq<bool>, visited: seq<bool>, colors: seq<bool>)
    requires 0 <= v < |g|
  {
    0 <= k <= |g[v]| && |visited| == |g| && |colors| == |g| && visited[v] && colors[v] == color &&
    Witnessed(g, r, visited, colors) && Grown(visited0, colors0, visited, colors) &&
    (forall i :: 0 <= i < k && 0 <= g[v][i] < |g| ==> visited[g[v][i]] && colors[g[v][i]] != color) &&
    NewChecked(g, visited0, visited, colors, v)
  }

  /** A recursive search from an unvisited neighbour that succeeded advances the scan by one. */
  lemma ScannedAfterChild(g: AdjLists, r: int, v: int, color: bool, k: int,
                          visited0: seq<bool>, colors0: seq<bool>, visited1: seq<bool>, colors1: seq<bool>,
                          visited: seq<bool>, colors: seq<bool>)
    requires ValidGraph(g) && 0 <= v < |g| && 0 <= k < |g[v]|
    requires Scanned(g, r, v, color, k, visited0, colors0, visited1, colors1)
    requires Witnessed(g, r, visited, colors) && Grown(visited1, colors1, visited, colors)
    requires !visited1[g[v][k]] && visited[g[v][k]] && colors[g[v][k]] == !color
    requires NewChecked(g, visited1, visited, colors, -1)
    ensures Scanned(g, r, v, color, k + 1, visited0, colors0, visited, colors)
  {
  }

  /** A neighbour already visited in the other colour advances the scan by one. */
  lemma ScannedVisited(g: AdjLists, r: int, v: int, color: bool, k: int,
                       visited0: seq<bool>, colors0: seq<bool>, visited: seq<bool>, colors: seq<bool>)
    requires ValidGraph(g) && 0 <= v < |g| && 0 <= k < |g[v]|
    requires Scanned(g, r, v, color, k, visited0, colors0, visited, colors)
    requires visited[g[v][k]] && colors[g[v][k]] != color
    ensures Scanned(g, r, v, color, k + 1, visited0, colors0, visited, colors)
  {
  }

  /** A finished scan leaves every newly visited vertex, v included, checked. */
  lemma ScannedAll(g: AdjLists, r: int, v: int, color: bool,
                   visited0: seq<bool>, colors0: seq<bool>, visited: seq<bool>, colors: seq<bool>)
    requires ValidGraph(g) && 0 <= v < |g| && |visited0| == |g|
    requires Scanned(g, r, v, color, |g[v]|, visited0, colors0, visited, colors)
    ensures NewChecked(g, visited0, visited, colors, -1)
  {
    forall u | u in g[v] && 0 <= u < |g| ensures visited[u] && colors[u] != colors[v] {
      var i :| 0 <= i < |g[v]| && g[v][i] == u;
    }
  }

  /**
   * is_bipartite_impl_(g, v, color, visited, colors): colour v, recurse into
   * unvisited neighbours with the other colour, fail on a visited neighbour
   * of v's colour.  On success every newly visited vertex has its whole
   * neighbourhood visited in the other colour; on failure a conflict among
   * the visited vertices is left behind.
   */
  method ColourFrom(g: AdjLists, v: int, color: bool, visited: array<bool>, colors: array<bool>, ghost r: int)
    returns (ok: bool)
    requires ValidGraph(g) && visited != colors && visited.Length == |g| && colors.Length == |g|
    requires 0 <= v < |g| && !visited[v] && ColourWitness(g, r, v, color)
    requires Witnessed(g, r, visited[..], colors[..])
    modifies visited, colors
    ensures Witnessed(g, r, visited[..], colors[..])
    ensures Grown(old(visited[..]), old(colors[..]), visited[..], colors[..])
    ensures visited[v] && colors[v] == color
    ensures ok ==> NewChecked(g, old(visited[..]), visited[..], colors[..], -1)
    ensures !ok ==> Conflict(g, visited[..], colors[..])
    decreases |IndicesWith(visited[..], false)|
  {
    ghost var visited0, colors0 := visited[..], colors[..];
    visited[v] := true;
    colors[v] := color;
    assert Scanned(g, r, v, color, 0, visited0, colors0, visited[..], colors[..]);
    var k := 0;
    while k < |g[v]|
      invariant Scanned(g, r, v, color, k, visited0, colors0, visited[..], colors[..])
    {
      var u := g[v][k];
      if !visited[u] {
        ExtendWitness(g, r, v, color, u);
        FewerWith(visited0, visited[..], false, v);
        ghost var visited1, colors1 := visited[..], colors[..];
        var fine := ColourFrom(g, u, !color, visited, colors, r);
        if !fine {
          return false;
        }
        ScannedAfterChild(g, r, v, color, k, visited0, colors0, visited1, colors1, visited[..], colors[..]);
      } else if colors[u] == color {
        assert u in g[v];
        return false;
      } else {
        ScannedVisited(g, r, v, color, k, visited0, colors0, visited[..], colors[..]);
      }
      k := k + 1;
    }
    ScannedAll(g, r, v, color, visited0, colors0, visited[..], colors[..]);
    return true;
  }

  /** done is a set of vertices closed under edges on which colors is proper. */
  ghost predicate ProperOn(g: AdjLists, done: set<int>, colors: seq<bool>) {
    |colors| == |g| &&
    (forall a :: a in done ==> 0 <= a < |g|) &&
    (forall a, c :: a in done && c in g[a] ==> c in done && 0 <= c < |g| && colors[c] != colors[a])
  }

  /**
   * A successful search from scratch leaves its visited set closed and
   * properly coloured, and, the graph being undirected, touches no
   * neighbour of the vertices outside it: done grows by the visited set.
   */
  lemma SearchExtendsDone(g: AdjLists, done: set<int>, visited: seq<bool>, colors0: seq<bool>, colors: seq<bool>, reached: set<int>)
    requires ValidGraph(g) && Symmetric(g) && ProperOn(g, done, colors0)
    requires |visited| == |g| && reached == set w | 0 <= w < |g| && visited[w]
    requires Grown(seq(|g|, _ => false), colors0, visited, colors)
    requires NewChecked(g, seq(|g|, _ => false), visited, colors, -1)
    ensures ProperOn(g, done + reached, colors)
  {
    forall a, c | a in done + reached && c in g[a] ensures c in done + reached && 0 <= c < |g| && colors[c] != colors[a] {
      var k :| 0 <= k < |g[a]| && g[a][k] == c;
      if a !in reached {
        assert a in g[c];
      }
    }
  }

  /**
   * One round of is_bipartite's loop: visited reset to all false, then the
   * search from v with the kept colours.  On success done grows by the
   * visited vertices and stays properly coloured; on failure there is no
   * proper colouring.
   */
  method SearchRound(g: AdjLists, v: int, visited: array<bool>, colors: array<bool>, ghost done: set<int>)
    returns (ok: bool, ghost done': set<int>)
    requires ValidGraph(g) && Symmetric(g) && 0 <= v < |g|
    requires visited != colors && visited.Length == |g| && colors.Length == |g|
    requires ProperOn(g, done, colors[..])
    modifies visited, colors
    ensures ok ==> ProperOn(g, done', colors[..]) && done <= done' && v in done'
    ensures !ok ==> !TwoColourable(g)
  {
    forall i | 0 <= i < visited.Length {
      visited[i] := false;
    }
    assert visited[..] == seq(|g|, _ => false);
    ghost var colors0 := colors[..];
    assert ColourWitness(g, v, v, true) by {
      assert IsWalkFromTo(g, [v], v, v);
    }
    ok := ColourFrom(g, v, true, visited, colors, v);
    if !ok {
      var w, u :| 0 <= w < |g| && 0 <= u < |g| && u in g[w] && visited[w] && visited[u] && colors[w] == colors[u];
      OddConflict(g, v, w, u, colors[w]);
      return false, done;
    }
    ghost var reached := set w | 0 <= w < |g| && visited[w];
    assert v in reached;
    SearchExtendsDone(g, done, visited[..], colors0, colors[..], reached);
    done' := done + reached;
  }

  /**
   * is_bipartite(g) for the undirected 1-indexed store: a search from each
   * of 1 .. n in turn with visited reset; true when none of them fails.
   * It is true exactly when the graph has a proper two-colouring.
   */
  method IsBipartite(g: AdjLists) returns (b: bool)
    requires ValidGraph(g) && Symmetric(g) && |g| >= 1 && g[0] == []
    ensures b <==> TwoColourable(g)
  {
    var visited := new bool[|g|](_ => false);
    var colors := new bool[|g|](_ => false);
    ghost var done: set<int> := {};
    var v := 1;
    while v < |g|
      invariant 1 <= v <= |g| && visited != colors && visited.Length == |g| && colors.Length == |g|
      invariant forall w :: 1 <= w < v ==> w in done
      invariant ProperOn(g, done, colors[..])
    {
      var ok;
      ok, done := SearchRound(g, v, visited, colors, done);
      if !ok {
        return false;
      }
      v := v + 1;
    }
    assert ProperColouring(g, colors[..]);
    return true;
  }
}
