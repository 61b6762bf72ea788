/**
 * A decodable instance on which find_dependencies_or_answer_dfs_, as
 * written, loses the answer it found, and get_decode_permutation then
 * returns a permutation that is not the code's: a triangle 0-1-2 with a
 * pendant vertex 3 on 0, the edges given in the order (0,1), (1,2), (2,0),
 * (0,3), hidden values 2, 1, 0, 3, and init 0.
 */
module DecodingLost {
  import opened Graphs
  import opened GraphDecoding
  import opened EdgeGraph

  /** Ids of the half-edges out of each vertex, their heads and codes. */
  const lostAdj: seq<seq<int>> := [[0, 5, 6], [1, 2], [3, 4], [7]]
  const lostEnds: seq<int> := [1, 0, 2, 1, 0, 2, 3, 0]
  const lostCodes: seq<int> := [3, 3, 1, 1, 2, 2, 5, 5]
  /** The permutation that was encoded: every code is the sum of its ends' values. */
  const lostSol: seq<int> := [2, 1, 0, 3]
  /** deps as get_decode_permutation allocates it, and as the search leaves it. */
  const lostDeps0: seq<Dependency> := [Dependency(false, 0), Dependency(false, 0), Dependency(false, 0), Dependency(false, 0)]
  /** deps once the triangle is searched, before vertex 3. */
  const lostDeps2: seq<Dependency> := [Dependency(false, 0), Dependency(true, 3), Dependency(false, -2), Dependency(false, 0)]
  const lostDeps: seq<Dependency> := [Dependency(false, 0), Dependency(true, 3), Dependency(false, -2), Dependency(true, 5)]
  /** What the fallback's first guess, 3, writes. */
  const lostOutput: seq<int> := [3, 0, 1, 2]

  /** The four add_encoded_edge calls, as (from, to, code). */
  const lostCalls: seq<(int, int, int)> := [(0, 1, 3), (1, 2, 1), (2, 0, 2), (0, 3, 5)]

  /** Half-edges that follow lostCalls have the heads lostEnds. */
  lemma LostHeads(tails: seq<int>, ends: seq<int>)
    requires Follows(lostCalls, false, tails, ends, lostCodes)
    ensures ends == lostEnds
  {
    forall e | 0 <= e < 8 ensures ends[e] == lostEnds[e] {
      assert Half(lostCalls, false, e) == (tails[e], ends[e], lostCodes[e]);
    }
  }

  /** The id lists of four vertices after the four add_edge calls of lostCalls. */
  lemma LostIds(a0: seq<seq<int>>, a1: seq<seq<int>>, a2: seq<seq<int>>, a3: seq<seq<int>>, a4: seq<seq<int>>)
    requires a0 == seq(4, _ => []) && a1 == IdsAdded(a0, 0, 0, 1, false) && a2 == IdsAdded(a1, 2, 1, 2, false)
    requires a3 == IdsAdded(a2, 4, 2, 0, false) && a4 == IdsAdded(a3, 6, 0, 3, false)
    ensures a4 == lostAdj
  {
    assert a0[0] == [] && a0[1] == [] && a0[2] == [] && a0[3] == [];
    assert a1[0] == [0] && a1[1] == [1] && a1[2] == [] && a1[3] == [];
    assert a2[0] == [0] && a2[1] == [1, 2] && a2[2] == [3] && a2[3] == [];
    assert a3[0] == [0, 5] && a3[1] == [1, 2] && a3[2] == [3, 4] && a3[3] == [];
    assert a4[0] == [0, 5, 6] && a4[1] == [1, 2] && a4[2] == [3, 4] && a4[3] == [7];
  }

  /** The codes and the calls recorded by the four add_encoded_edge calls of lostCalls. */
  lemma LostCodes(k0: seq<int>, k4: seq<int>, c0: seq<(int, int, int)>, c4: seq<(int, int, int)>)
    requires k0 == [] && k4 == k0 + [3, 3] + [1, 1] + [2, 2] + [5, 5]
    requires c0 == [] && c4 == c0 + [(0, 1, 3)] + [(1, 2, 1)] + [(2, 0, 2)] + [(0, 3, 5)]
    ensures k4 == lostCodes && c4 == lostCalls
  {
  }

  /** The four add_encoded_edge calls on an undirected graph of four vertices build exactly these ids, heads and codes. */
  method LostGraph() returns (g: EncodedGraph)
    ensures g.Valid() && g.graph.EndsInRange() && !g.graph.directed && g.graph.nVertices == 4
    ensures g.graph.adjLists == lostAdj && g.graph.edgeEnds == lostEnds && g.edgeEncodings == lostCodes
    ensures Solves(g.graph.adjLists, g.graph.edgeEnds, g.edgeEncodings, lostSol) && ReachesAll(g.graph.Heads(), 0)
  {
    g := new EncodedGraph(4, false);
    ghost var a0, k0, c0 := g.graph.adjLists, g.edgeEncodings, g.calls;
    g.AddEncodedEdge(0, 1, 3);
    ghost var a1 := g.graph.adjLists;
    g.AddEncodedEdge(1, 2, 1);
    ghost var a2 := g.graph.adjLists;
    g.AddEncodedEdge(2, 0, 2);
    ghost var a3 := g.graph.adjLists;
    g.AddEncodedEdge(0, 3, 5);
    LostIds(a0, a1, a2, a3, g.graph.adjLists);
    LostCodes(k0, g.edgeEncodings, c0, g.calls);
    LostHeads(g.graph.tails, g.graph.edgeEnds);
    LostSolved();
    StoreHeads(g.graph);
    LostConnected(g.graph.Heads());
  }

  /** The instance is decodable: lostSol is a permutation whose sums are the codes. */
  lemma LostSolved()
    ensures Solves(lostAdj, lostEnds, lostCodes, lostSol) && IsPermutation(lostSol, 4)
  {
    forall v, k | 0 <= v < |lostAdj| && 0 <= k < |lostAdj[v]|
      ensures 0 <= lostAdj[v][k] < 8 && lostSol[v] + lostSol[lostEnds[lostAdj[v][k]]] == lostCodes[lostAdj[v][k]]
    {
      assert v == 0 || v == 1 || v == 2 || v == 3;
    }
    assert 0 in lostSol && 1 in lostSol && 2 in lostSol && 3 in lostSol by {
      assert lostSol[2] == 0 && lostSol[1] == 1 && lostSol[0] == 2 && lostSol[3] == 3;
    }
  }

  /** Every vertex is reachable from 0 along the heads of the ids. */
  lemma LostConnected(h: AdjLists)
    requires HeadsOf(h, lostAdj, lostEnds)
    ensures ReachesAll(h, 0)
  {
    assert h[0][0] == 1 && h[0][1] == 2 && h[0][2] == 3 by {
      assert lostEnds[lostAdj[0][0]] == 1 && lostEnds[lostAdj[0][1]] == 2 && lostEnds[lostAdj[0][2]] == 3;
    }
    forall t | 0 <= t < |h| ensures Reaches(h, 0, t) {
      if t == 0 {
        assert IsWalkFromTo(h, [0], 0, 0);
      } else {
        assert t in h[0];
        assert IsWalkFromTo(h, [0, t], 0, t);
      }
    }
  }

  /** The search from vertex 3, entered across (0,3): its only edge leads back to 0 with the same sign, so it answers -1. */
  lemma SearchFrom3(keep: bool)
    requires Fits(lostAdj, lostEnds, lostCodes)
    ensures Dfs(lostAdj, lostEnds, lostCodes, 3, Dependency(true, 5), [true, true, true, false], lostDeps, keep)
      == Search([true, true, true, true], lostDeps, -1)
  {
    var d := Dependency(true, 5);
    var st := Search([true, true, true, true], lostDeps, -1);
    assert [true, true, true, false][3 := true] == st.visited;
    assert Dfs(lostAdj, lostEnds, lostCodes, 3, d, [true, true, true, false], lostDeps, keep)
      == Scan(lostAdj, lostEnds, lostCodes, 3, d, 0, st, keep);
    assert lostAdj[3][0] == 7 && lostEnds[7] == 0 && Across(d, lostCodes[7]) == Dependency(false, 0);
    assert ScanStep(lostAdj, lostEnds, lostCodes, 3, d, 0, st, keep) == st;
    assert Scan(lostAdj, lostEnds, lostCodes, 3, d, 0, st, keep) == Scan(lostAdj, lostEnds, lostCodes, 3, d, 1, st, keep);
  }

  /** The search from vertex 2: the edge to 0 closes the odd cycle and sets the answer to 2. */
  lemma SearchFrom2(keep: bool)
    requires Fits(lostAdj, lostEnds, lostCodes)
    ensures Dfs(lostAdj, lostEnds, lostCodes, 2, Dependency(false, -2), [true, true, false, false], lostDeps0[1 := Dependency(true, 3)][2 := Dependency(false, -2)], keep)
      == Search([true, true, true, false], lostDeps0[1 := Dependency(true, 3)][2 := Dependency(false, -2)], 2)
  {
    var d := Dependency(false, -2);
    var deps := lostDeps0[1 := Dependency(true, 3)][2 := d];
    var st := Search([true, true, true, false], deps, -1);
    assert [true, true, false, false][2 := true] == st.visited;
    assert Dfs(lostAdj, lostEnds, lostCodes, 2, d, [true, true, false, false], deps, keep)
      == Scan(lostAdj, lostEnds, lostCodes, 2, d, 0, st, keep);
    assert lostAdj[2][0] == 3 && lostEnds[3] == 1 && Across(d, lostCodes[3]) == Dependency(true, 3) == deps[1];
    assert ScanStep(lostAdj, lostEnds, lostCodes, 2, d, 0, st, keep) == st;
    assert Scan(lostAdj, lostEnds, lostCodes, 2, d, 0, st, keep) == Scan(lostAdj, lostEnds, lostCodes, 2, d, 1, st, keep);
    assert lostAdj[2][1] == 4 && lostEnds[4] == 0 && Across(d, lostCodes[4]) == Dependency(true, 4) && deps[0] == Dependency(false, 0);
    assert ScanStep(lostAdj, lostEnds, lostCodes, 2, d, 1, st, keep) == st.(answer := 2);
    assert Scan(lostAdj, lostEnds, lostCodes, 2, d, 1, st, keep) == Scan(lostAdj, lostEnds, lostCodes, 2, d, 2, st.(answer := 2), keep);
  }

  /** The search from vertex 1, entered across (0,1): it passes the answer 2 of the search from 2 up. */
  lemma SearchFrom1(keep: bool)
    requires Fits(lostAdj, lostEnds, lostCodes)
    ensures Dfs(lostAdj, lostEnds, lostCodes, 1, Dependency(true, 3), [true, false, false, false], lostDeps0[1 := Dependency(true, 3)], keep)
      == Search([true, true, true, false], lostDeps2, 2)
  {
    var d := Dependency(true, 3);
    var deps := lostDeps0[1 := d];
    var st := Search([true, true, false, false], deps, -1);
    var st' := Search([true, true, true, false], deps[2 := Dependency(false, -2)], 2);
    assert [true, false, false, false][1 := true] == st.visited;
    assert Dfs(lostAdj, lostEnds, lostCodes, 1, d, [true, false, false, false], deps, keep)
      == Scan(lostAdj, lostEnds, lostCodes, 1, d, 0, st, keep);
    assert lostAdj[1][0] == 1 && lostEnds[1] == 0 && Across(d, lostCodes[1]) == Dependency(false, 0) == deps[0];
    assert ScanStep(lostAdj, lostEnds, lostCodes, 1, d, 0, st, keep) == st;
    assert Scan(lostAdj, lostEnds, lostCodes, 1, d, 0, st, keep) == Scan(lostAdj, lostEnds, lostCodes, 1, d, 1, st, keep);
    assert lostAdj[1][1] == 2 && lostEnds[2] == 2 && Across(d, lostCodes[2]) == Dependency(false, -2) && !st.visited[2];
    SearchFrom2(keep);
    assert deps[2 := Dependency(false, -2)] == lostDeps2;
    assert ScanStep(lostAdj, lostEnds, lostCodes, 1, d, 1, st, keep) == st';
    assert Scan(lostAdj, lostEnds, lostCodes, 1, d, 1, st, keep) == Scan(lostAdj, lostEnds, lostCodes, 1, d, 2, st', keep);
  }

  /** The root's first edge, to 1: the search of the triangle answers 2. */
  lemma RootStep0(keep: bool)
    requires Fits(lostAdj, lostEnds, lostCodes)
    ensures ScanStep(lostAdj, lostEnds, lostCodes, 0, Dependency(false, 0), 0, Search([true, false, false, false], lostDeps0, -1), keep)
      == Search([true, true, true, false], lostDeps2, 2)
  {
    assert lostAdj[0][0] == 0 && lostEnds[0] == 1 && Across(Dependency(false, 0), lostCodes[0]) == Dependency(true, 3);
    SearchFrom1(keep);
  }

  /** The root's second edge, to the marked 2 across (2,0): the sign differs, and the answer is 2 again. */
  lemma RootStep1(keep: bool)
    requires Fits(lostAdj, lostEnds, lostCodes)
    ensures ScanStep(lostAdj, lostEnds, lostCodes, 0, Dependency(false, 0), 1, Search([true, true, true, false], lostDeps2, 2), keep)
      == Search([true, true, true, false], lostDeps2, 2)
  {
    assert lostAdj[0][1] == 5 && lostEnds[5] == 2 && Across(Dependency(false, 0), lostCodes[5]) == Dependency(true, 2);
    assert lostDeps2[2] == Dependency(false, -2);
  }

  /** The root's third edge, to 3: its search answers -1 and leaves lostDeps. */
  lemma RootChild3(keep: bool)
    requires Fits(lostAdj, lostEnds, lostCodes)
    ensures lostAdj[0][2] == 6 && lostEnds[6] == 3 && Across(Dependency(false, 0), lostCodes[6]) == Dependency(true, 5)
    ensures Dfs(lostAdj, lostEnds, lostCodes, 3, Dependency(true, 5), [true, true, true, false], lostDeps2[3 := Dependency(true, 5)], keep)
      == Search([true, true, true, true], lostDeps, -1)
  {
    assert lostDeps2[3 := Dependency(true, 5)] == lostDeps;
    SearchFrom3(keep);
  }

  /** As written, the answer -1 of the search from 3 replaces 2. */
  lemma RootStep2Lost()
    requires Fits(lostAdj, lostEnds, lostCodes)
    ensures ScanStep(lostAdj, lostEnds, lostCodes, 0, Dependency(false, 0), 2, Search([true, true, true, false], lostDeps2, 2), false)
      == Search([true, true, true, true], lostDeps, -1)
  {
    RootChild3(false);
  }

  /** With keep, the answer 2 stays. */
  lemma RootStep2Kept()
    requires Fits(lostAdj, lostEnds, lostCodes)
    ensures ScanStep(lostAdj, lostEnds, lostCodes, 0, Dependency(false, 0), 2, Search([true, true, true, false], lostDeps2, 2), true)
      == Search([true, true, true, true], lostDeps, 2)
  {
    RootChild3(true);
  }

  /**
   * The search from init 0 leaves lostDeps and, as written, the answer -1:
   * the child 3, searched after the cycle was found, overwrites the answer 2.
   * With keep it answers 2, the value of init in lostSol.
   */
  lemma {:induction false} LostSearch(keep: bool)
    requires Fits(lostAdj, lostEnds, lostCodes)
    ensures FindDeps(lostAdj, lostEnds, lostCodes, 0, lostDeps0, keep) == Search([true, true, true, true], lostDeps, if keep then 2 else -1)
  {
    var v0 := seq(4, w => w == 0);
    assert v0 == [true, false, false, false];
    assert lostDeps0[0 := Dependency(false, 0)] == lostDeps0;
    assert v0[0 := true] == v0;
    var d := Dependency(false, 0);
    var st0 := Search(v0, lostDeps0, -1);
    var st1 := Search([true, true, true, false], lostDeps2, 2);
    var st3 := Search([true, true, true, true], lostDeps, if keep then 2 else -1);
    assert FindDeps(lostAdj, lostEnds, lostCodes, 0, lostDeps0, keep) == Scan(lostAdj, lostEnds, lostCodes, 0, d, 0, st0, keep);
    RootStep0(keep);
    assert Scan(lostAdj, lostEnds, lostCodes, 0, d, 0, st0, keep) == Scan(lostAdj, lostEnds, lostCodes, 0, d, 1, st1, keep);
    RootStep1(keep);
    assert Scan(lostAdj, lostEnds, lostCodes, 0, d, 1, st1, keep) == Scan(lostAdj, lostEnds, lostCodes, 0, d, 2, st1, keep);
    if keep {
      RootStep2Kept();
    } else {
      RootStep2Lost();
    }
    assert Scan(lostAdj, lostEnds, lostCodes, 0, d, 2, st1, keep) == Scan(lostAdj, lostEnds, lostCodes, 0, d, 3, st3, keep);
  }

  /**
   * As written: the search answers -1, the largest offset of sign false is
   * 0, so the first guess is 4 - 1 - 0 = 3; its values are a permutation,
   * so can_apply_ accepts it, yet they break the edge (2,0), whose code is 2.
   */
  lemma LostOutput()
    ensures Fits(lostAdj, lostEnds, lostCodes)
    ensures FindDeps(lostAdj, lostEnds, lostCodes, 0, lostDeps0, false).answer == -1
    ensures MaxOf(lostDeps, false, 0) && Expected(lostDeps, 0, 4 - 1 - 0) == lostOutput
    ensures IsPermutation(lostOutput, 4) && !SolvesApart(lostAdj, lostEnds, lostCodes, lostOutput)
    ensures lostOutput != lostSol
  {
    LostSolved();
    LostSearch(false);
    assert MaxOf(lostDeps, false, 0) by {
      assert lostDeps[0].sign == false && lostDeps[0].offset == 0;
    }
    assert 0 in lostOutput && 1 in lostOutput && 2 in lostOutput && 3 in lostOutput by {
      assert lostOutput[1] == 0 && lostOutput[2] == 1 && lostOutput[3] == 2 && lostOutput[0] == 3;
    }
    assert lostAdj[2][1] == 4 && lostEnds[4] == 0 && lostOutput[2] + lostOutput[0] != lostCodes[4];
  }

  /** Corrected: with keep the search answers 2, and its values are lostSol. */
  lemma LostKept()
    ensures Fits(lostAdj, lostEnds, lostCodes)
    ensures var r := FindDeps(lostAdj, lostEnds, lostCodes, 0, lostDeps0, true);
      r.answer == 2 && Expected(r.deps, 0, r.answer) == lostSol
  {
    LostSolved();
    LostSearch(true);
  }
}
