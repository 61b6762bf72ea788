/**
 * The maglev program: skyscrapers 0 .. n - 1 and, for each cushion read, a
 * vertex added after them joined to the cushion's three skyscrapers.  The
 * cushions whose vertex passes the cut-point test of the depth-first search
 * of this undirected multigraph are printed, numbered from 1 in reading
 * order; the intent is the cushions whose vertex is an articulation point.
 */
module Maglev {
  import opened Graphs
  import opened GraphStore
  import opened LowLink
  import opened CutPoints

  /** The three 1-based skyscraper numbers of a cushion. */
  type Cushion = (int, int, int)

  /** Every skyscraper number read is one of 1 .. nSky. */
  ghost predicate CushionsIn(nSky: int, cushions: seq<Cushion>) {
    forall j :: 0 <= j < |cushions| ==>
      1 <= cushions[j].0 <= nSky && 1 <= cushions[j].1 <= nSky && 1 <= cushions[j].2 <= nSky
  }

  /** The cushion rests on the 1-based skyscraper x. */
  ghost predicate Holds(c: Cushion, x: int) {
    c.0 == x || c.1 == x || c.2 == x
  }

  /** The list of cushion vertex nSky + j holds its three skyscrapers in reading order. */
  ghost predicate CushionAt(nSky: nat, cushions: seq<Cushion>, lists: seq<seq<int>>, j: int)
    requires 0 <= j < |cushions| && nSky + j < |lists|
  {
    lists[nSky + j] == [cushions[j].0 - 1, cushions[j].1 - 1, cushions[j].2 - 1]
  }

  /** Skyscraper x's list holds u exactly when u is a cushion vertex of the store resting on x. */
  ghost predicate SkyAt(nSky: nat, cushions: seq<Cushion>, lists: seq<seq<int>>, x: int, u: int)
    requires |lists| <= nSky + |cushions| && 0 <= x < |lists|
  {
    u in lists[x] <==> nSky <= u < |lists| && Holds(cushions[u - nSky], x + 1)
  }

  /** The store after the first i cushions: the cushion lists and the skyscraper lists as described. */
  ghost predicate MaglevStore(nSky: nat, cushions: seq<Cushion>, i: nat, lists: seq<seq<int>>) {
    && i <= |cushions| && |lists| == nSky + i
    && (forall j :: 0 <= j < i ==> CushionAt(nSky, cushions, lists, j))
    && (forall x, u :: 0 <= x < nSky ==> SkyAt(nSky, cushions, lists, x, u))
  }

  /** The store is a valid undirected graph: every cushion edge is stored at both ends. */
  lemma MaglevGraph(nSky: nat, cushions: seq<Cushion>, i: nat, lists: seq<seq<int>>)
    requires CushionsIn(nSky, cushions) && MaglevStore(nSky, cushions, i, lists)
    ensures ValidGraph(lists) && Symmetric(lists)
  {
    forall v, k | 0 <= v < |lists| && 0 <= k < |lists[v]| ensures 0 <= lists[v][k] < |lists| {
      if v < nSky {
        assert SkyAt(nSky, cushions, lists, v, lists[v][k]);
      } else {
        assert CushionAt(nSky, cushions, lists, v - nSky);
      }
    }
    forall u, v | 0 <= u < |lists| && v in lists[u] ensures 0 <= v < |lists| && u in lists[v] {
      if u < nSky {
        assert SkyAt(nSky, cushions, lists, u, v);
        assert CushionAt(nSky, cushions, lists, v - nSky);
      } else {
        assert CushionAt(nSky, cushions, lists, u - nSky);
        assert SkyAt(nSky, cushions, lists, v, u);
      }
    }
  }

  /** No cushion read yet: the n empty skyscraper lists. */
  lemma MaglevStart(nSky: nat, cushions: seq<Cushion>)
    ensures MaglevStore(nSky, cushions, 0, seq(nSky, _ => []))
  {
    var lists: seq<seq<int>> := seq(nSky, _ => []);
    forall x, u | 0 <= x < nSky ensures SkyAt(nSky, cushions, lists, x, u) {
      assert lists[x] == [];
    }
  }

  /** Both ends of the undirected edge a - c pushed to the back of each other's lists. */
  function Push(l: seq<seq<int>>, a: int, c: int): seq<seq<int>>
    requires 0 <= a < |l| && 0 <= c < |l|
  {
    l[a := l[a] + [c]][c := l[c] + [a]]
  }

  /** add_edge(a, c) on the undirected vector store, for a != c, is Push. */
  lemma PushedEdge(l: seq<seq<int>>, a: int, c: int)
    requires 0 <= a < |l| && 0 <= c < |l| && a != c
    ensures EdgeAdded(l, a, c, false, false) == Push(l, a, c)
  {
  }

  /** After Push, w is in y's list when it was before or the edge put it there. */
  lemma PushMember(l: seq<seq<int>>, a: int, c: int, y: int, w: int)
    requires 0 <= a < |l| && 0 <= c < |l| && a != c && 0 <= y < |l|
    ensures w in Push(l, a, c)[y] <==> w in l[y] || (y == a && w == c) || (y == c && w == a)
  {
  }

  /** The lists after add_vertex() and add_edge(s - 1, cushion) for the three skyscrapers s of cushion t. */
  function CushionAdded(lists: seq<seq<int>>, t: Cushion): (r: seq<seq<int>>)
    requires 1 <= t.0 <= |lists| && 1 <= t.1 <= |lists| && 1 <= t.2 <= |lists|
  {
    var c := |lists|;
    Push(Push(Push(lists + [[]], t.0 - 1, c), t.1 - 1, c), t.2 - 1, c)
  }

  /** The new vertex's list holds the three skyscrapers in reading order. */
  lemma CushionAddedList(lists: seq<seq<int>>, t: Cushion)
    requires 1 <= t.0 <= |lists| && 1 <= t.1 <= |lists| && 1 <= t.2 <= |lists|
    ensures |CushionAdded(lists, t)| == |lists| + 1
    ensures CushionAdded(lists, t)[|lists|] == [t.0 - 1, t.1 - 1, t.2 - 1]
  {
  }

  /** The other lists gain the new vertex exactly as the cushion rests on them. */
  lemma CushionAddedMember(lists: seq<seq<int>>, t: Cushion, y: int, w: int)
    requires 1 <= t.0 <= |lists| && 1 <= t.1 <= |lists| && 1 <= t.2 <= |lists| && 0 <= y < |lists|
    ensures w in CushionAdded(lists, t)[y] <==> w in lists[y] || (w == |lists| && Holds(t, y + 1))
  {
    var c := |lists|;
    var l0 := lists + [[]];
    var l1 := Push(l0, t.0 - 1, c);
    var l2 := Push(l1, t.1 - 1, c);
    assert l0[y] == lists[y];
    PushMember(l0, t.0 - 1, c, y, w);
    PushMember(l1, t.1 - 1, c, y, w);
    PushMember(l2, t.2 - 1, c, y, w);
  }

  /** The earlier cushion lists are untouched. */
  lemma CushionAddedKeeps(lists: seq<seq<int>>, t: Cushion, y: int)
    requires 1 <= t.0 <= |lists| && 1 <= t.1 <= |lists| && 1 <= t.2 <= |lists| && 0 <= y < |lists|
    requires t.0 - 1 != y && t.1 - 1 != y && t.2 - 1 != y
    ensures CushionAdded(lists, t)[y] == lists[y]
  {
    assert (lists + [[]])[y] == lists[y];
  }

  /** Adding the next cushion read keeps the account of the store. */
  lemma MaglevStep(nSky: nat, cushions: seq<Cushion>, i: nat, lists: seq<seq<int>>)
    requires CushionsIn(nSky, cushions) && MaglevStore(nSky, cushions, i, lists) && i < |cushions|
    ensures MaglevStore(nSky, cushions, i + 1, CushionAdded(lists, cushions[i]))
  {
    var t := cushions[i];
    var lists' := CushionAdded(lists, t);
    CushionAddedList(lists, t);
    assert CushionAt(nSky, cushions, lists', i);
    forall j | 0 <= j < i + 1 ensures CushionAt(nSky, cushions, lists', j) {
      if j < i {
        assert CushionAt(nSky, cushions, lists, j);
        CushionAddedKeeps(lists, t, nSky + j);
      }
    }
    forall x, u | 0 <= x < nSky ensures SkyAt(nSky, cushions, lists', x, u) {
      assert SkyAt(nSky, cushions, lists, x, u);
      CushionAddedMember(lists, t, x, u);
    }
  }

  /** add_edge(a, c) on the undirected vector store, for a != c. */
  method JoinCushion(store: AdjListsGraph, a: int, c: int)
    requires store.Valid() && !store.directed && !store.asSet
    requires 0 <= a < |store.lists| && 0 <= c < |store.lists| && a != c
    modifies store
    ensures store.Valid() && store.nVertices == old(store.nVertices)
    ensures store.lists == Push(old(store.lists), a, c)
  {
    PushedEdge(store.lists, a, c);
    store.AddEdge(a, c);
  }

  /**
   * One pass of main's input loop: cushion = add_vertex(), then
   * add_edge(s - 1, cushion) for each of the cushion's three skyscrapers.
   */
  method AddCushion(store: AdjListsGraph, t: Cushion)
    requires store.Valid() && !store.directed && !store.asSet && store.extra == 0
    requires 1 <= t.0 <= |store.lists| && 1 <= t.1 <= |store.lists| && 1 <= t.2 <= |store.lists|
    modifies store
    ensures store.Valid() && store.extra == 0 && store.lists == CushionAdded(old(store.lists), t)
  {
    ghost var lists := store.lists;
    var cushion := store.AddVertex();
    assert cushion == |lists|;
    JoinCushion(store, t.0 - 1, cushion);
    JoinCushion(store, t.1 - 1, cushion);
    JoinCushion(store, t.2 - 1, cushion);
  }

  /**
   * The input loop of main: for each cushion read, a new vertex joined to
   * its three skyscrapers on an undirected vector store.
   */
  method BuildMaglev(nSky: nat, cushions: seq<Cushion>) returns (g: AdjLists)
    requires CushionsIn(nSky, cushions)
    ensures MaglevStore(nSky, cushions, |cushions|, g)
    ensures ValidGraph(g) && Symmetric(g)
  {
    var store := new AdjListsGraph(nSky, false, false, false);
    MaglevStart(nSky, cushions);
    var i := 0;
    while i < |cushions|
      invariant 0 <= i <= |cushions| && store.Valid() && !store.directed && !store.asSet && store.extra == 0
      invariant MaglevStore(nSky, cushions, i, store.lists)
    {
      MaglevStep(nSky, cushions, i, store.lists);
      AddCushion(store, cushions[i]);
      i := i + 1;
    }
    g := store.lists;
    MaglevGraph(nSky, cushions, |cushions|, g);
  }

  /**
   * The output loop of main: the cut points from nSky on, in ascending
   * order, as 1-based cushion numbers.
   */
  method ImportantCushions(cuts: seq<int>, nSky: int) returns (r: seq<int>)
    requires Ascending(cuts)
    ensures Ascending(r)
    ensures forall y :: y in r <==> y >= 1 && y + nSky - 1 in cuts
  {
    r := [];
    var idx := 0;
    while idx < |cuts|
      invariant 0 <= idx <= |cuts| && Ascending(r)
      invariant forall y :: y in r <==> y >= 1 && y + nSky - 1 in cuts[..idx]
      invariant forall k, j :: 0 <= k < |r| && idx <= j < |cuts| ==> r[k] + nSky - 1 < cuts[j]
    {
      assert cuts[..idx + 1] == cuts[..idx] + [cuts[idx]];
      if cuts[idx] >= nSky {
        r := r + [cuts[idx] - nSky + 1];
      }
      idx := idx + 1;
    }
    assert cuts[..idx] == cuts;
  }

  /**
   * main, without its I/O: the cushions whose vertex passes the cut-point
   * test of the search, as their 1-based numbers in ascending order.  The
   * intent is the cushions whose removal disconnects the structure.
   */
  method Maglev(nSky: nat, cushions: seq<Cushion>) returns (ghost g: AdjLists, ghost s: Search, printed: seq<int>)
    requires CushionsIn(nSky, cushions)
    ensures MaglevStore(nSky, cushions, |cushions|, g) && Symmetric(g)
    ensures Searched(g, s) && s.parent == SearchForest(g).from && RootsFirst(g, s)
    ensures Ascending(printed)
    ensures forall y :: y in printed <==> 1 <= y <= |cushions| && Cut(g, s, nSky + y - 1)
  {
    var lists := BuildMaglev(nSky, cushions);
    g := lists;
    var cuts;
    s, cuts := FindCutPoints(lists);
    printed := ImportantCushions(cuts, nSky);
  }
}
