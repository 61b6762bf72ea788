/**
 * The chats program: an undirected graph of users, split by
 * build_condensation into its connected components; main prints the
 * number of components and, for each, its users in ascending order.
 */
module Chats {
  import opened Graphs
  import opened GraphStore
  import opened Kosaraju
  import opened Condensation

  /** The number of entries over all lists. */
  function TotalSize(ls: seq<seq<int>>): nat
    decreases |ls|
  {
    if ls == [] then 0 else TotalSize(ls[..|ls| - 1]) + |ls[|ls| - 1]|
  }

  /** Appending to one list adds one entry in all. */
  lemma {:induction false} TotalSizeAppend(ls: seq<seq<int>>, c: int, x: int)
    requires 0 <= c < |ls|
    ensures TotalSize(ls[c := ls[c] + [x]]) == TotalSize(ls) + 1
    decreases |ls|
  {
    var ls' := ls[c := ls[c] + [x]];
    if c < |ls| - 1 {
      assert ls'[..|ls'| - 1] == ls[..|ls| - 1][c := ls[c] + [x]];
      TotalSizeAppend(ls[..|ls| - 1], c, x);
    } else {
      assert ls'[..|ls'| - 1] == ls[..|ls| - 1];
    }
  }

  /** Empty lists hold no entries. */
  lemma {:induction false} TotalSizeEmpty(count: nat)
    ensures TotalSize(seq(count, _ => [])) == 0
  {
    if count > 0 {
      var none: seq<seq<int>> := seq(count, _ => []);
      assert none[..count - 1] == seq(count - 1, _ => []);
      TotalSizeEmpty(count - 1);
    }
  }

  /**
   * The comp_lists loop of main: vertex v goes to the back of the list of
   * its component, for v ascending.  The lists partition the vertices.
   */
  method GroupLists(comps: seq<int>, count: nat) returns (lists: seq<seq<int>>)
    requires forall x :: 0 <= x < |comps| ==> 0 <= comps[x] < count
    ensures |lists| == count
    ensures forall c :: 0 <= c < count ==> Ascending(lists[c])
    ensures forall c, k :: 0 <= c < count && 0 <= k < |lists[c]| ==> 0 <= lists[c][k] < |comps| && comps[lists[c][k]] == c
    ensures forall x :: 0 <= x < |comps| ==> x in lists[comps[x]]
    ensures TotalSize(lists) == |comps|
  {
    lists := seq(count, _ => []);
    TotalSizeEmpty(count);
    var v := 0;
    while v < |comps|
      invariant 0 <= v <= |comps| && |lists| == count
      invariant forall c :: 0 <= c < count ==> Ascending(lists[c])
      invariant forall c, k :: 0 <= c < count && 0 <= k < |lists[c]| ==> 0 <= lists[c][k] < v && comps[lists[c][k]] == c
      invariant forall x :: 0 <= x < v ==> x in lists[comps[x]]
      invariant TotalSize(lists) == v
    {
      var c := comps[v];
      TotalSizeAppend(lists, c, v);
      lists := lists[c := lists[c] + [v]];
      v := v + 1;
    }
  }

  /** x is one of the entries of the lists. */
  ghost predicate Listed(ls: seq<seq<int>>, x: int) {
    exists c, k :: 0 <= c < |ls| && 0 <= k < |ls[c]| && ls[c][k] == x
  }

  /** Lists grouping the vertices by a connectivity labelling are the connected components. */
  lemma GroupsAreComponents(g: AdjLists, comps: seq<int>, count: nat, groups: seq<seq<int>>)
    requires |comps| == |g| && forall x :: 0 <= x < |g| ==> 0 <= comps[x] < count
    requires forall l :: 0 <= l < count ==> Used(comps, l)
    requires forall x, y :: 0 <= x < |g| && 0 <= y < |g| ==> (comps[x] == comps[y] <==> Reaches(g, x, y))
    requires |groups| == count
    requires forall c, k :: 0 <= c < count && 0 <= k < |groups[c]| ==> 0 <= groups[c][k] < |comps| && comps[groups[c][k]] == c
    requires forall x :: 0 <= x < |comps| ==> x in groups[comps[x]]
    ensures forall c :: 0 <= c < count ==> groups[c] != []
    ensures forall c, x :: 0 <= c < count && x in groups[c] ==> 0 <= x < |g|
    ensures forall x :: 0 <= x < |g| ==> Listed(groups, x)
    ensures forall c, d, x, y :: 0 <= c < count && 0 <= d < count && x in groups[c] && y in groups[d] ==>
      (c == d <==> Reaches(g, x, y))
  {
    forall c | 0 <= c < count ensures groups[c] != [] {
      assert Used(comps, c);
      var x :| 0 <= x < |comps| && comps[x] == c;
      assert x in groups[c];
    }
    forall x | 0 <= x < |g| ensures Listed(groups, x) {
      assert x in groups[comps[x]];
      var k :| 0 <= k < |groups[comps[x]]| && groups[comps[x]][k] == x;
    }
  }

  /**
   * main, without its I/O: the number of chats and, for each, its users
   * (0-based) in ascending order.  Two users share a chat exactly when
   * they are connected, every user is in a chat, and no chat is empty.
   * The search walks each unordered_set in the order `lists` gives, any
   * order of the elements read.
   */
  method Chats(n: nat, edges: seq<(int, int)>, lists: AdjLists) returns (count: nat, groups: seq<seq<int>>)
    requires EdgesIn(n, edges) && Reordered(lists, InputGraph(n, edges, false, true))
    ensures |groups| == count && TotalSize(groups) == n
    ensures forall c :: 0 <= c < count ==> groups[c] != [] && Ascending(groups[c])
    ensures forall c, x :: 0 <= c < count && x in groups[c] ==> 0 <= x < n
    ensures forall x :: 0 <= x < n ==> Listed(groups, x)
    ensures forall c, d, x, y :: 0 <= c < count && 0 <= d < count && x in groups[c] && y in groups[d] ==>
      (c == d <==> Reaches(lists, x, y))
  {
    var stored := ReadGraph(n, edges, false, true);
    ReorderedValid(lists, stored);
    var g := lists;
    var cond, comps := BuildCondensation(g, true);
    UndirectedComponents(g, comps, cond, true);
    count := |cond|;
    groups := GroupLists(comps, count);
    GroupsAreComponents(g, comps, count, groups);
  }
}
