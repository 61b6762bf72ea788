/**
 * The topological sort: a three-colour depth-first search from every
 * still-white vertex in increasing order, writing each finished vertex into
 * `sorted` from the back.  Meeting a grey vertex reports a cycle, and then
 * the result is emptied.
 */
module TopSort {
  import opened Graphs
  import opened Cycles

  /** The last `it` cells of `sorted` hold the finished vertices `done`. */
  ghost predicate Written(g: AdjLists, sorted: seq<int>, it: int, done: seq<int>) {
    |sorted| == |g| && 0 <= it <= |g| && it == |done| && sorted[|g| - it..] == done
  }

  /** `*it = v; ++it` through the reverse iterator puts v in front of the written suffix. */
  lemma WriteFront(g: AdjLists, sorted: seq<int>, it: int, done: seq<int>, v: int)
    requires Written(g, sorted, it, done) && it < |g|
    ensures Written(g, sorted[|g| - 1 - it := v], it + 1, [v] + done)
  {
    var s := sorted[|g| - 1 - it := v];
    assert s[|g| - 1 - it..] == [v] + sorted[|g| - it..];
  }

  /**
   * top_sort_impl_(g, v, color, it): the search from the white vertex v,
   * entered from the top of the search path `stack`.  A reported cycle is a
   * real one; otherwise v is finished and `sorted`'s last `it'` cells hold
   * the new finished vertices, still in an order where every edge goes
   * forward.
   */
  method Visit(g: AdjLists, v: int, color: array<int>, sorted: array<int>, it: int,
               ghost stack: seq<int>, ghost done: seq<int>)
    returns (cycle: bool, it': int, ghost done': seq<int>)
    requires ValidGraph(g) && color != sorted && color.Length == |g|
    requires Coloured(g, color[..], stack, done) && 0 <= v < |g| && color[v] == 0
    requires stack != [] ==> v in g[stack[|stack| - 1]]
    requires Written(g, sorted[..], it, done)
    modifies color, sorted
    ensures Progressed(old(color[..]), color[..])
    ensures cycle ==> HasCycle(g)
    ensures !cycle ==> Coloured(g, color[..], stack, done') && color[v] == 2
    ensures !cycle ==> Written(g, sorted[..], it', done')
    decreases |IndicesWith(color[..], 0)|
  {
    ghost var color0 := color[..];
    ScanStart(g, v, stack, done, color0);
    color[v] := 1;
    ghost var path := stack + [v];
    ghost var cur := done;
    it' := it;
    var k := 0;
    while k < |g[v]|
      invariant Scan(g, v, k, path, cur, color0, color[..]) && Written(g, sorted[..], it', cur)
    {
      var u := g[v][k];
      if color[u] == 1 {
        BackEdge(g, color[..], path, cur, u);
        return true, it', cur;
      } else if color[u] == 0 {
        FewerWith(color0, color[..], 0, v);
        ghost var color1, cur1 := color[..], cur;
        var found;
        found, it', cur := Visit(g, u, color, sorted, it', path, cur);
        if found {
          return true, it', cur;
        }
        ScanChild(g, v, k, path, cur1, color0, color1, cur, color[..]);
      } else {
        ScanBlack(g, v, k, path, cur, color0, color[..]);
      }
      k := k + 1;
    }
    ScanEnd(g, v, stack, cur, color0, color[..]);
    WriteFront(g, sorted[..], it', cur, v);
    sorted[|g| - 1 - it'] := v;
    color[v] := 2;
    it' := it' + 1;
    cycle, done' := false, [v] + cur;
  }

  /**
   * top_sort(g): with no cycle, a topological order of all the vertices;
   * with a cycle, the empty sequence.
   */
  method TopSort(g: AdjLists) returns (r: seq<int>)
    requires ValidGraph(g)
    ensures HasCycle(g) ==> r == []
    ensures !HasCycle(g) ==> TopologicalOrder(g, r)
  {
    var color := new int[|g|](_ => 0);
    var sorted := new int[|g|](_ => 0);
    ColouredStart(g);
    assert color[..] == seq(|g|, _ => 0);
    var it := 0;
    ghost var done: seq<int> := [];
    var v := 0;
    while v < |g|
      invariant Swept(g, v, color[..], done) && Written(g, sorted[..], it, done)
    {
      if color[v] == 0 {
        ghost var c1, d1 := color[..], done;
        var found;
        found, it, done := Visit(g, v, color, sorted, it, [], done);
        if found {
          return [];
        }
        SweptVisit(g, v, c1, d1, color[..], done);
      } else {
        SweptSkip(g, v, color[..], done);
      }
      v := v + 1;
    }
    SweptAll(g, color[..], done);
    assert sorted[..] == done;
    r := sorted[..];
  }
}
