/** Union-find with path compression and no ranks, in place, and the province count built on it
    (course/algorithm/union-find.md). */
module UnionFind {
  import opened Forests
  import opened Graph
  import opened UnionRun
  import opened FindNesting

  // ---------- The operations ----------

  /** The calls of `Find` that are open, and the most that have been open at once. Every call
      enters and leaves by itself. */
  class Depth {
    ghost var open: nat
    ghost var deepest: nat
  }

  ghost function Max(a: nat, b: nat): nat {
    if a > b then a else b
  }

  /** Lines 51 to 57. */
  method Find(id: array<int>, index: int, ghost rank: seq<nat>, ghost depth: Depth) returns (r: int)
    requires Forest(id[..], rank) && 0 <= index < id.Length
    modifies id, depth
    ensures id[..] == Compressed(old(id[..]), rank, index) && r == Root(old(id[..]), rank, index)
    ensures Forest(id[..], rank) && SameRoots(old(id[..]), rank, id[..], rank)
    ensures depth.open == old(depth.open)
    ensures depth.deepest == Max(old(depth.deepest), old(depth.open) + NestedCalls(old(id[..]), rank, index))
    decreases rank[index]
  {
    depth.open := depth.open + 1;
    depth.deepest := Max(depth.deepest, depth.open);
    ghost var id0 := id[..];
    assert id0[index] == id[index];
    Compress(id0, rank, index);
    if id[index] != index {
      var t := Find(id, id[index], rank, depth);
      ghost var id1 := id[..];
      id[index] := t;
      assert id[..] == id1[index := t];
    }
    assert id[..] == Compressed(id0, rank, index);
    assert id[..][index] == id[index];
    depth.open := depth.open - 1;
    return id[index];
  }

  /** The second find starts from what the first one has compressed. */
  lemma NestedInTurn(id: seq<int>, rank: seq<nat>, x: int, y: int)
    requires Forest(id, rank) && 0 <= x < |id| && 0 <= y < |id|
    ensures Forest(Compressed(id, rank, x), rank)
    ensures NestedCalls(id, rank, x) <= 2 && NestedCalls(Compressed(id, rank, x), rank, y) <= 2
            <==> !Deep(id, x) && !Deep(id, y)
  {
    Compress(id, rank, x);
    NestedAtMostTwice(id, rank, x);
    NestedAtMostTwice(id, rank, y);
    if !Deep(id, x) { ShallowCompress(id, rank, x); }
  }

  /** Two finds, one after the other. */
  method FindInTurn(id: array<int>, x: int, y: int, ghost rank: seq<nat>, ghost depth: Depth) returns (a: int, b: int)
    requires Forest(id[..], rank) && 0 <= x < id.Length && 0 <= y < id.Length && depth.open == 0
    modifies id, depth
    ensures a == Root(old(id[..]), rank, x) && b == Root(old(id[..]), rank, y)
    ensures id[..] == BothCompressed(old(id[..]), rank, x, y) && Forest(id[..], rank)
    ensures depth.open == 0 && (depth.deepest <= 2 <==>
              old(depth.deepest) <= 2 && !Deep(old(id[..]), x) && !Deep(old(id[..]), y))
  {
    ghost var id0 := id[..];
    ghost var id1 := Compressed(id0, rank, x);
    CompressBoth(id0, rank, x, y);
    Compress(id0, rank, x);
    NestedInTurn(id0, rank, x, y);
    ghost var most, n1, n2 := depth.deepest, NestedCalls(id0, rank, x), NestedCalls(id1, rank, y);
    a := Find(id, x, rank, depth);
    assert depth.deepest == Max(most, n1);
    b := Find(id, y, rank, depth);
    assert depth.deepest == Max(Max(most, n1), n2);
  }

  /** The two calls of line 61. C leaves open which comes first, so `leftFirst` is arbitrary;
      what they leave behind does not depend on it, nor does whether one of them nests more
      than two calls. */
  method FindBoth(id: array<int>, index1: int, index2: int, leftFirst: bool, ghost rank: seq<nat>, ghost depth: Depth)
      returns (a: int, b: int)
    requires Forest(id[..], rank) && 0 <= index1 < id.Length && 0 <= index2 < id.Length && depth.open == 0
    modifies id, depth
    ensures a == Root(old(id[..]), rank, index1) && b == Root(old(id[..]), rank, index2)
    ensures id[..] == BothCompressed(old(id[..]), rank, index1, index2)
    ensures Forest(id[..], rank) && SameRoots(old(id[..]), rank, id[..], rank)
    ensures depth.open == 0 && (depth.deepest <= 2 <==>
              old(depth.deepest) <= 2 && !Deep(old(id[..]), index1) && !Deep(old(id[..]), index2))
  {
    BothCompressedForest(id[..], rank, index1, index2);
    BothCompressedSymmetric(id[..], rank, index1, index2);
    if leftFirst {
      a, b := FindInTurn(id, index1, index2, rank, depth);
    } else {
      b, a := FindInTurn(id, index2, index1, rank, depth);
    }
  }

  /** Lines 59 to 62. */
  method Union(id: array<int>, index1: int, index2: int, leftFirst: bool, ghost rank: seq<nat>, ghost depth: Depth)
      returns (ghost rank': seq<nat>)
    requires Forest(id[..], rank) && 0 <= index1 < id.Length && 0 <= index2 < id.Length && depth.open == 0
    modifies id, depth
    ensures id[..] == United(old(id[..]), rank, index1, index2)
    ensures rank' == UnitedRank(old(id[..]), rank, index1, index2)
    ensures Forest(id[..], rank') && Merges(old(id[..]), rank, id[..], rank', index1, index2)
    ensures depth.open == 0 && (depth.deepest <= 2 <==>
              old(depth.deepest) <= 2 && !Deep(old(id[..]), index1) && !Deep(old(id[..]), index2))
  {
    ghost var id0 := id[..];
    UnitedForest(id0, rank, index1, index2);
    rank' := UnitedRank(id0, rank, index1, index2);
    var a, b := FindBoth(id, index1, index2, leftFirst, rank, depth);
    ghost var id1 := id[..];
    id[a] := b;
    assert id[..] == id1[a := b];
  }

  // ---------- Provinces ----------

  ghost function Roots(id: seq<int>, k: int): set<int> {
    set r | 0 <= r < k && r < |id| && id[r] == r
  }

  /** Distinct roots stand for distinct components. */
  lemma {:induction false} RootsInjective(id: seq<int>, rank: seq<nat>, edges: Edges, roots: set<int>)
    requires Forest(id, rank) && RootsMatch(id, rank, edges) && roots <= Roots(id, |id|)
    ensures |set r | r in roots :: Component(edges, |id|, r)| == |roots|
    decreases roots
  {
    var n := |id|;
    if roots == {} {
      assert (set r | r in roots :: Component(edges, n, r)) == {};
    } else {
      var r :| r in roots;
      var rest := roots - {r};
      RootsInjective(id, rank, edges, rest);
      forall q | q in rest ensures Component(edges, n, q) != Component(edges, n, r) {
        ConnectedRefl(edges, r);
        assert r in Component(edges, n, r);
        assert Root(id, rank, q) != Root(id, rank, r);
      }
      assert (set q | q in roots :: Component(edges, n, q))
          == (set q | q in rest :: Component(edges, n, q)) + {Component(edges, n, r)};
    }
  }

  lemma RootsCountComponents(id: seq<int>, rank: seq<nat>, edges: Edges)
    requires Forest(id, rank) && RootsMatch(id, rank, edges)
    ensures |Roots(id, |id|)| == |Components(edges, |id|)|
  {
    var n := |id|;
    var roots := Roots(id, n);
    RootsInjective(id, rank, edges, roots);
    forall x | 0 <= x < n ensures Component(edges, n, x) == Component(edges, n, Root(id, rank, x)) {
      var r := Root(id, rank, x);
      assert Root(id, rank, r) == r;
    }
    forall c | c in Components(edges, n) ensures c in (set r | r in roots :: Component(edges, n, r)) {
      var x :| 0 <= x < n && c == Component(edges, n, x);
      assert Root(id, rank, x) in roots;
    }
    assert (set r | r in roots :: Component(edges, n, r)) == Components(edges, n);
  }

  /** The array is that of the run so far, and no more than two calls have been open at once
      exactly if no find of the run nests deeper. */
  ghost predicate Tracks(id: seq<int>, open: nat, deepest: nat, run: Run) {
    && RowOrdered(run, |id|) && After(|id|, run).id == id
    && open == 0 && (deepest <= 2 <==> AllShallow(|id|, run))
  }

  /** Line 76: an edge between `i` and `j` is taken into account. */
  method UnionEdge(id: array<int>, i: int, j: int, ghost depth: Depth, ghost run: Run)
    requires Tracks(id[..], depth.open, depth.deepest, run) && RowOrdered(Then(run, Edge(i, j)), id.Length)
    modifies id, depth
    ensures Tracks(id[..], depth.open, depth.deepest, Then(run, Edge(i, j)))
  {
    var leftFirst: bool := *;
    ghost var rank' := Union(id, j, i, leftFirst, After(id.Length, run).rank, depth);
  }

  /** Lines 74 to 77: one entry of the matrix. */
  method UnionEntry(isConnected: seq<seq<int>>, id: array<int>, i: nat, j: nat, ghost depth: Depth, ghost run: Run)
      returns (ghost run': Run)
    requires i < j < |isConnected| == id.Length && Square(isConnected)
    requires Meets(isConnected, run, i, j) && Tracks(id[..], depth.open, depth.deepest, run)
    modifies id, depth
    ensures Meets(isConnected, run', i, j + 1) && Tracks(id[..], depth.open, depth.deepest, run')
  {
    run' := run;
    MeetsEntry(isConnected, run, i, j, j + 1);
    if isConnected[i][j] == 1 {
      UnionEdge(id, i, j, depth, run);
      run' := Then(run, Edge(i, j));
    }
  }

  /** Lines 72 to 78, the inner loop. */
  method UnionRow(isConnected: seq<seq<int>>, id: array<int>, i: nat, ghost depth: Depth, ghost run: Run)
      returns (ghost run': Run)
    requires i < |isConnected| == id.Length && Square(isConnected)
    requires Meets(isConnected, run, i, 0) && Tracks(id[..], depth.open, depth.deepest, run)
    modifies id, depth
    ensures Meets(isConnected, run', i + 1, 0) && Tracks(id[..], depth.open, depth.deepest, run')
  {
    run' := run;
    MeetsRow(isConnected, run, i, i + 1);
    var j := i + 1;
    while j < |isConnected|
      invariant i < j <= |isConnected| && Meets(isConnected, run', i, j)
      invariant Tracks(id[..], depth.open, depth.deepest, run')
    {
      run' := UnionEntry(isConnected, id, i, j, depth, run');
      j := j + 1;
    }
    MeetsRow(isConnected, run', i, i + 1);
  }

  /** Lines 80 to 86. */
  method CountRoots(id: array<int>) returns (provinces: int)
    ensures provinces == |Roots(id[..], id.Length)|
  {
    provinces := 0;
    for i := 0 to id.Length
      invariant provinces == |Roots(id[..], i)|
    {
      assert Roots(id[..], i + 1) == Roots(id[..], i) + if id[i] == i then {i} else {};
      if id[i] == i {
        provinces := provinces + 1;
      }
    }
  }

  /** Lines 64 to 87: the number of connected components of the graph above the diagonal. The
      most calls of `Find` that were open at once are left in `depth`. */
  method FindCircleNum(isConnected: seq<seq<int>>, ghost depth: Depth) returns (provinces: int)
    requires Square(isConnected) && depth.open == depth.deepest == 0
    modifies depth
    ensures provinces == |Components(GraphOf(isConnected), |isConnected|)|
    ensures depth.deepest <= 2 <==> NothingBuriedIsMet(RunOf(isConnected))
  {
    var cities := |isConnected|;
    var id := new int[cities](i => i);
    ghost var run := Start;
    assert id[..] == After(cities, Start).id;
    MeetsNothing(isConnected);
    for i := 0 to cities
      invariant fresh(id) && id.Length == cities
      invariant Meets(isConnected, run, i, 0) && Tracks(id[..], depth.open, depth.deepest, run)
    {
      run := UnionRow(isConnected, id, i, depth, run);
    }
    provinces := CountRoots(id);
    MeetsAll(isConnected, run);
    RunCoversGraph(isConnected);
    RootsMatchAfter(cities, RunOf(isConnected));
    RootsCountComponents(id[..], After(cities, run).rank, GraphOf(isConnected));
    ShallowIffNothingBuriedIsMet(cities, RunOf(isConnected));
  }
}
