/** How deep the calls of `Find` nest in a run of the double loop of `findCircleNum`. The remark
    at course/algorithm/union-find.md:52 says that two calls are the most. */
module FindNesting {
  import opened Forests
  import opened Graph
  import opened UnionRun

  /** A find at `x` nests more than two calls: the parent of `x` is no root. */
  ghost predicate Deep(id: seq<int>, x: int) {
    0 <= x < |id| && 0 <= id[x] < |id| && id[id[x]] != id[x]
  }

  lemma NestedAtMostTwice(id: seq<int>, rank: seq<nat>, x: int)
    requires Forest(id, rank) && 0 <= x < |id|
    ensures NestedCalls(id, rank, x) <= 2 <==> !Deep(id, x)
  {
  }

  /** No find of the run nests more than two calls. */
  ghost predicate AllShallow(n: nat, run: Run)
    requires RowOrdered(run, n)
  {
    match run
    case Start => true
    case Then(before, e) =>
      AllShallow(n, before) && !Deep(After(n, before).id, e.i) && !Deep(After(n, before).id, e.j)
  }

  /** Edge `e`, met after the edges `before`, joins two components, of which the one on its
      column side has been met before in that column and contains city `y`. */
  ghost predicate Buries(before: Edges, e: Edge, y: int) {
    (exists f :: f in before && f.j == e.j) && !Connected(before, e.i, e.j) && Connected(before, e.j, y)
  }

  /** Some edge of the run buries city `y`. */
  ghost predicate Buried(run: Run, y: int) {
    run.Then? && (Buried(run.before, y) || Buries(EdgesOf(run.before), run.edge, y))
  }

  /** No edge of the run meets a city that an earlier one has buried. */
  ghost predicate NothingBuriedIsMet(run: Run) {
    run.Start? ||
    (NothingBuriedIsMet(run.before) && !Buried(run.before, run.edge.i) && !Buried(run.before, run.edge.j))
  }

  /** The edge hangs the class of `y` below another root, and `y` is not the root of its class. */
  ghost predicate Hangs(t: State, e: Edge, y: int)
    requires Forest(t.id, t.rank) && 0 <= e.i < |t.id| && 0 <= e.j < |t.id| && 0 <= y < |t.id|
  {
    var a := Root(t.id, t.rank, e.j);
    Root(t.id, t.rank, y) == a && y != a && Root(t.id, t.rank, e.i) != a
  }

  ghost predicate Hung(n: nat, run: Run, y: int)
    requires RowOrdered(run, n) && 0 <= y < n
  {
    run.Then? && (Hung(n, run.before, y) || Hangs(After(n, run.before), run.edge, y))
  }

  lemma ShallowPath(id: seq<int>, rank: seq<nat>, x: int)
    requires Forest(id, rank) && 0 <= x < |id| && !Deep(id, x)
    ensures Root(id, rank, x) == id[x]
    ensures forall z :: OnPath(id, rank, x, z) <==> z == x || z == id[x]
  {
    assert forall z :: OnPath(id, rank, id[x], z) <==> z == id[x];
  }

  lemma ShallowCompress(id: seq<int>, rank: seq<nat>, x: int)
    requires Forest(id, rank) && 0 <= x < |id| && !Deep(id, x)
    ensures Compressed(id, rank, x) == id
  {
    ShallowPath(id, rank, x);
  }

  /** A union of two shallow indices compresses nothing. */
  lemma ShallowUnion(id: seq<int>, rank: seq<nat>, x: int, y: int)
    requires Forest(id, rank) && 0 <= x < |id| && 0 <= y < |id| && !Deep(id, x) && !Deep(id, y)
    ensures United(id, rank, x, y) == id[Root(id, rank, x) := Root(id, rank, y)]
  {
    ShallowPath(id, rank, x);
    ShallowPath(id, rank, y);
    assert BothCompressed(id, rank, x, y) == id;
  }

  /** Hanging root `a` below another root makes deep exactly the rest of its class. */
  lemma LinkDeepens(id: seq<int>, rank: seq<nat>, a: int, b: int, y: int)
    requires Forest(id, rank) && 0 <= a < |id| && 0 <= b < |id| && id[a] == a && id[b] == b && a != b && 0 <= y < |id|
    ensures Deep(id[a := b], y) <==> Deep(id, y) || (Root(id, rank, y) == a && y != a)
  {
    if !Deep(id, y) { ShallowPath(id, rank, y); }
  }

  /** A union of two shallow indices makes deep exactly what it hangs. */
  lemma UnionDeepens(t: State, e: Edge, y: int)
    requires Forest(t.id, t.rank) && 0 <= e.i < |t.id| && 0 <= e.j < |t.id| && 0 <= y < |t.id|
    requires !Deep(t.id, e.i) && !Deep(t.id, e.j)
    ensures Deep(AfterUnion(t, e).id, y) <==> Deep(t.id, y) || Hangs(t, e, y)
  {
    var a, b := Root(t.id, t.rank, e.j), Root(t.id, t.rank, e.i);
    ShallowUnion(t.id, t.rank, e.j, e.i);
    if a == b {
      assert t.id[a := b] == t.id;
    } else {
      LinkDeepens(t.id, t.rank, a, b, y);
    }
  }

  /** While all finds have been shallow, the deep indices are those that some edge has hung. */
  lemma {:induction false} DeepIffHung(n: nat, run: Run, y: int)
    requires RowOrdered(run, n) && AllShallow(n, run) && 0 <= y < n
    ensures Deep(After(n, run).id, y) <==> Hung(n, run, y)
  {
    if run.Then? {
      DeepIffHung(n, run.before, y);
      UnionDeepens(After(n, run.before), run.edge, y);
    }
  }

  /** The root of an index that is not its own root is a row already visited. */
  lemma {:induction false} RootIsVisitedRow(n: nat, run: Run, row: int, x: int)
    requires RowOrdered(run, n) && 0 <= x < n && (run.Then? ==> run.edge.i <= row)
    ensures RootAfter(n, run, x) == x || RootAfter(n, run, x) <= row
  {
    if run.Then? {
      RootAfterEdge(n, run, x);
      RootIsVisitedRow(n, run.before, row, x);
      RootIsVisitedRow(n, run.before, row, run.edge.i);
    }
  }

  /** A city connected to another one is an end of some edge. */
  lemma EdgeAt(edges: Edges, x: int, y: int) returns (f: Edge)
    requires Connected(edges, x, y) && x != y
    ensures f in edges && (f.i == x || f.j == x)
  {
    var p :| Walk(edges, p, x, y);
    assert Adjacent(edges, p[0], p[1]);
    f := if Edge(x, p[1]) in edges then Edge(x, p[1]) else Edge(p[1], x);
  }

  lemma EarlierInColumn(n: nat, run: Run, f: Edge)
    requires RowOrdered(run, n) && run.Then? && f in EdgesOf(run.before) && f.j == run.edge.j
    ensures 0 <= f.i < run.edge.i && (run.before.Then? ==> run.before.edge.i <= run.edge.i)
    ensures RootAfter(n, run.before, f.i) == RootAfter(n, run.before, f.j)
  {
    EdgesInOrder(run, n);
    EdgesInOrder(run.before, n);
    ConnectedEdge(EdgesOf(run.before), f.i, f.j);
    SameRootIffConnected(n, run.before, f.i, f.j);
  }

  /** A root shared with an earlier row, and not with row `row`, is itself an earlier row. */
  lemma SharedRootIsEarlier(n: nat, run: Run, row: int, x: int)
    requires RowOrdered(run, n) && (run.Then? ==> run.edge.i <= row) && 0 <= x < row < n
    requires RootAfter(n, run, row) != RootAfter(n, run, x)
    ensures RootAfter(n, run, x) < row
  {
    RootIsVisitedRow(n, run, row, x);
    var r := RootAfter(n, run, x);
    assert r != row by { RootOfRoot(n, run, x); }
  }

  /** A column that an earlier edge has met has an earlier row as its root. */
  lemma MetColumnRoot(n: nat, run: Run, f: Edge)
    requires RowOrdered(run, n) && run.Then? && f in EdgesOf(run.before) && f.j == run.edge.j
    requires RootAfter(n, run.before, run.edge.i) != RootAfter(n, run.before, run.edge.j)
    ensures RootAfter(n, run.before, run.edge.j) < run.edge.i
  {
    EarlierInColumn(n, run, f);
    SharedRootIsEarlier(n, run.before, run.edge.i, f.i);
  }

  /** A column that is not alone in its class has been met before. */
  lemma MetColumn(n: nat, run: Run, other: int) returns (f: Edge)
    requires RowOrdered(run, n) && run.Then? && 0 <= other < n && other != run.edge.j
    requires RootAfter(n, run.before, other) == RootAfter(n, run.before, run.edge.j)
    ensures f in EdgesOf(run.before) && f.j == run.edge.j
  {
    EdgesInOrder(run, n);
    EdgesInOrder(run.before, n);
    SameRootIffConnected(n, run.before, run.edge.j, other);
    f := EdgeAt(EdgesOf(run.before), run.edge.j, other);
  }

  /** For a city that a later edge can still meet, being hung is a matter of the graph alone. */
  lemma HangsIffBuries(n: nat, run: Run, y: int)
    requires RowOrdered(run, n) && run.Then? && run.edge.i <= y < n
    ensures Hangs(After(n, run.before), run.edge, y) <==> Buries(EdgesOf(run.before), run.edge, y)
  {
    var p, e := run.before, run.edge;
    SameRootIffConnected(n, p, e.j, y);
    SameRootIffConnected(n, p, e.i, e.j);
    if Buries(EdgesOf(p), e, y) {
      var f :| f in EdgesOf(p) && f.j == e.j;
      MetColumnRoot(n, run, f);
    }
    if Hangs(After(n, p), e, y) {
      RootOfRoot(n, p, e.j);
      var f := MetColumn(n, run, if y != e.j then y else RootAfter(n, p, e.j));
    }
  }

  lemma {:induction false} HungIffBuried(n: nat, run: Run, y: int)
    requires RowOrdered(run, n) && 0 <= y < n && (run.Then? ==> run.edge.i <= y)
    ensures Hung(n, run, y) <==> Buried(run, y)
  {
    if run.Then? {
      HungIffBuried(n, run.before, y);
      HangsIffBuries(n, run, y);
    }
  }

  /** In a run of the double loop every find nests at most two calls exactly when no edge meets
      a city that an earlier one has buried: a condition on the matrix alone. */
  lemma {:induction false} ShallowIffNothingBuriedIsMet(n: nat, run: Run)
    requires RowOrdered(run, n)
    ensures AllShallow(n, run) <==> NothingBuriedIsMet(run)
  {
    if run.Then? {
      var p, e := run.before, run.edge;
      ShallowIffNothingBuriedIsMet(n, p);
      if AllShallow(n, p) {
        DeepIffHung(n, p, e.i);
        DeepIffHung(n, p, e.j);
        HungIffBuried(n, p, e.i);
        HungIffBuried(n, p, e.j);
      }
    }
  }

  // ---------- Graphs that already list their components ----------

  /** The matrix of an equivalence: every component is listed in full. */
  ghost predicate IsEquivalence(matrix: seq<seq<int>>)
    requires Square(matrix)
  {
    var n := |matrix|;
    && (forall a, b :: 0 <= a < n && 0 <= b < n && matrix[a][b] == 1 ==> matrix[b][a] == 1)
    && (forall a, b, c :: 0 <= a < n && 0 <= b < n && 0 <= c < n && matrix[a][b] == 1 && matrix[b][c] == 1
          ==> matrix[a][c] == 1)
  }

  /** A column met before joins its row to the earlier rows of that column. */
  lemma NothingToBury(matrix: seq<seq<int>>, i: nat, j: nat)
    requires Square(matrix) && IsEquivalence(matrix) && i < j < |matrix| && matrix[i][j] == 1
    ensures forall y :: !Buries(EdgesOf(RunBefore(matrix, i, j)), Edge(i, j), y)
  {
    var edges := EdgesOf(RunBefore(matrix, i, j));
    RunMeetsEdges(matrix, i, j);
    if f :| f in edges && f.j == j {
      assert matrix[j][i] == 1 && matrix[f.i][i] == 1;
      assert Edge(f.i, i) in edges;
      ConnectedEdge(edges, i, f.i);
      ConnectedEdge(edges, f.i, j);
      ConnectedTrans(edges, i, f.i, j);
    }
  }

  lemma {:induction false} NothingBuried(matrix: seq<seq<int>>, i: nat, j: nat)
    requires Square(matrix) && IsEquivalence(matrix) && i <= |matrix| && j <= |matrix|
    ensures NothingBuriedIsMet(RunBefore(matrix, i, j)) && forall y :: !Buried(RunBefore(matrix, i, j), y)
    decreases i, j
  {
    if j > i + 1 {
      NothingBuried(matrix, i, j - 1);
      if matrix[i][j - 1] == 1 { NothingToBury(matrix, i, j - 1); }
    } else if i > 0 {
      NothingBuried(matrix, i - 1, |matrix|);
    }
  }

  /** In the matrix of an equivalence the remark holds. */
  lemma EquivalenceStaysShallow(matrix: seq<seq<int>>)
    requires Square(matrix) && IsEquivalence(matrix)
    ensures RowOrdered(RunOf(matrix), |matrix|) && AllShallow(|matrix|, RunOf(matrix))
  {
    RunCoversGraph(matrix);
    NothingBuried(matrix, |matrix|, 0);
    ShallowIffNothingBuriedIsMet(|matrix|, RunOf(matrix));
  }

  // ---------- Runs that nest ever deeper ----------

  /** The edges (0, n-2), (0, n-1), (1, n-1), ..., (k, n-1). */
  ghost function ChainRun(n: nat, k: nat): Run
    requires n >= 4
  {
    if k == 0 then Then(Then(Start, Edge(0, n - 2)), Edge(0, n - 1))
    else Then(ChainRun(n, k - 1), Edge(k, n - 1))
  }

  /** The parent array after that run: a chain from 0 up to `k`. */
  ghost function ChainParent(n: nat, k: nat, z: int): int {
    if z < k then z + 1
    else if z == n - 2 then 0
    else if z == n - 1 then (if k == 0 then 0 else k - 1)
    else z
  }

  ghost function Chain(n: nat, k: nat): (id: seq<int>)
    ensures |id| == n && forall z :: 0 <= z < n ==> id[z] == ChainParent(n, k, z)
  {
    seq(n, z => ChainParent(n, k, z))
  }

  lemma FirstLink(n: nat)
    requires n >= 4
    ensures After(n, Then(Start, Edge(0, n - 2))).id == seq(n, z => if z == n - 2 then 0 else z)
  {
    var t := After(n, Start);
    ReadUnited(t.id, t.rank, [n - 2], [0], t.id[n - 2 := 0]);
  }

  /** The run ends with the edge (k, n-1) and leaves the chain up to `k`. */
  ghost predicate ReachesChain(n: nat, k: nat, run: Run) {
    run.Then? && run.edge == Edge(k, n - 1) && RowOrdered(run, n) && After(n, run).id == Chain(n, k)
  }

  lemma ChainStarts(n: nat)
    requires n >= 4
    ensures ReachesChain(n, 0, ChainRun(n, 0))
  {
    var t := After(n, Then(Start, Edge(0, n - 2)));
    FirstLink(n);
    ReadUnited(t.id, t.rank, [n - 1], [0], t.id[n - 1 := 0]);
  }

  /** The way from the last city to the top of the chain. */
  ghost function TopPath(n: nat, k: nat): (p: seq<int>)
    ensures p != [] && p[|p| - 1] == k
  {
    if k == 0 then [n - 1, 0] else [n - 1, k - 1, k]
  }

  lemma TopPathHolds(n: nat, k: nat, up: nat)
    requires n >= 4 && up == k + 1 <= n - 4
    ensures PathIs(Chain(n, k), TopPath(n, k), n - 1) && PathIs(Chain(n, k), [up], up)
  {
  }

  lemma ChainEntries(n: nat, k: nat, up: nat)
    requires n >= 4 && up == k + 1 <= n - 4
    ensures EntriesAfter(Chain(n, k), TopPath(n, k), [up], Chain(n, up))
  {
    forall z | 0 <= z < n ensures Chain(n, up)[z] == EntryAfter(Chain(n, k), TopPath(n, k), [up], z) {
      assert z in TopPath(n, k) <==> z == n - 1 || z == k || (k > 0 && z == k - 1);
    }
  }

  /** The edge (up, n-1) hangs the top of the chain below `up`. */
  lemma ChainLink(n: nat, k: nat, up: nat, id: seq<int>, rank: seq<nat>)
    requires n >= 4 && up == k + 1 <= n - 4 && Forest(id, rank) && id == Chain(n, k)
    ensures United(id, rank, n - 1, up) == Chain(n, up)
  {
    TopPathHolds(n, k, up);
    ChainEntries(n, k, up);
    ReadUnited(id, rank, TopPath(n, k), [up], Chain(n, up));
  }

  lemma ChainStep(n: nat, k: nat, up: nat, shorter: Run, run: Run)
    requires n >= 4 && up == k + 1 <= n - 4 && ReachesChain(n, k, shorter) && run == Then(shorter, Edge(up, n - 1))
    ensures ReachesChain(n, up, run)
  {
    var t := After(n, shorter);
    ChainLink(n, k, up, t.id, t.rank);
    assert After(n, run) == AfterUnion(t, Edge(up, n - 1));
  }

  lemma {:induction false} ChainGrows(n: nat, k: nat) returns (run: Run)
    requires n >= 4 && k <= n - 4
    ensures run == ChainRun(n, k) && ReachesChain(n, k, run)
  {
    if k == 0 {
      run := ChainRun(n, 0);
      ChainStarts(n);
    } else {
      var shorter := ChainGrows(n, k - 1);
      run := Then(shorter, Edge(k, n - 1));
      ChainStep(n, k - 1, k, shorter, run);
    }
  }

  lemma ChainNests(n: nat, id: seq<int>, rank: seq<nat>)
    requires n >= 4 && Forest(id, rank) && id == Chain(n, n - 4)
    ensures NestedCalls(id, rank, n - 2) == n - 2
  {
    var path := [n - 2] + seq(n - 3, z => z);
    assert forall m :: 0 < m < |path| ==> path[m] == m - 1;
    PathRead(id, rank, n - 2, path);
  }

  /** On `n` cities the find at `n - 2` for the last edge of this run nests `n - 2` calls,
      whether the other find of its union comes first or not. */
  ghost predicate NestsDeep(n: nat, run: Run)
    requires n >= 4 && RowOrdered(run, n)
  {
    && run.Then? && run.edge == Edge(n - 3, n - 2)
    && var t := After(n, run.before);
       NestedCalls(t.id, t.rank, n - 2) == n - 2 && Compressed(t.id, t.rank, n - 3) == t.id
  }

  lemma LongestChainNests(n: nat) returns (run: Run)
    requires n >= 4
    ensures run == Then(ChainRun(n, n - 4), Edge(n - 3, n - 2)) && RowOrdered(run, n) && NestsDeep(n, run)
  {
    var before := ChainGrows(n, n - 4);
    var t := After(n, before);
    ChainNests(n, t.id, t.rank);
    ShallowCompress(t.id, t.rank, n - 3);
    run := Then(before, Edge(n - 3, n - 2));
  }

  /** No bound holds for all matrices. */
  lemma FindNestsWithoutBound(n: nat) returns (matrix: seq<seq<int>>)
    requires n >= 4
    ensures |matrix| == n && Square(matrix)
    ensures RunOf(matrix) == Then(ChainRun(n, n - 4), Edge(n - 3, n - 2))
    ensures RowOrdered(RunOf(matrix), n) && NestsDeep(n, RunOf(matrix))
  {
    var run := LongestChainNests(n);
    matrix := MatrixOfRun(run, n);
  }

  /** With six cities the run is the edges (0,4), (0,5), (1,5), (2,5) and (3,4), and four calls nest. */
  lemma FourNestedCalls()
    ensures var before := Then(Then(Then(Then(Start, Edge(0, 4)), Edge(0, 5)), Edge(1, 5)), Edge(2, 5));
      && RowOrdered(Then(before, Edge(3, 4)), 6)
      && NestedCalls(After(6, before).id, After(6, before).rank, 4) == 4
  {
    var matrix := FindNestsWithoutBound(6);
    assert ChainRun(6, 2) == Then(ChainRun(6, 1), Edge(2, 5));
    assert ChainRun(6, 1) == Then(ChainRun(6, 0), Edge(1, 5));
  }
}
