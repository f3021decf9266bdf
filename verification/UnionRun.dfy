/** The run of unions that the double loop of `findCircleNum` makes, one for each edge
    (course/algorithm/union-find.md, lines 64 to 79), and what the roots mean throughout. */
module UnionRun {
  import opened Forests
  import opened Graph

  /** The edges met so far, the last one on the outside. */
  datatype Run = Start | Then(before: Run, edge: Edge)

  datatype State = State(id: seq<int>, rank: seq<nat>)

  /** `e` comes before `f` in the order of the double loop. */
  ghost predicate Precedes(e: Edge, f: Edge) {
    e.i < f.i || (e.i == f.i && e.j < f.j)
  }

  /** Edges as the double loop meets them: above the diagonal, row by row. */
  ghost predicate RowOrdered(run: Run, n: nat) {
    match run
    case Start => true
    case Then(before, e) =>
      RowOrdered(before, n) && 0 <= e.i < e.j < n && (before.Then? ==> Precedes(before.edge, e))
  }

  ghost function EdgesOf(run: Run): Edges {
    match run
    case Start => {}
    case Then(before, e) => EdgesOf(before) + {e}
  }

  ghost function AfterUnion(t: State, e: Edge): (t': State)
    requires Forest(t.id, t.rank) && 0 <= e.i < |t.id| && 0 <= e.j < |t.id|
    ensures |t'.id| == |t.id| && Forest(t'.id, t'.rank)
  {
    UnitedForest(t.id, t.rank, e.j, e.i);
    State(United(t.id, t.rank, e.j, e.i), UnitedRank(t.id, t.rank, e.j, e.i))
  }

  /** The parent array once the unions of the run have been made. */
  ghost function After(n: nat, run: Run): (t: State)
    requires RowOrdered(run, n)
    ensures |t.id| == n && Forest(t.id, t.rank)
  {
    match run
    case Start => State(seq(n, x => x), seq(n, _ => 0))
    case Then(before, e) => AfterUnion(After(n, before), e)
  }

  ghost function RootAfter(n: nat, run: Run, x: int): (r: int)
    requires RowOrdered(run, n) && 0 <= x < n
    ensures 0 <= r < n
  {
    Root(After(n, run).id, After(n, run).rank, x)
  }

  /** One more edge hangs the class of its column below the root of its row. */
  lemma RootAfterEdge(n: nat, run: Run, x: int)
    requires RowOrdered(run, n) && run.Then? && 0 <= x < n
    ensures RootAfter(n, run, x) ==
              if RootAfter(n, run.before, x) == RootAfter(n, run.before, run.edge.j)
              then RootAfter(n, run.before, run.edge.i)
              else RootAfter(n, run.before, x)
  {
    var t := After(n, run.before);
    UnitedForest(t.id, t.rank, run.edge.j, run.edge.i);
  }

  lemma EdgesInOrder(run: Run, n: nat)
    requires RowOrdered(run, n)
    ensures forall f :: f in EdgesOf(run) ==> 0 <= f.i < f.j < n
    ensures run.Then? ==> forall f :: f in EdgesOf(run.before) ==> Precedes(f, run.edge)
  {
    if run.Then? { EdgesInOrder(run.before, n); }
  }

  // ---------- Roots and connection ----------

  /** Two indices share a root exactly when the edges connect them. */
  ghost predicate RootsMatch(id: seq<int>, rank: seq<nat>, edges: Edges)
    requires Forest(id, rank)
  {
    forall x, y :: 0 <= x < |id| && 0 <= y < |id| ==>
      (Root(id, rank, x) == Root(id, rank, y) <==> Connected(edges, x, y))
  }

  /** A walk cannot leave a class that every edge stays inside. */
  lemma {:induction false} WalkKeepsRoot(id: seq<int>, rank: seq<nat>, edges: Edges, p: seq<int>, x: int, y: int)
    requires Forest(id, rank) && EdgesWithin(edges, |id|) && Walk(edges, p, x, y) && 0 <= x < |id|
    requires forall e :: e in edges ==> 0 <= e.i < |id| && 0 <= e.j < |id| && Root(id, rank, e.i) == Root(id, rank, e.j)
    ensures 0 <= y < |id| && Root(id, rank, x) == Root(id, rank, y)
    decreases |p|
  {
    if |p| > 1 {
      assert Adjacent(edges, p[0], p[1]);
      assert Walk(edges, p[1..], p[1], y);
      WalkKeepsRoot(id, rank, edges, p[1..], p[1], y);
    }
  }

  lemma EdgesKeepRoots(id: seq<int>, rank: seq<nat>, id': seq<int>, rank': seq<nat>, edges: Edges, i: int, j: int)
    requires Forest(id, rank) && Forest(id', rank') && |id| == |id'|
    requires 0 <= i < |id| && 0 <= j < |id| && EdgesWithin(edges, |id|)
    requires RootsMatch(id, rank, edges) && Merges(id, rank, id', rank', j, i)
    ensures forall e :: e in edges + {Edge(i, j)} ==>
              0 <= e.i < |id| && 0 <= e.j < |id| && Root(id', rank', e.i) == Root(id', rank', e.j)
  {
    forall e | e in edges ensures Root(id, rank, e.i) == Root(id, rank, e.j) {
      ConnectedEdge(edges, e.i, e.j);
    }
  }

  /** One union keeps "same root" in step with "connected", now with one more edge. */
  lemma UnionAddsEdge(id: seq<int>, rank: seq<nat>, id': seq<int>, rank': seq<nat>, edges: Edges, i: int, j: int)
    requires Forest(id, rank) && Forest(id', rank') && |id| == |id'|
    requires 0 <= i < |id| && 0 <= j < |id| && EdgesWithin(edges, |id|)
    requires RootsMatch(id, rank, edges) && Merges(id, rank, id', rank', j, i)
    ensures RootsMatch(id', rank', edges + {Edge(i, j)})
  {
    var edges' := edges + {Edge(i, j)};
    EdgesKeepRoots(id, rank, id', rank', edges, i, j);
    forall x, y | 0 <= x < |id| && 0 <= y < |id|
      ensures Root(id', rank', x) == Root(id', rank', y) <==> Connected(edges', x, y)
    {
      if Connected(edges', x, y) {
        var p :| Walk(edges', p, x, y);
        WalkKeepsRoot(id', rank', edges', p, x, y);
      }
      if Root(id', rank', x) == Root(id', rank', y) {
        if Root(id, rank, x) == Root(id, rank, y) {
          ConnectedMonotonic(edges, edges', x, y);
        } else if Root(id, rank, x) == Root(id, rank, j) {
          Bridge(edges, x, j, i, y);
        } else {
          Bridge(edges, y, j, i, x);
          ConnectedSym(edges', y, x);
        }
      }
    }
  }

  lemma NoEdges(id: seq<int>, rank: seq<nat>)
    requires |id| == |rank| && forall x :: 0 <= x < |id| ==> id[x] == x
    ensures Forest(id, rank) && RootsMatch(id, rank, {})
  {
    forall x, y | 0 <= x < |id| && 0 <= y < |id| ensures x == y <==> Connected({}, x, y) {
      ConnectedRefl({}, x);
      if Connected({}, x, y) {
        var p :| Walk({}, p, x, y);
        WalkKeepsRoot(id, rank, {}, p, x, y);
      }
    }
  }

  /** Throughout the run two cities share a root exactly when the edges so far connect them. */
  lemma {:induction false} RootsMatchAfter(n: nat, run: Run)
    requires RowOrdered(run, n)
    ensures RootsMatch(After(n, run).id, After(n, run).rank, EdgesOf(run))
  {
    var t := After(n, run);
    match run {
      case Start => NoEdges(t.id, t.rank);
      case Then(before, e) =>
        RootsMatchAfter(n, before);
        EdgesInOrder(before, n);
        UnitedForest(After(n, before).id, After(n, before).rank, e.j, e.i);
        UnionAddsEdge(After(n, before).id, After(n, before).rank, t.id, t.rank, EdgesOf(before), e.i, e.j);
        assert e == Edge(e.i, e.j);
    }
  }

  lemma SameRootIffConnected(n: nat, run: Run, x: int, y: int)
    requires RowOrdered(run, n) && 0 <= x < n && 0 <= y < n
    ensures RootAfter(n, run, x) == RootAfter(n, run, y) <==> Connected(EdgesOf(run), x, y)
  {
    RootsMatchAfter(n, run);
  }

  lemma RootOfRoot(n: nat, run: Run, x: int)
    requires RowOrdered(run, n) && 0 <= x < n
    ensures RootAfter(n, run, RootAfter(n, run, x)) == RootAfter(n, run, x)
  {
  }

  // ---------- The run of a matrix ----------

  ghost predicate Square(matrix: seq<seq<int>>) {
    forall i :: 0 <= i < |matrix| ==> |matrix[i]| == |matrix|
  }

  /** The edges that the double loop has met on reaching column `j` of row `i`. */
  ghost function RunBefore(matrix: seq<seq<int>>, i: nat, j: nat): Run
    requires Square(matrix) && i <= |matrix| && j <= |matrix|
    decreases i, j
  {
    if j > i + 1 then
      var run := RunBefore(matrix, i, j - 1);
      if matrix[i][j - 1] == 1 then Then(run, Edge(i, j - 1)) else run
    else if i > 0 then RunBefore(matrix, i - 1, |matrix|)
    else Start
  }

  ghost function RunOf(matrix: seq<seq<int>>): Run
    requires Square(matrix)
  {
    RunBefore(matrix, |matrix|, 0)
  }

  /** An edge of the graph above the diagonal, met before column `j` of row `i`. */
  ghost predicate MetBefore(matrix: seq<seq<int>>, e: Edge, i: nat, j: nat)
    requires Square(matrix)
  {
    0 <= e.i < e.j < |matrix| && matrix[e.i][e.j] == 1 && (e.i < i || (e.i == i && e.j < j))
  }

  lemma {:induction false} RunMeetsEdges(matrix: seq<seq<int>>, i: nat, j: nat)
    requires Square(matrix) && i <= |matrix| && j <= |matrix|
    ensures RowOrdered(RunBefore(matrix, i, j), |matrix|)
    ensures forall e :: e in EdgesOf(RunBefore(matrix, i, j)) <==> MetBefore(matrix, e, i, j)
    decreases i, j
  {
    if j > i + 1 {
      var run := RunBefore(matrix, i, j - 1);
      RunMeetsEdges(matrix, i, j - 1);
      assert run.Then? ==> run.edge in EdgesOf(run);
    } else if i > 0 {
      RunMeetsEdges(matrix, i - 1, |matrix|);
    }
  }

  /** The graph whose edges are the entries 1 above the diagonal. */
  ghost function GraphOf(matrix: seq<seq<int>>): Edges
    requires Square(matrix)
  {
    set a, b | 0 <= a < b < |matrix| && matrix[a][b] == 1 :: Edge(a, b)
  }

  lemma RunCoversGraph(matrix: seq<seq<int>>)
    requires Square(matrix)
    ensures RowOrdered(RunOf(matrix), |matrix|) && EdgesOf(RunOf(matrix)) == GraphOf(matrix)
  {
    RunMeetsEdges(matrix, |matrix|, 0);
    forall e ensures e in EdgesOf(RunOf(matrix)) <==> e in GraphOf(matrix) {
      assert e == Edge(e.i, e.j);
    }
  }

  /** Only one run meets a given set of edges in row order. */
  lemma {:induction false} RunIsUnique(run: Run, run': Run, n: nat)
    requires RowOrdered(run, n) && RowOrdered(run', n) && EdgesOf(run) == EdgesOf(run')
    ensures run == run'
  {
    assert run.Then? ==> run.edge in EdgesOf(run);
    assert run'.Then? ==> run'.edge in EdgesOf(run');
    if run.Then? {
      EdgesInOrder(run, n);
      EdgesInOrder(run', n);
      assert EdgesOf(run.before) == EdgesOf(run) - {run.edge};
      assert EdgesOf(run'.before) == EdgesOf(run') - {run'.edge};
      RunIsUnique(run.before, run'.before, n);
    }
  }

  /** The run holds exactly the edges met before column `j` of row `i`, in row order. */
  ghost predicate Meets(matrix: seq<seq<int>>, run: Run, i: nat, j: nat)
    requires Square(matrix)
  {
    RowOrdered(run, |matrix|) && forall e :: e in EdgesOf(run) <==> MetBefore(matrix, e, i, j)
  }

  lemma MeetsNothing(matrix: seq<seq<int>>)
    requires Square(matrix)
    ensures Meets(matrix, Start, 0, 0)
  {
  }

  lemma MeetsEntry(matrix: seq<seq<int>>, run: Run, i: nat, j: nat, next: nat)
    requires Square(matrix) && i < j < |matrix| && next == j + 1 && Meets(matrix, run, i, j)
    ensures Meets(matrix, if matrix[i][j] == 1 then Then(run, Edge(i, j)) else run, i, next)
  {
    assert run.Then? ==> run.edge in EdgesOf(run);
    if matrix[i][j] == 1 {
      var longer := Then(run, Edge(i, j));
      assert RowOrdered(longer, |matrix|);
      forall e ensures e in EdgesOf(longer) <==> MetBefore(matrix, e, i, next) {
        assert e == Edge(e.i, e.j);
      }
    }
  }

  lemma MeetsRow(matrix: seq<seq<int>>, run: Run, i: nat, next: nat)
    requires Square(matrix) && i < |matrix| && next == i + 1
    ensures Meets(matrix, run, i, 0) ==> Meets(matrix, run, i, next)
    ensures Meets(matrix, run, i, |matrix|) ==> Meets(matrix, run, next, 0)
  {
  }

  /** At the end it is the run of the matrix. */
  lemma MeetsAll(matrix: seq<seq<int>>, run: Run)
    requires Square(matrix) && Meets(matrix, run, |matrix|, 0)
    ensures run == RunOf(matrix)
  {
    RunMeetsEdges(matrix, |matrix|, 0);
    RunIsUnique(run, RunOf(matrix), |matrix|);
  }

  /** Every run in row order is the run of some matrix. */
  lemma MatrixOfRun(run: Run, n: nat) returns (matrix: seq<seq<int>>)
    requires RowOrdered(run, n)
    ensures |matrix| == n && Square(matrix) && RunOf(matrix) == run
  {
    var edges := EdgesOf(run);
    matrix := seq(n, a => seq(n, b => if Edge(a, b) in edges then 1 else 0));
    RunCoversGraph(matrix);
    EdgesInOrder(run, n);
    forall e ensures e in GraphOf(matrix) <==> e in edges {
      assert e == Edge(e.i, e.j);
    }
    RunIsUnique(run, RunOf(matrix), n);
  }
}
