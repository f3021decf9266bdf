/** Undirected graphs: walks, connection and components. */
module Graph {

  datatype Edge = Edge(i: int, j: int)

  type Edges = set<Edge>

  ghost predicate Adjacent(edges: Edges, x: int, y: int) {
    Edge(x, y) in edges || Edge(y, x) in edges
  }

  /** `p` walks from `x` to `y` along edges. */
  ghost predicate Walk(edges: Edges, p: seq<int>, x: int, y: int) {
    && |p| > 0 && p[0] == x && p[|p| - 1] == y
    && forall k :: 0 < k < |p| ==> Adjacent(edges, p[k - 1], p[k])
  }

  ghost predicate Connected(edges: Edges, x: int, y: int) {
    exists p :: Walk(edges, p, x, y)
  }

  lemma ConnectedRefl(edges: Edges, x: int)
    ensures Connected(edges, x, x)
  {
    assert Walk(edges, [x], x, x);
  }

  lemma ConnectedEdge(edges: Edges, x: int, y: int)
    requires Adjacent(edges, x, y)
    ensures Connected(edges, x, y)
  {
    assert Walk(edges, [x, y], x, y);
  }

  lemma ConnectedSym(edges: Edges, x: int, y: int)
    requires Connected(edges, x, y)
    ensures Connected(edges, y, x)
  {
    var p :| Walk(edges, p, x, y);
    var q := seq(|p|, k requires 0 <= k < |p| => p[|p| - 1 - k]);
    forall k | 0 < k < |q| ensures Adjacent(edges, q[k - 1], q[k]) {
      assert Adjacent(edges, p[|p| - k - 1], p[|p| - k]);
    }
    assert Walk(edges, q, y, x);
  }

  lemma ConnectedTrans(edges: Edges, x: int, y: int, z: int)
    requires Connected(edges, x, y) && Connected(edges, y, z)
    ensures Connected(edges, x, z)
  {
    var p :| Walk(edges, p, x, y);
    var q :| Walk(edges, q, y, z);
    assert Walk(edges, p + q[1..], x, z);
  }

  lemma ConnectedMonotonic(edges: Edges, edges': Edges, x: int, y: int)
    requires edges <= edges' && Connected(edges, x, y)
    ensures Connected(edges', x, y)
  {
    var p :| Walk(edges, p, x, y);
    assert Walk(edges', p, x, y);
  }

  ghost predicate EdgesWithin(edges: Edges, n: int) {
    forall e :: e in edges ==> 0 <= e.i < n && 0 <= e.j < n
  }

  /** Connections on both sides of a new edge join up. */
  lemma Bridge(edges: Edges, x: int, j: int, i: int, y: int)
    requires Connected(edges, x, j) && Connected(edges, i, y)
    ensures Connected(edges + {Edge(i, j)}, x, y)
  {
    var edges' := edges + {Edge(i, j)};
    ConnectedMonotonic(edges, edges', x, j);
    ConnectedMonotonic(edges, edges', i, y);
    ConnectedEdge(edges', j, i);
    ConnectedTrans(edges', x, j, i);
    ConnectedTrans(edges', x, i, y);
  }

  ghost function Component(edges: Edges, n: int, x: int): set<int> {
    set y | 0 <= y < n && Connected(edges, x, y)
  }

  ghost function Components(edges: Edges, n: int): set<set<int>> {
    set x | 0 <= x < n :: Component(edges, n, x)
  }
}
