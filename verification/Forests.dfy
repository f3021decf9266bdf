/** Parent arrays as forests: roots, path compression and links, on values
    (course/algorithm/union-find.md, lines 51 to 62). */
module Forests {

  /** `rank` witnesses that `id` is acyclic: it drops along every parent link. */
  ghost predicate Forest(id: seq<int>, rank: seq<nat>) {
    && |id| == |rank|
    && forall x :: 0 <= x < |id| ==> 0 <= id[x] < |id| && (id[x] != x ==> rank[id[x]] < rank[x])
  }

  ghost function Root(id: seq<int>, rank: seq<nat>, x: int): (r: int)
    requires Forest(id, rank) && 0 <= x < |id|
    ensures 0 <= r < |id| && id[r] == r && (r != x ==> rank[r] < rank[x])
    decreases rank[x]
  {
    if id[x] == x then x else Root(id, rank, id[x])
  }

  /** Roots depend on the array alone, not on the witness of acyclicity. */
  lemma {:induction false} RootIgnoresRank(id: seq<int>, rank: seq<nat>, rank': seq<nat>, x: int)
    requires Forest(id, rank) && Forest(id, rank') && 0 <= x < |id|
    ensures Root(id, rank, x) == Root(id, rank', x)
    decreases rank[x]
  {
    if id[x] != x { RootIgnoresRank(id, rank, rank', id[x]); }
  }

  ghost predicate SameRoots(id: seq<int>, rank: seq<nat>, id': seq<int>, rank': seq<nat>)
    requires Forest(id, rank) && Forest(id', rank') && |id| == |id'|
  {
    forall x :: 0 <= x < |id| ==> Root(id, rank, x) == Root(id', rank', x)
  }

  /** `y` is met on the way from `x` to its root, both included. */
  ghost predicate OnPath(id: seq<int>, rank: seq<nat>, x: int, y: int)
    requires Forest(id, rank) && 0 <= x < |id|
    decreases rank[x]
  {
    y == x || (id[x] != x && OnPath(id, rank, id[x], y))
  }

  lemma {:induction false} OnPathSameRoot(id: seq<int>, rank: seq<nat>, x: int, y: int)
    requires Forest(id, rank) && 0 <= x < |id| && OnPath(id, rank, x, y)
    ensures 0 <= y < |id| && Root(id, rank, y) == Root(id, rank, x)
    decreases rank[x]
  {
    if y != x { OnPathSameRoot(id, rank, id[x], y); }
  }

  /** Every index on the path from `x` points straight at the root, and nothing else changes. */
  ghost function Compressed(id: seq<int>, rank: seq<nat>, x: int): seq<int>
    requires Forest(id, rank) && 0 <= x < |id|
  {
    seq(|id|, y requires 0 <= y < |id| => if OnPath(id, rank, x, y) then Root(id, rank, x) else id[y])
  }

  lemma {:induction false} CompressRoot(id: seq<int>, rank: seq<nat>, x: int, y: int)
    requires Forest(id, rank) && 0 <= x < |id| && 0 <= y < |id| && Forest(Compressed(id, rank, x), rank)
    ensures Root(id, rank, y) == Root(Compressed(id, rank, x), rank, y)
    decreases rank[y]
  {
    var r := Root(id, rank, x);
    if OnPath(id, rank, x, y) {
      OnPathSameRoot(id, rank, x, y);
      if OnPath(id, rank, x, r) { OnPathSameRoot(id, rank, x, r); }
    } else if id[y] != y {
      CompressRoot(id, rank, x, id[y]);
    }
  }

  /** Compression keeps the forest and every root. */
  lemma Compress(id: seq<int>, rank: seq<nat>, x: int)
    requires Forest(id, rank) && 0 <= x < |id|
    ensures Forest(Compressed(id, rank, x), rank)
    ensures SameRoots(id, rank, Compressed(id, rank, x), rank)
    ensures forall y :: 0 <= y < |id| ==>
              Compressed(id, rank, x)[y] == if OnPath(id, rank, x, y) then Root(id, rank, x) else id[y]
  {
    var id' := Compressed(id, rank, x);
    forall y | 0 <= y < |id| ensures 0 <= id'[y] < |id| && (id'[y] != y ==> rank[id'[y]] < rank[y]) {
      if OnPath(id, rank, x, y) { OnPathSameRoot(id, rank, x, y); }
    }
    forall y | 0 <= y < |id| ensures Root(id, rank, y) == Root(id', rank, y) {
      CompressRoot(id, rank, x, y);
    }
  }

  /** The rank after hanging root `a` below root `b`: the class of `a` moves up past `b`. */
  ghost function LinkRank(id: seq<int>, rank: seq<nat>, a: int, b: int): seq<nat>
    requires Forest(id, rank) && 0 <= b < |id|
  {
    seq(|id|, x requires 0 <= x < |id| => if Root(id, rank, x) == a then rank[x] + rank[b] + 1 else rank[x])
  }

  lemma LinkKeepsForest(id: seq<int>, rank: seq<nat>, a: int, b: int)
    requires Forest(id, rank) && 0 <= a < |id| && 0 <= b < |id| && id[a] == a && id[b] == b && a != b
    ensures Forest(id[a := b], LinkRank(id, rank, a, b))
  {
  }

  /** Hanging root `a` below root `b` redirects exactly the class of `a`. */
  lemma {:induction false} LinkRoot(id: seq<int>, rank: seq<nat>, a: int, b: int, rank': seq<nat>, x: int)
    requires Forest(id, rank) && 0 <= a < |id| && 0 <= b < |id| && id[a] == a && id[b] == b && a != b
    requires Forest(id[a := b], rank') && 0 <= x < |id|
    ensures Root(id[a := b], rank', x) == if Root(id, rank, x) == a then b else Root(id, rank, x)
    decreases rank[x]
  {
    if id[x] != x { LinkRoot(id, rank, a, b, rank', id[x]); }
  }

  /** How many calls of `Find` are nested, the outermost one included. */
  ghost function NestedCalls(id: seq<int>, rank: seq<nat>, x: int): (calls: nat)
    requires Forest(id, rank) && 0 <= x < |id|
    ensures calls >= 1
    decreases rank[x]
  {
    if id[x] == x then 1 else 1 + NestedCalls(id, rank, id[x])
  }

  /** The roots of `id'` are those of `id` with the class of `x` redirected to that of `y`. */
  ghost predicate Merges(id: seq<int>, rank: seq<nat>, id': seq<int>, rank': seq<nat>, x: int, y: int)
    requires Forest(id, rank) && Forest(id', rank') && |id| == |id'| && 0 <= x < |id| && 0 <= y < |id|
  {
    forall z :: 0 <= z < |id| ==>
      Root(id', rank', z) ==
        if Root(id, rank, z) == Root(id, rank, x) then Root(id, rank, y) else Root(id, rank, z)
  }

  /** Both paths compressed, in whichever order. */
  ghost function BothCompressed(id: seq<int>, rank: seq<nat>, x: int, y: int): seq<int>
    requires Forest(id, rank) && 0 <= x < |id| && 0 <= y < |id|
  {
    seq(|id|, z requires 0 <= z < |id| =>
      if OnPath(id, rank, x, z) then Root(id, rank, x)
      else if OnPath(id, rank, y, z) then Root(id, rank, y)
      else id[z])
  }

  /** The array after a union: both paths compressed, the first root hung below the second. */
  ghost function United(id: seq<int>, rank: seq<nat>, x: int, y: int): seq<int>
    requires Forest(id, rank) && 0 <= x < |id| && 0 <= y < |id|
  {
    BothCompressed(id, rank, x, y)[Root(id, rank, x) := Root(id, rank, y)]
  }

  lemma {:induction false} PathTail(id: seq<int>, rank: seq<nat>, x: int, y: int, z: int)
    requires Forest(id, rank) && 0 <= x < |id| && OnPath(id, rank, x, y) && 0 <= y < |id| && OnPath(id, rank, y, z)
    ensures OnPath(id, rank, x, z)
    decreases rank[x]
  {
    if y != x { PathTail(id, rank, id[x], y, z); }
  }

  lemma {:induction false} RootOnPath(id: seq<int>, rank: seq<nat>, x: int)
    requires Forest(id, rank) && 0 <= x < |id|
    ensures OnPath(id, rank, x, Root(id, rank, x))
    decreases rank[x]
  {
    if id[x] != x { RootOnPath(id, rank, id[x]); }
  }

  /** After the path of `x` is compressed, the path of `y` has lost at most indices that were
      on the path of `x` as well. */
  lemma {:induction false} PathAfterCompress(id: seq<int>, rank: seq<nat>, x: int, y: int, z: int)
    requires Forest(id, rank) && 0 <= x < |id| && 0 <= y < |id| && 0 <= z < |id|
    requires Forest(Compressed(id, rank, x), rank)
    ensures OnPath(Compressed(id, rank, x), rank, y, z) ==> OnPath(id, rank, y, z) || z == Root(id, rank, y)
    ensures OnPath(id, rank, y, z) ==> OnPath(Compressed(id, rank, x), rank, y, z) || OnPath(id, rank, x, z)
    decreases rank[y]
  {
    if OnPath(id, rank, x, y) {
      OnPathSameRoot(id, rank, x, y);
      if OnPath(id, rank, y, z) { PathTail(id, rank, x, y, z); }
      RootOnPath(id, rank, x);
      var id', r := Compressed(id, rank, x), Root(id, rank, x);
      assert id'[y] == r && id'[r] == r;
      assert OnPath(id', rank, r, z) <==> z == r;
    } else if id[y] != y {
      PathAfterCompress(id, rank, x, id[y], z);
    }
  }

  lemma CompressBoth(id: seq<int>, rank: seq<nat>, x: int, y: int)
    requires Forest(id, rank) && 0 <= x < |id| && 0 <= y < |id|
    ensures Forest(Compressed(id, rank, x), rank)
    ensures Compressed(Compressed(id, rank, x), rank, y) == BothCompressed(id, rank, x, y)
  {
    var id' := Compressed(id, rank, x);
    Compress(id, rank, x);
    RootOnPath(id, rank, y);
    forall z | 0 <= z < |id| ensures Compressed(id', rank, y)[z] == BothCompressed(id, rank, x, y)[z] {
      PathAfterCompress(id, rank, x, y, z);
      if OnPath(id, rank, x, z) {
        OnPathSameRoot(id, rank, x, z);
        if OnPath(id', rank, y, z) { OnPathSameRoot(id', rank, y, z); }
      }
    }
  }

  lemma BothCompressedSymmetric(id: seq<int>, rank: seq<nat>, x: int, y: int)
    requires Forest(id, rank) && 0 <= x < |id| && 0 <= y < |id|
    ensures BothCompressed(id, rank, x, y) == BothCompressed(id, rank, y, x)
  {
    forall z | 0 <= z < |id| ensures BothCompressed(id, rank, x, y)[z] == BothCompressed(id, rank, y, x)[z] {
      if OnPath(id, rank, x, z) && OnPath(id, rank, y, z) {
        OnPathSameRoot(id, rank, x, z);
        OnPathSameRoot(id, rank, y, z);
      }
    }
  }

  /** The witness of acyclicity after a union. */
  ghost function UnitedRank(id: seq<int>, rank: seq<nat>, x: int, y: int): seq<nat>
    requires Forest(id, rank) && 0 <= x < |id| && 0 <= y < |id|
  {
    var a, b := Root(id, rank, x), Root(id, rank, y);
    if a == b then rank else LinkRank(id, rank, a, b)
  }

  lemma BothCompressedForest(id: seq<int>, rank: seq<nat>, x: int, y: int)
    requires Forest(id, rank) && 0 <= x < |id| && 0 <= y < |id|
    ensures Forest(BothCompressed(id, rank, x, y), rank)
    ensures SameRoots(id, rank, BothCompressed(id, rank, x, y), rank)
  {
    CompressBoth(id, rank, x, y);
    Compress(id, rank, x);
    Compress(Compressed(id, rank, x), rank, y);
  }

  /** A union keeps the forest and redirects exactly the class of `x` to the root of `y`. */
  lemma UnitedForest(id: seq<int>, rank: seq<nat>, x: int, y: int)
    requires Forest(id, rank) && 0 <= x < |id| && 0 <= y < |id|
    ensures Forest(United(id, rank, x, y), UnitedRank(id, rank, x, y))
    ensures Merges(id, rank, United(id, rank, x, y), UnitedRank(id, rank, x, y), x, y)
  {
    BothCompressedForest(id, rank, x, y);
    var id1, a, b := BothCompressed(id, rank, x, y), Root(id, rank, x), Root(id, rank, y);
    assert Root(id1, rank, a) == a && Root(id1, rank, b) == b;
    if a == b {
      assert id1[a := b] == id1;
    } else {
      assert LinkRank(id, rank, a, b) == LinkRank(id1, rank, a, b);
      LinkKeepsForest(id1, rank, a, b);
      forall z | 0 <= z < |id|
        ensures Root(id1[a := b], UnitedRank(id, rank, x, y), z) ==
                  if Root(id1, rank, z) == a then b else Root(id1, rank, z)
      {
        LinkRoot(id1, rank, a, b, UnitedRank(id, rank, x, y), z);
      }
    }
  }

  /** `p` lists the indices from `x` to its root. */
  ghost predicate PathIs(id: seq<int>, p: seq<int>, x: int) {
    && p != [] && p[0] == x
    && (forall k :: 0 <= k < |p| ==> 0 <= p[k] < |id|)
    && (forall k :: 0 <= k < |p| - 1 ==> id[p[k]] == p[k + 1] && p[k + 1] != p[k])
    && id[p[|p| - 1]] == p[|p| - 1]
  }

  lemma {:induction false} PathRead(id: seq<int>, rank: seq<nat>, x: int, p: seq<int>)
    requires Forest(id, rank) && PathIs(id, p, x)
    ensures Root(id, rank, x) == p[|p| - 1] && NestedCalls(id, rank, x) == |p|
    ensures forall z :: OnPath(id, rank, x, z) <==> z in p
    decreases |p|
  {
    assert p == [p[0]] + p[1..];
    if |p| > 1 {
      assert id[p[0]] == p[1];
      PathRead(id, rank, p[1], p[1..]);
    }
  }

  ghost function EntryAfter(id: seq<int>, px: seq<int>, py: seq<int>, z: int): int
    requires px != [] && py != [] && 0 <= z < |id|
  {
    if z == px[|px| - 1] || (z !in px && z in py) then py[|py| - 1]
    else if z in px then px[|px| - 1]
    else id[z]
  }

  ghost predicate EntriesAfter(id: seq<int>, px: seq<int>, py: seq<int>, id': seq<int>)
    requires px != [] && py != []
  {
    |id'| == |id| && forall z :: 0 <= z < |id| ==> id'[z] == EntryAfter(id, px, py, z)
  }

  /** A union whose two paths are `px` and `py`, entry by entry. */
  lemma ReadUnited(id: seq<int>, rank: seq<nat>, px: seq<int>, py: seq<int>, id': seq<int>)
    requires Forest(id, rank) && px != [] && py != [] && PathIs(id, px, px[0]) && PathIs(id, py, py[0])
    requires EntriesAfter(id, px, py, id')
    ensures id' == United(id, rank, px[0], py[0])
  {
    PathRead(id, rank, px[0], px);
    PathRead(id, rank, py[0], py);
  }
}
