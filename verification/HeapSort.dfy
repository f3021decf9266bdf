/** Heap sort on top of the max-heap (course/algorithm/src/sort/heap-sort.c). */
module HeapSort {
  import opened Heap
  import opened Sorting

  /** The loop invariant: a max-heap, then a sorted tail that it does not exceed. */
  ghost predicate HeapThenSorted(p: seq<int>, q: seq<int>) {
    IsHeap(p) && Sorted(q) && forall x, y :: x in multiset(p) && y in q ==> x <= y
  }

  /** The root of the heap joins the front of the tail, the heap keeping the rest. */
  lemma SortStep(p: seq<int>, q: seq<int>, p': seq<int>)
    requires HeapThenSorted(p, q) && p != []
    requires IsHeap(p') && multiset(p') == multiset(p) - multiset{p[0]}
    ensures HeapThenSorted(p', [p[0]] + q) && multiset(p' + ([p[0]] + q)) == multiset(p + q)
  {
    RootDominates(p);
    SortedCons(p[0], q);
    assert multiset(p) == multiset(p') + multiset{p[0]};
  }

  /** Line 102, as the heap part and the rest see it. */
  method MoveRoot(a: array<int>, heapSize: nat, ghost p: seq<int>)
    requires 1 <= heapSize <= a.Length && p == a[..heapSize]
    modifies a
    ensures a[..heapSize - 1] == p[0 := p[heapSize - 1]][..heapSize - 1]
    ensures a[heapSize - 1..] == [p[0]] + old(a[heapSize..])
  {
    Swap(a, heapSize, 0, heapSize - 1);
    ghost var t := a[..heapSize];
    assert a[..heapSize - 1] == t[..heapSize - 1];
    assert a[heapSize - 1..] == [t[heapSize - 1]] + a[heapSize..];
  }

  /** The array is the heap `p`, the sorted tail `q` and the cells `rest` beyond the sort. */
  ghost predicate Layout(s: seq<int>, p: seq<int>, q: seq<int>, rest: seq<int>) {
    s == p + (q + rest) && HeapThenSorted(p, q)
  }

  lemma SplitLayout(s: seq<int>, p: seq<int>, q: seq<int>, rest: seq<int>)
    requires s == p + (q + rest)
    ensures s[..|p| + |q|] == p + q && s[|p| + |q|..] == rest && s[..|p|] == p && s[|p|..] == q + rest
  {
  }

  lemma JoinLayout(s: seq<int>, p: seq<int>, x: int, q: seq<int>, rest: seq<int>)
    requires |p| <= |s| && s[..|p|] == p && s[|p|..] == [x] + (q + rest)
    ensures s == p + (([x] + q) + rest)
  {
  }

  /** Lines 102 to 104 on the heap `p`: the root leaves it for the cell behind. */
  method TakeRoot(a: array<int>, heapSize: nat, ghost p: seq<int>)
    requires 1 <= heapSize <= a.Length && p == a[..heapSize] && IsHeap(p)
    modifies a
    ensures IsHeap(a[..heapSize - 1]) && multiset(a[..heapSize - 1]) == multiset(p) - multiset{p[0]}
    ensures a[heapSize - 1..] == [p[0]] + old(a[heapSize..])
  {
    MoveRoot(a, heapSize, p);
    LastToRoot(p, a[..heapSize - 1]);
    MaxHeapify(a, heapSize - 1, 0, 0);
  }

  /** Lines 102 to 104: the root joins the sorted tail. */
  method SortRound(a: array<int>, heapSize: nat, ghost p: seq<int>, ghost q: seq<int>, ghost rest: seq<int>)
      returns (ghost p': seq<int>, ghost q': seq<int>)
    requires 1 <= heapSize == |p| && Layout(a[..], p, q, rest)
    modifies a
    ensures Layout(a[..], p', q', rest) && |p'| == heapSize - 1 && q' == [p[0]] + q
    ensures multiset(p' + q') == multiset(p + q)
  {
    SplitLayout(a[..], p, q, rest);
    TakeRoot(a, heapSize, p);
    p', q' := a[..heapSize - 1], [p[0]] + q;
    SortStep(p, q, p');
    JoinLayout(a[..], p', p[0], q, rest);
  }

  lemma SortedHeapOfOne(p: seq<int>, q: seq<int>)
    requires HeapThenSorted(p, q) && |p| <= 1
    ensures Sorted(p + q)
  {
    if p == [] {
      assert p + q == q;
    } else {
      assert p[0] in multiset(p) && p + q == [p[0]] + q;
      SortedCons(p[0], q);
    }
  }

  /** Lines 97 to 106. */
  method Heapsort(a: array<int>, size: nat)
    requires size <= a.Length
    modifies a
    ensures Sorted(a[..size])
    ensures multiset(a[..size]) == multiset(old(a[..size])) && a[size..] == old(a[size..])
  {
    var heapSize := size;
    BuildMaxHeap(a, size);
    ghost var p, q, rest := a[..size], [], a[size..];
    assert q + rest == rest && p + q == p;
    var i: int := size - 1;
    while i >= 1
      invariant -1 <= i && heapSize == i + 1 <= size && |p| == heapSize
      invariant Layout(a[..], p, q, rest) && |p| + |q| == size
      invariant multiset(p + q) == multiset(old(a[..size]))
    {
      p, q := SortRound(a, heapSize, p, q, rest);
      heapSize := heapSize - 1;
      i := i - 1;
    }
    SortedHeapOfOne(p, q);
    SplitLayout(a[..], p, q, rest);
  }
}
