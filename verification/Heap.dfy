/** The in-place max-heap shared by the priority queue and heap sort. Line numbers are those of
    course/algorithm/src/sort/priority_queue.c; course/algorithm/src/sort/heap-sort.c repeats
    the same functions. */
module Heap {
  import opened Sorting

  /** C's `(i - 1) / 2`, which truncates toward zero. */
  function Parent(i: nat): nat {
    if i == 0 then 0 else (i - 1) / 2
  }

  function Left(i: nat): nat { 2 * i + 1 }

  function Right(i: nat): nat { 2 * i + 2 }

  /** The parent link of `c` is in order. */
  ghost predicate Ordered(s: seq<int>, c: nat)
    requires c < |s|
  {
    s[Parent(c)] >= s[c]
  }

  /** Every link below a node numbered `k` or more is in order. */
  ghost predicate HeapFrom(s: seq<int>, k: nat) {
    forall c :: 1 <= c < |s| && Parent(c) >= k ==> Ordered(s, c)
  }

  ghost predicate IsHeap(s: seq<int>) {
    HeapFrom(s, 0)
  }

  /** In terms of the cells: no number exceeds the one it hangs below. */
  lemma HeapByCells(s: seq<int>)
    ensures IsHeap(s) <==> forall i :: 0 <= i < |s| ==>
              (2 * i + 1 < |s| ==> s[i] >= s[2 * i + 1]) && (2 * i + 2 < |s| ==> s[i] >= s[2 * i + 2])
  {
    forall i | 0 <= i < |s| && IsHeap(s)
      ensures (2 * i + 1 < |s| ==> s[i] >= s[2 * i + 1]) && (2 * i + 2 < |s| ==> s[i] >= s[2 * i + 2])
    {
      assert 2 * i + 1 < |s| ==> Ordered(s, 2 * i + 1);
      assert 2 * i + 2 < |s| ==> Ordered(s, 2 * i + 2);
    }
  }

  /** Like `HeapFrom(s, k)`, but the links from `i` to its children may be broken; the
      parent of `i` is then known to dominate those children. */
  ghost predicate BrokenBelow(s: seq<int>, k: nat, i: nat) {
    && (forall c :: 1 <= c < |s| && Parent(c) >= k && Parent(c) != i ==> Ordered(s, c))
    && (i > 0 && Parent(i) >= k ==> forall c :: 1 <= c < |s| && Parent(c) == i ==> s[Parent(i)] >= s[c])
  }

  /** Lines 21 to 26, on two cells of the first `n`. */
  method Swap(a: array<int>, n: nat, i: nat, j: nat)
    requires i < n <= a.Length && j < n
    modifies a
    ensures a[..n] == Swapped(old(a[..n]), i, j)
    ensures multiset(a[..n]) == multiset(old(a[..n]))
    ensures a[n..] == old(a[n..])
  {
    a[i], a[j] := a[j], a[i];
    assert a[..n] == Swapped(old(a[..n]), i, j);
    SwapKeepsBag(old(a[..n]), i, j);
  }

  /** The largest of a node and its children inside the heap. */
  ghost predicate IsLargest(s: seq<int>, i: nat, m: nat) {
    && i < |s| && m < |s| && (m == i || (Parent(m) == i && m > 0)) && s[m] >= s[i]
    && forall c :: 1 <= c < |s| && Parent(c) == i ==> s[m] >= s[c]
  }

  lemma SiftDownStep(s: seq<int>, k: nat, i: nat, m: nat)
    requires k <= i && BrokenBelow(s, k, i) && IsLargest(s, i, m) && m != i
    ensures BrokenBelow(Swapped(s, i, m), k, m)
  {
  }

  /** Lines 65 to 78: a heap broken only below `i` is repaired, permuting the heap part alone. */
  method MaxHeapify(a: array<int>, heapSize: nat, i: nat, ghost k: nat)
    requires heapSize <= a.Length && k <= i && BrokenBelow(a[..heapSize], k, i)
    modifies a
    ensures HeapFrom(a[..heapSize], k)
    ensures multiset(a[..heapSize]) == multiset(old(a[..heapSize]))
    ensures a[heapSize..] == old(a[heapSize..])
    decreases heapSize - i
  {
    ghost var s := a[..heapSize];
    var l, r := Left(i), Right(i);
    var largest := i;
    if l < heapSize && a[l] > a[i] {
      largest := l;
    }
    if r < heapSize && a[r] > a[largest] {
      largest := r;
    }
    if i != largest {
      SiftDownStep(s, k, i, largest);
      Swap(a, heapSize, i, largest);
      MaxHeapify(a, heapSize, largest, k);
    }
  }

  /** Lines 86 to 91: any array becomes a heap of the same elements. */
  method BuildMaxHeap(a: array<int>, size: nat)
    requires size <= a.Length
    modifies a
    ensures IsHeap(a[..size])
    ensures multiset(a[..size]) == multiset(old(a[..size]))
    ensures a[size..] == old(a[size..])
  {
    var i: int := Parent(size);
    while i >= 0
      invariant -1 <= i && HeapFrom(a[..size], (i + 1) as nat)
      invariant multiset(a[..size]) == multiset(old(a[..size]))
      invariant a[size..] == old(a[size..])
    {
      MaxHeapify(a, size, i, i);
      i := i - 1;
    }
  }

  /** The root of a heap is its maximum. */
  lemma {:induction false} RootIsMax(s: seq<int>, c: nat)
    requires IsHeap(s) && c < |s|
    ensures s[0] >= s[c]
  {
    if c > 0 {
      RootIsMax(s, Parent(c));
      assert Ordered(s, c);
    }
  }

  lemma RootDominates(s: seq<int>)
    requires IsHeap(s) && s != []
    ensures s[0] in multiset(s) && forall x :: x in multiset(s) ==> x <= s[0]
  {
    forall x | x in multiset(s) ensures x <= s[0] {
      var c :| 0 <= c < |s| && s[c] == x;
      RootIsMax(s, c);
    }
  }

  lemma WithoutRoot(s: seq<int>, t: seq<int>)
    requires s != [] && t == s[0 := s[|s| - 1]][..|s| - 1]
    ensures multiset(t) == multiset(s) - multiset{s[0]}
  {
    var n := |s| - 1;
    if n > 0 {
      var middle := s[1..n];
      assert s == [s[0]] + middle + [s[n]];
      assert t == [s[n]] + middle;
    } else {
      assert s == [s[0]];
    }
  }

  /** Overwriting the root by the last element takes exactly the root out of the bag. */
  lemma LastToRoot(s: seq<int>, t: seq<int>)
    requires IsHeap(s) && s != [] && t == s[0 := s[|s| - 1]][..|s| - 1]
    ensures BrokenBelow(t, 0, 0) && multiset(t) == multiset(s) - multiset{s[0]}
  {
    WithoutRoot(s, t);
    forall c | 1 <= c < |t| && Parent(c) != 0 ensures Ordered(t, c) {
      assert Ordered(s, c);
    }
  }

  // ---------- Raising a key ----------

  /** Every link in order except possibly those that touch `i`, around which the parent
      still dominates the children. */
  ghost predicate BrokenAt(s: seq<int>, i: nat) {
    && (forall c :: 1 <= c < |s| && c != i && Parent(c) != i ==> Ordered(s, c))
    && (i > 0 && i < |s| ==> forall c :: 1 <= c < |s| && Parent(c) == i ==> s[Parent(i)] >= s[c])
  }

  ghost predicate ChildrenAtMost(s: seq<int>, i: nat, k: int) {
    forall c :: 1 <= c < |s| && Parent(c) == i ==> s[c] <= k
  }

  /** In a heap no link is broken, so the key at any place may be replaced. */
  lemma HeapIsNowhereBroken(s: seq<int>, i: nat)
    requires IsHeap(s)
    ensures BrokenAt(s, i)
  {
    forall c | 1 <= c < |s| && Parent(c) == i && i > 0 ensures s[Parent(i)] >= s[c] {
      assert Ordered(s, c) && Ordered(s, i);
    }
  }

  /** A key that shrinks below a child leaves no heap: 3 in place of the 5 above a 4. */
  lemma ShrunkenKeyBreaksHeap()
    ensures var s := [5, 4];
      IsHeap(s) && BrokenAt(s, 0) && !ChildrenAtMost(s, 0, 3) && !IsHeap(s[0 := 3])
  {
    var s := [5, 4];
    assert IsHeap(s);
    HeapIsNowhereBroken(s, 0);
    assert !Ordered(s[0 := 3], 1) && Parent(1) == 0;
  }

  lemma SiftUpStep(s: seq<int>, i: nat)
    requires 0 < i < |s| && BrokenAt(s, i) && s[Parent(i)] < s[i]
    ensures ChildrenAtMost(s, i, s[i])
    ensures BrokenAt(Swapped(s, Parent(i), i), Parent(i))
    ensures ChildrenAtMost(Swapped(s, Parent(i), i), Parent(i), s[i])
  {
  }

  lemma SiftUpDone(s: seq<int>, i: nat)
    requires i < |s| && BrokenAt(s, i) && (i > 0 ==> s[Parent(i)] >= s[i])
    ensures IsHeap(s) <==> ChildrenAtMost(s, i, s[i])
  {
  }

  /** Lines 104 to 108. */
  method SiftUp(a: array<int>, size: nat, i0: nat)
    requires i0 < size <= a.Length && BrokenAt(a[..size], i0)
    modifies a
    ensures IsHeap(a[..size]) <==> ChildrenAtMost(old(a[..size]), i0, old(a[i0]))
    ensures multiset(a[..size]) == multiset(old(a[..size])) && a[size..] == old(a[size..])
  {
    var i: nat, p := i0, Parent(i0);
    ghost var s, k := a[..size], a[i0];
    assert s[i0] == k;
    while i > 0 && a[p] < a[i]
      invariant i < size && p == Parent(i) && a[..size] == s && a[size..] == old(a[size..])
      invariant BrokenAt(s, i) && s[i] == k && multiset(s) == multiset(old(a[..size]))
      invariant ChildrenAtMost(s, i, k) <==> ChildrenAtMost(old(a[..size]), i0, k)
    {
      SiftUpStep(s, i);
      s := Swapped(s, p, i);
      Swap(a, size, p, i);
      i := p;
      p := Parent(i);
    }
    SiftUpDone(s, i);
  }

  /** Lines 100 to 109. The new key may even be smaller: the result is a heap exactly when
      no child of `i` exceeds it. */
  method IncreaseToK(a: array<int>, size: nat, i0: nat, k: int)
    requires i0 < size <= a.Length && BrokenAt(a[..size], i0)
    modifies a
    ensures IsHeap(a[..size]) <==> ChildrenAtMost(old(a[..size]), i0, k)
    ensures multiset(a[..size]) == multiset(old(a[..size])[i0 := k])
    ensures a[size..] == old(a[size..])
  {
    a[i0] := k;
    assert a[..size] == old(a[..size])[i0 := k];
    SiftUp(a, size, i0);
  }
}
