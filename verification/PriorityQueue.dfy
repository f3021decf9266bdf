/** The priority queue: a bag of integers kept as a max-heap in a fixed array
    (course/algorithm/src/sort/priority_queue.c). */
module PriorityQueue {
  import opened CInt
  import opened Heap

  ghost predicate IsMax(bag: multiset<int>, x: int) {
    x in bag && forall y :: y in bag ==> y <= x
  }

  /** Lines 124 and 126: the last of `n` cells takes the place of the root, and the others are
      made a heap again. */
  method DropRoot(a: array<int>, n: nat)
    requires 1 <= n <= a.Length && IsHeap(a[..n])
    modifies a
    ensures IsHeap(a[..n - 1]) && multiset(a[..n - 1]) == multiset(old(a[..n])) - multiset{old(a[0])}
  {
    ghost var s := a[..n];
    a[0] := a[n - 1];
    LastToRoot(s, a[..n - 1]);
    MaxHeapify(a, n - 1, 0, 0);
  }

  /** A fresh last cell disturbs no link but its own, and has no children. */
  lemma NewLeaf(s: seq<int>, v: int, x: int)
    requires IsHeap(s)
    ensures BrokenAt(s + [v], |s|) && ChildrenAtMost(s + [v], |s|, x)
    ensures multiset((s + [v])[|s| := x]) == multiset(s) + multiset{x}
  {
  }

  class PriorityQueue {
    var data: array<int>
    var size: nat

    ghost predicate Valid()
      reads this, data
    {
      size <= data.Length && IsHeap(data[..size])
    }

    ghost function Bag(): multiset<int>
      requires size <= data.Length
      reads this, data
    {
      multiset(data[..size])
    }

    /** `main` builds the heap out of an array that already holds `size` numbers. */
    constructor (a: array<int>, n: nat)
      requires n <= a.Length
      modifies a
      ensures Valid() && data == a && Bag() == multiset(old(a[..n])) && size == n
    {
      data, size := a, n;
      new;
      BuildMaxHeap(a, n);
    }

    method Top() returns (x: int)
      requires Valid() && size > 0
      ensures x == data[0] && IsMax(Bag(), x)
    {
      RootDominates(data[..size]);
      return data[0];
    }

    method Push(x: int)
      requires Valid() && size < data.Length
      modifies this`size, data
      ensures Valid() && size == old(size) + 1 && Bag() == old(Bag()) + multiset{x}
    {
      var i := size;
      ghost var s := data[..size];
      size := size + 1;
      data[i] := INT_MIN;
      assert data[..size] == s + [INT_MIN];
      NewLeaf(s, INT_MIN, x);
      IncreaseToK(data, size, i, x);
    }

    method Pop() returns (ret: int)
      requires Valid() && size > 0
      modifies this`size, data
      ensures Valid() && size == old(size) - 1
      ensures IsMax(old(Bag()), ret) && Bag() == old(Bag()) - multiset{ret}
    {
      ret := Top();
      DropRoot(data, size);
      size := size - 1;
    }
  }

  // ---------- Whole runs ----------

  datatype Op = Push(x: int) | Pop

  /** What a run answers, in terms of a bag alone: `outs` lists the popped numbers. */
  ghost predicate BagRun(bag: multiset<int>, ops: seq<Op>, outs: seq<int>, bag': multiset<int>)
    decreases |ops|
  {
    if ops == [] then outs == [] && bag' == bag
    else match ops[0]
      case Push(x) => BagRun(bag + multiset{x}, ops[1..], outs, bag')
      case Pop => outs != [] && IsMax(bag, outs[0]) && BagRun(bag - multiset{outs[0]}, ops[1..], outs[1..], bag')
  }

  lemma PushFirst(bag: multiset<int>, ops: seq<Op>, outs: seq<int>, bag': multiset<int>)
    requires ops != [] && ops[0].Push? && BagRun(bag + multiset{ops[0].x}, ops[1..], outs, bag')
    ensures BagRun(bag, ops, outs, bag')
  {
  }

  lemma PopFirst(bag: multiset<int>, ops: seq<Op>, x: int, outs: seq<int>, bag': multiset<int>)
    requires ops != [] && ops[0].Pop? && IsMax(bag, x) && BagRun(bag - multiset{x}, ops[1..], outs, bag')
    ensures BagRun(bag, ops, [x] + outs, bag')
  {
    assert ([x] + outs)[1..] == outs;
  }

  /** Every push finds room and every pop finds an element. */
  ghost predicate Legal(size: nat, capacity: nat, ops: seq<Op>)
    decreases |ops|
  {
    ops == [] ||
    match ops[0]
    case Push(_) => size < capacity && Legal(size + 1, capacity, ops[1..])
    case Pop => size > 0 && Legal(size - 1, capacity, ops[1..])
  }

  /** Any interleaving of pushes and pops, as in `main`, behaves like the bag. */
  method Run(q: PriorityQueue, ops: seq<Op>) returns (outs: seq<int>)
    requires q.Valid() && Legal(q.size, q.data.Length, ops)
    modifies q, q.data
    ensures q.Valid() && q.data == old(q.data)
    ensures BagRun(old(q.Bag()), ops, outs, q.Bag())
    decreases |ops|
  {
    if ops == [] {
      return [];
    }
    ghost var bag := q.Bag();
    match ops[0] {
      case Push(x) =>
        q.Push(x);
        outs := Run(q, ops[1..]);
        PushFirst(bag, ops, outs, q.Bag());
      case Pop =>
        var x := q.Pop();
        outs := Run(q, ops[1..]);
        PopFirst(bag, ops, x, outs, q.Bag());
        outs := [x] + outs;
    }
  }

  ghost predicate Descending(s: seq<int>) {
    forall i, j :: 0 <= i < j < |s| ==> s[i] >= s[j]
  }

  lemma DescendingCons(x: int, rest: seq<int>)
    requires Descending(rest) && forall y :: y in multiset(rest) ==> y <= x
    ensures Descending([x] + rest)
  {
    forall j | 0 <= j < |rest| ensures x >= rest[j] {
      assert rest[j] in multiset(rest);
    }
  }

  lemma PrependMax(bag: multiset<int>, x: int, rest: seq<int>)
    requires IsMax(bag, x) && multiset(rest) == bag - multiset{x} && Descending(rest)
    ensures multiset([x] + rest) == bag && Descending([x] + rest)
  {
    DescendingCons(x, rest);
  }

  /** Popping a queue empty lists its bag in descending order. */
  lemma {:induction false} DrainIsDescending(bag: multiset<int>, ops: seq<Op>, outs: seq<int>, bag': multiset<int>)
    requires |ops| == |bag| && (forall op :: op in ops ==> op == Pop)
    requires BagRun(bag, ops, outs, bag')
    ensures bag' == multiset{} && multiset(outs) == bag && Descending(outs)
    decreases |ops|
  {
    if ops != [] {
      assert ops[0] in ops;
      forall op | op in ops[1..] ensures op == Pop {
        assert op in ops;
      }
      DrainIsDescending(bag - multiset{outs[0]}, ops[1..], outs[1..], bag');
      PrependMax(bag, outs[0], outs[1..]);
      assert outs == [outs[0]] + outs[1..];
    }
  }

  ghost function Pushed(ops: seq<Op>): multiset<int> {
    if ops == [] then multiset{}
    else (if ops[0].Push? then multiset{ops[0].x} else multiset{}) + Pushed(ops[1..])
  }

  lemma PushBalances(bag: multiset<int>, x: int, pushed: multiset<int>, popped: multiset<int>, left: multiset<int>)
    requires (bag + multiset{x}) + pushed == popped + left
    ensures bag + (multiset{x} + pushed) == popped + left
  {
  }

  lemma PopBalances(bag: multiset<int>, x: int, pushed: multiset<int>, popped: multiset<int>, left: multiset<int>)
    requires x in bag && (bag - multiset{x}) + pushed == popped + left
    ensures bag + pushed == (multiset{x} + popped) + left
  {
    assert bag == (bag - multiset{x}) + multiset{x};
    assert bag + pushed == ((bag - multiset{x}) + pushed) + multiset{x};
  }

  /** Whatever the run, the numbers that went in are those popped and those still there. */
  lemma {:induction false} RunConserves(bag: multiset<int>, ops: seq<Op>, outs: seq<int>, bag': multiset<int>)
    requires BagRun(bag, ops, outs, bag')
    ensures bag + Pushed(ops) == multiset(outs) + bag'
    decreases |ops|
  {
    if ops != [] {
      var rest := ops[1..];
      match ops[0] {
        case Push(x) =>
          RunConserves(bag + multiset{x}, rest, outs, bag');
          PushBalances(bag, x, Pushed(rest), multiset(outs), bag');
        case Pop =>
          var x, more := outs[0], outs[1..];
          RunConserves(bag - multiset{x}, rest, more, bag');
          PopBalances(bag, x, Pushed(rest), multiset(more), bag');
          assert outs == [x] + more;
      }
    }
  }
}
