/** Quicksort with a random pivot that recurses on `[begin, mid]`, the pivot included
    (course/algorithm/src/sort/quick-sort.c). */
module QuickSort {
  import opened Sequences
  import opened Sorting

  // ---------- Partition ----------

  /** A rearranged range and the index that divides it. */
  datatype Cut = Cut(cells: seq<int>, mid: nat)

  datatype TwoRanges = TwoRanges(low: seq<int>, high: seq<int>)

  /** The test of line 50: as written, or as the comment beside it allows. */
  datatype Test = AsWritten | Strict

  ghost predicate GoesLeft(test: Test, x: int, pivot: int) {
    if test.AsWritten? then x <= pivot else x < pivot
  }

  /** The range and the two indices at the head of a pass of the loop; the pivot is the last
      element. */
  datatype Head = Head(cells: seq<int>, left: nat, right: nat) {
    ghost predicate Inside() { left <= right < |cells| }
  }

  /** Lines 50 to 53 and the step to the next pass. */
  ghost function Next(test: Test, h: Head): (h': Head)
    requires h.Inside()
    ensures |h'.cells| == |h.cells| && h'.left <= h'.right == h.right + 1
  {
    if GoesLeft(test, h.cells[h.right], h.cells[|h.cells| - 1])
    then Head(Swapped(h.cells, h.left, h.right), h.left + 1, h.right + 1)
    else Head(h.cells, h.left, h.right + 1)
  }

  /** The loop of lines 47 to 54, from a head on. */
  ghost function Scan(test: Test, h: Head): (r: Cut)
    requires h.Inside()
    ensures |r.cells| == |h.cells| && r.mid < |h.cells|
    decreases |h.cells| - h.right
  {
    if h.right == |h.cells| - 1 then Cut(h.cells, h.left) else Scan(test, Next(test, h))
  }

  /** The loop begins with the pivot, chosen at `p`, moved to the end. */
  ghost function FirstHead(s: seq<int>, p: nat): (h: Head)
    requires p < |s|
    ensures h.Inside() && |h.cells| == |s|
  {
    Head(Swapped(s, p, |s| - 1), 0, 0)
  }

  /** Line 55: the pivot moves from the end to the divider. */
  ghost function Placed(r: Cut): (r': Cut)
    requires r.mid < |r.cells|
    ensures |r'.cells| == |r.cells| && r'.mid == r.mid
  {
    Cut(Swapped(r.cells, |r.cells| - 1, r.mid), r.mid)
  }

  /** Lines 41 to 57 on a range of its own, with the pivot chosen at `p`. */
  ghost function Partition(test: Test, s: seq<int>, p: nat): (r: Cut)
    requires p < |s|
    ensures |r.cells| == |s| && r.mid < |s|
  {
    Placed(Scan(test, FirstHead(s, p)))
  }

  /** Cells below `left` pass the test against `v`, cells from `left` to `right` do not, and
      the range ends in the pivot `v`. */
  ghost predicate Scanned(test: Test, h: Head, v: int) {
    && h.Inside() && h.cells[|h.cells| - 1] == v
    && (forall k :: 0 <= k < h.left ==> GoesLeft(test, h.cells[k], v))
    && (forall k :: h.left <= k < h.right ==> !GoesLeft(test, h.cells[k], v))
  }

  lemma NextSplits(test: Test, h: Head, v: int)
    requires Scanned(test, h, v) && h.right < |h.cells| - 1
    ensures Scanned(test, Next(test, h), v)
  {
  }

  lemma {:induction false} ScanKeepsBag(test: Test, h: Head)
    requires h.Inside()
    ensures multiset(Scan(test, h).cells) == multiset(h.cells)
    decreases |h.cells| - h.right
  {
    if h.right < |h.cells| - 1 {
      SwapKeepsBag(h.cells, h.left, h.right);
      ScanKeepsBag(test, Next(test, h));
    }
  }

  /** The scan ends with the numbers on either side of the divider split by the pivot. */
  lemma {:induction false} ScanSplits(test: Test, h: Head, v: int)
    requires Scanned(test, h, v)
    ensures var r := Scan(test, h); Scanned(test, Head(r.cells, r.mid, |h.cells| - 1), v)
    decreases |h.cells| - h.right
  {
    if h.right < |h.cells| - 1 {
      NextSplits(test, h, v);
      ScanSplits(test, Next(test, h), v);
    }
  }

  /** Permuted, with the pivot `v` between what passes the test against it and what does not. */
  ghost predicate Partitioned(test: Test, bag: multiset<int>, n: nat, v: int, r: Cut) {
    && |r.cells| == n && r.mid < n && multiset(r.cells) == bag && r.cells[r.mid] == v
    && (forall k :: 0 <= k < r.mid ==> GoesLeft(test, r.cells[k], v))
    && (forall k :: r.mid < k < n ==> !GoesLeft(test, r.cells[k], v))
  }

  lemma PlacePivot(test: Test, bag: multiset<int>, n: nat, v: int, r: Cut)
    requires n > 0 && |r.cells| == n && multiset(r.cells) == bag && Scanned(test, Head(r.cells, r.mid, n - 1), v)
    ensures Partitioned(test, bag, n, v, Placed(r))
  {
  }

  lemma ScanThenPlace(test: Test, h: Head, bag: multiset<int>, n: nat, v: int)
    requires Scanned(test, h, v) && bag == multiset(h.cells) && n == |h.cells|
    ensures Partitioned(test, bag, n, v, Placed(Scan(test, h)))
  {
    ScanKeepsBag(test, h);
    ScanSplits(test, h, v);
    PlacePivot(test, bag, n, v, Scan(test, h));
  }

  lemma StartsSplit(test: Test, s: seq<int>, p: nat, h: Head)
    requires p < |s| && h == FirstHead(s, p)
    ensures Scanned(test, h, s[p]) && multiset(h.cells) == multiset(s) && |h.cells| == |s|
  {
    SwapKeepsBag(s, p, |s| - 1);
  }

  /** `partition` splits the range by its pivot, whichever that is. */
  lemma PartitionSplits(test: Test, s: seq<int>, p: nat)
    requires p < |s|
    ensures Partitioned(test, multiset(s), |s|, s[p], Partition(test, s, p))
  {
    var h := FirstHead(s, p);
    StartsSplit(test, s, p, h);
    ScanThenPlace(test, h, multiset(s), |s|, s[p]);
  }

  /** The pivot chosen at `p` is exceeded by some number of the range. */
  ghost predicate Exceeded(s: seq<int>, p: nat)
    requires p < |s|
  {
    exists k :: 0 <= k < |s| && s[k] > s[p]
  }

  /** The left part is smaller than the whole exactly when the pivot is not a maximum. */
  lemma ShrinksUnlessMax(s: seq<int>, p: nat)
    requires p < |s|
    ensures Partition(AsWritten, s, p).mid + 1 < |s| <==> Exceeded(s, p)
  {
    PartitionSplits(AsWritten, s, p);
    var t, m := Partition(AsWritten, s, p).cells, Partition(AsWritten, s, p).mid;
    if m + 1 < |s| {
      assert t[m + 1] in multiset(s);
    }
    if k :| 0 <= k < |s| && s[k] > s[p] {
      assert s[k] in multiset(t);
    }
  }

  /** The two ranges that lines 71 and 72 recurse on. */
  ghost function Parts(test: Test, s: seq<int>, p: nat): (r: TwoRanges)
    requires p < |s|
    ensures |r.low| + |r.high| == |s|
  {
    var r := Partition(test, s, p);
    TwoRanges(r.cells[..r.mid + 1], r.cells[r.mid + 1..])
  }

  // ---------- What the partition leaves, number by number ----------

  /** The numbers that passed the test and those that failed, each as the loop leaves them. */
  datatype Sides = Sides(passed: seq<int>, failed: seq<int>)

  ghost function Rotated(s: seq<int>): (r: seq<int>)
    ensures |r| == |s|
  {
    if s == [] then [] else s[1..] + [s[0]]
  }

  ghost function SiftOne(test: Test, r: Sides, x: int, v: int): Sides {
    if GoesLeft(test, x, v) then Sides(r.passed + [x], Rotated(r.failed)) else Sides(r.passed, r.failed + [x])
  }

  /** One number after the other: what passes joins the passed ones in order, and the first of
      the failed ones moves behind the others. */
  ghost function Sift(test: Test, xs: seq<int>, v: int): (r: Sides)
    ensures |r.passed| + |r.failed| == |xs|
  {
    if xs == [] then Sides([], [])
    else SiftOne(test, Sift(test, xs[..|xs| - 1], v), xs[|xs| - 1], v)
  }

  lemma SiftNext(test: Test, xs: seq<int>, k: nat, next: nat, v: int)
    requires next == k + 1 <= |xs|
    ensures Sift(test, xs[..next], v) == SiftOne(test, Sift(test, xs[..k], v), xs[k], v)
  {
    assert xs[..next][..k] == xs[..k] && xs[..next][k] == xs[k];
  }

  /** The numbers that pass stand first, in the order they had. */
  ghost function Passing(test: Test, xs: seq<int>, v: int): seq<int> {
    if xs == [] then [] else (if GoesLeft(test, xs[0], v) then [xs[0]] else []) + Passing(test, xs[1..], v)
  }

  lemma {:induction false} PassingLast(test: Test, xs: seq<int>, x: int, v: int)
    ensures Passing(test, xs + [x], v) == Passing(test, xs, v) + if GoesLeft(test, x, v) then [x] else []
  {
    if xs == [] {
      assert [] + [x] == [x];
    } else {
      PassingLast(test, xs[1..], x, v);
      assert (xs + [x])[1..] == xs[1..] + [x];
    }
  }

  lemma {:induction false} PassedInOrder(test: Test, xs: seq<int>, v: int)
    ensures Sift(test, xs, v).passed == Passing(test, xs, v)
  {
    if xs != [] {
      var n := |xs| - 1;
      PassedInOrder(test, xs[..n], v);
      PassingLast(test, xs[..n], xs[n], v);
      assert xs == xs[..n] + [xs[n]];
    }
  }

  /** A head of the loop that began on `u`: the numbers before `right` are sifted, the others
      stand where they were. */
  ghost predicate SiftedTo(test: Test, u: seq<int>, v: int, h: Head, r: Sides) {
    && h.Inside() && |h.cells| == |u| && u[|u| - 1] == v
    && r == Sift(test, u[..h.right], v) && h.left == |r.passed|
    && h.cells == r.passed + (r.failed + u[h.right..])
  }

  lemma SwapSifts(passed: seq<int>, failed: seq<int>, x: int, rest: seq<int>)
    ensures Swapped(passed + (failed + ([x] + rest)), |passed|, |passed| + |failed|)
         == (passed + [x]) + (Rotated(failed) + rest)
  {
  }

  lemma NextSifts(test: Test, u: seq<int>, v: int, h: Head, r: Sides, x: int)
    requires SiftedTo(test, u, v, h, r) && h.right < |u| - 1 && x == u[h.right]
    ensures SiftedTo(test, u, v, Next(test, h), SiftOne(test, r, x, v))
  {
    var rest := u[h.right + 1..];
    assert u[h.right..] == [x] + rest;
    SiftNext(test, u, h.right, h.right + 1, v);
    assert h.cells[h.right] == x && h.cells[|u| - 1] == v;
    if GoesLeft(test, x, v) {
      SwapSifts(r.passed, r.failed, x, rest);
    } else {
      assert r.failed + ([x] + rest) == (r.failed + [x]) + rest;
    }
  }

  lemma {:induction false} ScanSifts(test: Test, u: seq<int>, v: int, h: Head, r: Sides)
    requires SiftedTo(test, u, v, h, r)
    ensures var q := Sift(test, u[..|u| - 1], v); Scan(test, h) == Cut(q.passed + (q.failed + [v]), |q.passed|)
    decreases |h.cells| - h.right
  {
    if h.right < |u| - 1 {
      NextSifts(test, u, v, h, r, u[h.right]);
      ScanSifts(test, u, v, Next(test, h), SiftOne(test, r, u[h.right], v));
    } else {
      assert u[h.right..] == [v];
    }
  }

  /** All numbers but the pivot, the last one in the place that the pivot left. */
  ghost function Others(s: seq<int>, p: nat): (xs: seq<int>)
    requires p < |s|
    ensures |xs| == |s| - 1
  {
    if p == |s| - 1 then s[..p] else s[..p] + [s[|s| - 1]] + s[p + 1..|s| - 1]
  }

  lemma StartsSifted(test: Test, s: seq<int>, p: nat)
    requires p < |s|
    ensures FirstHead(s, p).cells == Others(s, p) + [s[p]]
    ensures SiftedTo(test, Others(s, p) + [s[p]], s[p], FirstHead(s, p), Sides([], []))
  {
    var u := Others(s, p) + [s[p]];
    assert FirstHead(s, p).cells == u;
    assert u[..0] == [] && u[0..] == u && [] + ([] + u) == u;
  }

  lemma PlaceSifts(passed: seq<int>, failed: seq<int>, v: int)
    ensures Placed(Cut(passed + (failed + [v]), |passed|)) == Cut(passed + [v] + Rotated(failed), |passed|)
  {
  }

  /** What `partition` leaves, cell by cell, and the index it returns. */
  lemma PartitionArranges(test: Test, s: seq<int>, p: nat, r: Sides)
    requires p < |s| && r == Sift(test, Others(s, p), s[p])
    ensures Partition(test, s, p) == Cut(r.passed + [s[p]] + Rotated(r.failed), |r.passed|)
    ensures r.passed == Passing(test, Others(s, p), s[p])
  {
    var u := Others(s, p) + [s[p]];
    StartsSifted(test, s, p);
    ScanSifts(test, u, s[p], FirstHead(s, p), Sides([], []));
    assert u[..|u| - 1] == Others(s, p);
    PlaceSifts(r.passed, r.failed, s[p]);
    PassedInOrder(test, Others(s, p), s[p]);
  }

  /** The left range ends with the pivot, and the right one is all that failed. */
  lemma PartsArrange(test: Test, s: seq<int>, p: nat, r: Sides)
    requires p < |s| && r == Sift(test, Others(s, p), s[p])
    ensures Parts(test, s, p) == TwoRanges(r.passed + [s[p]], Rotated(r.failed))
  {
    PartitionArranges(test, s, p, r);
    var t := r.passed + [s[p]] + Rotated(r.failed);
    assert t[..|r.passed| + 1] == r.passed + [s[p]] && t[|r.passed| + 1..] == Rotated(r.failed);
  }

  lemma PartitionOfFour()
    ensures Partition(AsWritten, [3, 2, 4, 1], 1) == Cut([1, 2, 4, 3], 1)
  {
    var s, xs := [3, 2, 4, 1], [3, 1, 4];
    assert Others(s, 1) == xs;
    assert xs[..0] == [] && xs[..3] == xs;
    SiftNext(AsWritten, xs, 0, 1, 2);
    SiftNext(AsWritten, xs, 1, 2, 2);
    SiftNext(AsWritten, xs, 2, 3, 2);
    PartitionArranges(AsWritten, s, 1, Sides([1], [3, 4]));
  }

  // ---------- What the comments in the loop say ----------

  /** The heads of all passes, from `h` on. */
  ghost function Heads(test: Test, h: Head): seq<Head>
    requires h.Inside()
    decreases |h.cells| - h.right
  {
    if h.right == |h.cells| - 1 then [] else [h] + Heads(test, Next(test, h))
  }

  lemma {:induction false} HeadsSplit(test: Test, first: Head, v: int, h: Head)
    requires Scanned(test, first, v) && h in Heads(test, first)
    ensures Scanned(test, h, v)
    decreases |first.cells| - first.right
  {
    if h != first {
      NextSplits(test, first, v);
      HeadsSplit(test, Next(test, first), v, h);
    }
  }

  /** At every head, for every pivot and either test, the cells before `left` have passed the
      test and those from `left` up to `right` have not. */
  lemma LoopSplits(test: Test, s: seq<int>, p: nat, h: Head)
    requires p < |s| && h in Heads(test, FirstHead(s, p))
    ensures Scanned(test, h, s[p])
  {
    HeadsSplit(test, FirstHead(s, p), s[p], h);
  }

  /** The comments of lines 48 and 49, which count the cell at `left` on the other side. */
  ghost predicate Comments(h: Head, v: int) {
    && h.left < |h.cells| && h.right <= |h.cells|
    && (forall k :: 0 <= k <= h.left ==> h.cells[k] <= v)
    && (forall k :: h.left < k < h.right ==> h.cells[k] > v)
  }

  ghost predicate CommentsThroughout(heads: seq<Head>, v: int) {
    forall h :: h in heads ==> Comments(h, v)
  }

  /** As long as nothing exceeds the pivot, `left` keeps up with `right` and nothing moves. */
  lemma {:induction false} CommentsFrom(s: seq<int>, k: nat, v: int)
    requires k < |s| && s[|s| - 1] == v && forall i :: 0 <= i < k ==> s[i] <= v
    ensures CommentsThroughout(Heads(AsWritten, Head(s, k, k)), v) <==> forall i :: 0 <= i < |s| ==> s[i] <= v
    decreases |s| - k
  {
    if k < |s| - 1 {
      var h := Head(s, k, k);
      var heads := Heads(AsWritten, h);
      assert heads[0] == h && heads[0] in heads;
      if s[k] <= v {
        CommentsFrom(s, k + 1, v);
        assert Swapped(s, k, k) == s;
        assert heads == [h] + Heads(AsWritten, Head(s, k + 1, k + 1));
        assert Comments(h, v);
      }
    }
  }

  /** The comments hold at every head exactly when the pivot is a maximum of the range. */
  lemma CommentsHoldIffMax(s: seq<int>, p: nat)
    requires p < |s|
    ensures CommentsThroughout(Heads(AsWritten, FirstHead(s, p)), s[p]) <==> !Exceeded(s, p)
  {
    var n := |s| - 1;
    var u := FirstHead(s, p).cells;
    CommentsFrom(u, 0, s[p]);
    assert forall k :: 0 <= k < |s| ==> s[k] == u[if k == p then n else if k == n then p else k];
  }

  /** With 2, 1 and the pivot 1 they fail at the first head, where the cell at `left` is 2. */
  lemma CommentsFail()
    ensures var h := Head([2, 1], 0, 0); h in Heads(AsWritten, FirstHead([2, 1], 1)) && !Comments(h, 1)
  {
    var s := [2, 1];
    assert Swapped(s, 1, 1) == s;
    assert Heads(AsWritten, FirstHead(s, 1))[0] == Head(s, 0, 0);
    assert s[0] == 2;
  }

  // ---------- Runs ----------

  /** What a call does with the numbers that `rand` will deliver: it is still running when
      they are used up, or it has returned and left some over. */
  datatype Outcome = Running | Returned(result: seq<int>, rest: seq<nat>)

  ghost function After(l: seq<int>, r: Outcome): Outcome {
    if r.Running? then Running else Returned(l + r.result, r.rest)
  }

  /** Lines 66 to 74 on a range of its own. */
  ghost function Run(test: Test, s: seq<int>, rands: seq<nat>): (r: Outcome)
    ensures r.Returned? ==> |r.rest| <= |rands|
    decreases |rands|
  {
    if |s| <= 1 then Returned(s, rands)
    else if rands == [] then Running
    else
      var parts := Parts(test, s, rands[0] % |s|);
      var l := Run(test, parts.low, rands[1..]);
      if l.Running? then Running else After(l.result, Run(test, parts.high, l.rest))
  }

  ghost predicate AtMost(bag: multiset<int>, v: int) {
    forall x :: x in bag ==> x <= v
  }

  /** Nothing in the bag passes the test against `v`. */
  ghost predicate NoneLeft(test: Test, bag: multiset<int>, v: int) {
    forall x :: x in bag ==> !GoesLeft(test, x, v)
  }

  lemma SplitBags(test: Test, bag: multiset<int>, n: nat, v: int, r: Cut)
    requires Partitioned(test, bag, n, v, r)
    ensures multiset(r.cells[..r.mid + 1]) + multiset(r.cells[r.mid + 1..]) == bag
    ensures AtMost(multiset(r.cells[..r.mid + 1]), v) && NoneLeft(test, multiset(r.cells[r.mid + 1..]), v)
  {
    var low, high := r.cells[..r.mid + 1], r.cells[r.mid + 1..];
    assert r.cells == low + high;
    forall x | x in multiset(low) ensures x <= v {
      assert x in low;
    }
    forall x | x in multiset(high) ensures !GoesLeft(test, x, v) {
      assert x in high;
    }
  }

  /** The parts share the elements out on both sides of the pivot. */
  lemma PartsSplit(test: Test, s: seq<int>, p: nat)
    requires p < |s|
    ensures multiset(Parts(test, s, p).low) + multiset(Parts(test, s, p).high) == multiset(s)
    ensures AtMost(multiset(Parts(test, s, p).low), s[p]) && NoneLeft(test, multiset(Parts(test, s, p).high), s[p])
  {
    var r := Partition(test, s, p);
    PartitionSplits(test, s, p);
    SplitBags(test, multiset(s), |s|, s[p], r);
  }

  lemma JoinSorted(test: Test, l: seq<int>, r: seq<int>, v: int)
    requires Sorted(l) && Sorted(r) && AtMost(multiset(l), v) && NoneLeft(test, multiset(r), v)
    ensures Sorted(l + r)
  {
    forall i, j | 0 <= i < |l| && 0 <= j < |r| ensures l[i] <= r[j] {
      assert l[i] in multiset(l) && r[j] in multiset(r);
    }
  }

  lemma JoinDistinct(a: seq<int>, b: seq<int>, s: seq<int>, v: int)
    requires multiset(s) == multiset(a) + multiset(b) && AtMost(multiset(a), v) && NoneLeft(AsWritten, multiset(b), v)
    ensures Distinct(s) <==> Distinct(a) && Distinct(b)
  {
    DistinctIffBag(a);
    DistinctIffBag(b);
    DistinctIffBag(s);
    forall x
      ensures multiset(s)[x] == multiset(a)[x] + multiset(b)[x] && (multiset(a)[x] == 0 || multiset(b)[x] == 0)
    {
      if x <= v { assert x !in multiset(b); } else { assert x !in multiset(a); }
    }
  }

  /** Every run that returns leaves a sorted permutation, and with the test as written only
      ranges without repetitions ever return. */
  lemma {:induction false} ReturnedRunSorts(test: Test, s: seq<int>, rands: seq<nat>)
    requires Run(test, s, rands).Returned?
    ensures Sorted(Run(test, s, rands).result) && multiset(Run(test, s, rands).result) == multiset(s)
    ensures test.AsWritten? ==> Distinct(s)
    decreases |rands|
  {
    if |s| > 1 {
      var p := rands[0] % |s|;
      var a, b := Parts(test, s, p).low, Parts(test, s, p).high;
      PartsSplit(test, s, p);
      var l := Run(test, a, rands[1..]);
      ReturnedRunSorts(test, a, rands[1..]);
      ReturnedRunSorts(test, b, l.rest);
      JoinSorted(test, l.result, Run(test, b, l.rest).result, s[p]);
      if test.AsWritten? { JoinDistinct(a, b, s, s[p]); }
    }
  }

  /** A run divides its range by the first number and goes on with the rest. */
  lemma RunDivides(test: Test, s: seq<int>, rands: seq<nat>, parts: TwoRanges, tail: seq<nat>, l: Outcome)
    requires |s| > 1 && rands != [] && tail == rands[1..]
    requires parts == Parts(test, s, rands[0] % |s|) && l == Run(test, parts.low, tail)
    ensures Run(test, s, rands) == if l.Running? then Running else After(l.result, Run(test, parts.high, l.rest))
  {
  }

  /** Numbers that a run did not use make no difference to it. */
  lemma {:induction false} MoreRands(test: Test, s: seq<int>, rands: seq<nat>, more: seq<nat>, all: seq<nat>)
    requires Run(test, s, rands).Returned? && all == rands + more
    ensures Run(test, s, all) == Returned(Run(test, s, rands).result, Run(test, s, rands).rest + more)
    decreases |rands|
  {
    if |s| > 1 {
      var parts, tail, tail' := Parts(test, s, rands[0] % |s|), rands[1..], all[1..];
      var l := Run(test, parts.low, tail);
      var rest' := l.rest + more;
      assert all[0] == rands[0] && tail' == tail + more;
      MoreRands(test, parts.low, tail, more, tail');
      MoreRands(test, parts.high, l.rest, more, rest');
      RunDivides(test, s, all, parts, tail', Returned(l.result, rest'));
    }
  }

  lemma SmallModulus(p: nat, n: nat)
    requires p < n
    ensures p % n == p
  {
  }

  /** Runs of the two parts, one after the other, make a run of the whole. */
  lemma RunParts(test: Test, s: seq<int>, p: nat, ra: seq<nat>, rb: seq<nat>) returns (rands: seq<nat>)
    requires |s| > 1 && p < |s|
    requires Run(test, Parts(test, s, p).low, ra).Returned? && Run(test, Parts(test, s, p).low, ra).rest == []
    requires Run(test, Parts(test, s, p).high, rb).Returned? && Run(test, Parts(test, s, p).high, rb).rest == []
    ensures Run(test, s, rands).Returned? && Run(test, s, rands).rest == []
  {
    var low, high, both := Parts(test, s, p).low, Parts(test, s, p).high, ra + rb;
    rands := [p] + both;
    MoreRands(test, low, ra, rb, both);
    assert [] + rb == rb && rands[1..] == both;
    SmallModulus(p, |s|);
    assert Run(test, s, rands) == After(Run(test, low, both).result, Run(test, high, rb));
  }

  lemma {:induction false} Minimum(s: seq<int>) returns (p: nat)
    requires s != []
    ensures p < |s| && forall k :: 0 <= k < |s| ==> s[p] <= s[k]
  {
    if |s| == 1 {
      p := 0;
    } else {
      var q := Minimum(s[1..]);
      p := if s[0] <= s[q + 1] then 0 else q + 1;
      forall k | 0 < k < |s| ensures s[q + 1] <= s[k] {
        assert s[1..][q] <= s[1..][k - 1];
      }
    }
  }

  /** With the strict test a minimum leaves everything else on the right. */
  lemma MinimumShrinks(s: seq<int>) returns (p: nat)
    requires |s| >= 2
    ensures p < |s| && Partition(Strict, s, p).mid + 1 < |s|
  {
    p := Minimum(s);
    PartitionSplits(Strict, s, p);
    var t, m := Partition(Strict, s, p).cells, Partition(Strict, s, p).mid;
    assert t[0] in multiset(s);
  }

  /** Some pivot makes both ranges smaller, unless numbers are repeated and the test is as written. */
  lemma SomePivotShrinks(test: Test, s: seq<int>) returns (p: nat)
    requires |s| >= 2 && (test.Strict? || Distinct(s))
    ensures p < |s| && Partition(test, s, p).mid + 1 < |s|
  {
    if test.Strict? {
      p := MinimumShrinks(s);
    } else {
      p := if s[0] < s[1] then 0 else 1;
      assert Exceeded(s, p);
      ShrinksUnlessMax(s, p);
    }
  }

  /** A range returns if `rand` picks a pivot that shrinks it every time. */
  lemma {:induction false} CanReturn(test: Test, s: seq<int>) returns (rands: seq<nat>)
    requires test.Strict? || Distinct(s)
    ensures Run(test, s, rands).Returned? && Run(test, s, rands).rest == []
    decreases |s|
  {
    rands := [];
    if |s| > 1 {
      var p := SomePivotShrinks(test, s);
      var a, b := Parts(test, s, p).low, Parts(test, s, p).high;
      PartsSplit(test, s, p);
      if test.AsWritten? { JoinDistinct(a, b, s, s[p]); }
      var ra := CanReturn(test, a);
      var rb := CanReturn(test, b);
      rands := RunParts(test, s, p, ra, rb);
    }
  }

  /** Quicksort can return at all exactly when no number occurs twice: equal numbers are
      never separated, and a range of two or more never counts as sorted. */
  lemma ReturnsIffDistinct(s: seq<int>)
    ensures (exists rands :: Run(AsWritten, s, rands).Returned?) <==> Distinct(s)
  {
    if rands :| Run(AsWritten, s, rands).Returned? {
      ReturnedRunSorts(AsWritten, s, rands);
    }
    if Distinct(s) {
      var rands := CanReturn(AsWritten, s);
    }
  }

  /** The comment at line 50 allows the strict test instead, and this repairs the program: for
      every range, repetitions included, some run returns. */
  lemma StrictTestCanReturn(s: seq<int>)
    ensures exists rands :: Run(Strict, s, rands).Returned?
  {
    var rands := CanReturn(Strict, s);
  }

  /** Two equal numbers keep the program running, whatever `rand` delivers. */
  lemma EqualPairNeverReturns(rands: seq<nat>)
    ensures Run(AsWritten, [1, 1], rands).Running?
  {
    var s := [1, 1];
    assert s[0] == s[1];
    if Run(AsWritten, s, rands).Returned? { ReturnedRunSorts(AsWritten, s, rands); }
  }

  // ---------- What a run costs ----------

  /** No range that the run divides has its maximum as the pivot. */
  ghost predicate NoMaxPivot(s: seq<int>, rands: seq<nat>)
    decreases |rands|
  {
    |s| > 1 && rands != [] ==>
      var p := rands[0] % |s|;
      var parts := Parts(AsWritten, s, p);
      var l := Run(AsWritten, parts.low, rands[1..]);
      Exceeded(s, p) && NoMaxPivot(parts.low, rands[1..]) && (l.Returned? ==> NoMaxPivot(parts.high, l.rest))
  }

  /** How many of the numbers that `rand` delivers a run uses. */
  ghost function Used(s: seq<int>, rands: seq<nat>): nat
    requires Run(AsWritten, s, rands).Returned?
  {
    |rands| - |Run(AsWritten, s, rands).rest|
  }

  /** A run that returns divides at least one range less than there are numbers, and no more
      exactly when it never chose a maximum. */
  lemma {:induction false} RunUsesRands(s: seq<int>, rands: seq<nat>)
    requires Run(AsWritten, s, rands).Returned?
    ensures s == [] ==> Used(s, rands) == 0
    ensures s != [] ==> Used(s, rands) >= |s| - 1 && (Used(s, rands) == |s| - 1 <==> NoMaxPivot(s, rands))
    decreases |rands|
  {
    if |s| > 1 {
      var p := rands[0] % |s|;
      var parts := Parts(AsWritten, s, p);
      var l := Run(AsWritten, parts.low, rands[1..]);
      RunUsesRands(parts.low, rands[1..]);
      RunUsesRands(parts.high, l.rest);
      ShrinksUnlessMax(s, p);
      assert Used(s, rands) == 1 + Used(parts.low, rands[1..]) + Used(parts.high, l.rest);
    }
  }

  // ---------- In place ----------

  /** Lines 16 to 21, on two cells of the range that starts at `begin`. */
  method SwapCells(a: array<int>, begin: nat, i: nat, j: nat,
                   ghost pre: seq<int>, ghost s: seq<int>, ghost post: seq<int>)
    requires |pre| == begin && i < |s| && j < |s| && Reads(a[..], pre, s, post)
    modifies a
    ensures Reads(a[..], pre, Swapped(s, i, j), post)
  {
    ghost var cells := a[..];
    a[begin + i], a[begin + j] := a[begin + j], a[begin + i];
    assert a[..] == cells[begin + i := s[j]][begin + j := s[i]];
  }

  lemma ReadCell(cells: seq<int>, pre: seq<int>, s: seq<int>, post: seq<int>, i: nat)
    requires Reads(cells, pre, s, post) && i < |s|
    ensures |pre| + i < |cells| && cells[|pre| + i] == s[i]
  {
  }

  /** The loop of lines 45 to 54, with the pivot in the last cell. */
  method ScanRange(a: array<int>, begin: nat, end: nat, ghost pre: seq<int>, ghost s: seq<int>, ghost post: seq<int>)
      returns (left: nat)
    requires begin <= end && |pre| == begin && |s| == end - begin + 1 && Reads(a[..], pre, s, post)
    modifies a
    ensures Reads(a[..], pre, Scan(AsWritten, Head(s, 0, 0)).cells, post)
    ensures left == begin + Scan(AsWritten, Head(s, 0, 0)).mid
  {
    ghost var h := Head(s, 0, 0);
    ReadCell(a[..], pre, s, post, end - begin);
    var midVal := a[end];
    left := begin;
    var right := begin;
    while right < end
      invariant begin <= left <= right <= end && h.left == left - begin && h.right == right - begin
      invariant |h.cells| == |s| && h.cells[end - begin] == midVal && Reads(a[..], pre, h.cells, post)
      invariant Scan(AsWritten, h) == Scan(AsWritten, Head(s, 0, 0))
    {
      ReadCell(a[..], pre, h.cells, post, right - begin);
      if a[right] <= midVal {
        SwapCells(a, begin, left - begin, right - begin, pre, h.cells, post);
        left := left + 1;
      }
      h := Next(AsWritten, h);
      right := right + 1;
    }
  }

  /** Lines 41 to 57; `rand` is the number that line 31 draws. */
  method PartitionRange(a: array<int>, begin: nat, end: nat, rand: nat,
                        ghost pre: seq<int>, ghost s: seq<int>, ghost post: seq<int>) returns (mid: nat)
    requires begin <= end && |pre| == begin && |s| == end - begin + 1 && Reads(a[..], pre, s, post)
    modifies a
    ensures begin <= mid <= end && mid == begin + Partition(AsWritten, s, rand % |s|).mid
    ensures Reads(a[..], pre, Partition(AsWritten, s, rand % |s|).cells, post)
  {
    var randIdx := rand % (end - begin + 1) + begin;
    SwapCells(a, begin, randIdx - begin, end - begin, pre, s, post);
    ghost var t := Swapped(s, randIdx - begin, end - begin);
    mid := ScanRange(a, begin, end, pre, t, post);
    SwapCells(a, begin, end - begin, mid - begin, pre, Scan(AsWritten, Head(t, 0, 0)).cells, post);
  }

  lemma PartitionKeepsBag(pre: seq<int>, s: seq<int>, post: seq<int>, p: nat)
    requires p < |s|
    ensures Partition(AsWritten, s, p).cells == Parts(AsWritten, s, p).low + Parts(AsWritten, s, p).high
    ensures multiset(pre + Partition(AsWritten, s, p).cells + post) == multiset(pre + s + post)
  {
    PartitionSplits(AsWritten, s, p);
  }

  /** Lines 66 to 74; `rands` are the numbers that `rand` delivers, and `done` says that the
      call returned before they ran out. Returned or not, the cells are only permuted. */
  method Quiksort(a: array<int>, begin: nat, end: int, rands: seq<nat>,
                  ghost pre: seq<int>, ghost s: seq<int>, ghost post: seq<int>)
      returns (done: bool, rest: seq<nat>)
    requires |pre| == begin && |s| == end - begin + 1 && Reads(a[..], pre, s, post)
    modifies a
    ensures done <==> Run(AsWritten, s, rands).Returned?
    ensures done ==> Reads(a[..], pre, Run(AsWritten, s, rands).result, post) && rest == Run(AsWritten, s, rands).rest
    ensures multiset(a[..]) == multiset(old(a[..]))
    decreases |rands|, 0
  {
    if begin >= end {
      return true, rands;
    }
    if rands == [] {
      return false, [];
    }
    ghost var p := rands[0] % |s|;
    ghost var x, y := Parts(AsWritten, s, p).low, Parts(AsWritten, s, p).high;
    var mid := PartitionRange(a, begin, end, rands[0], pre, s, post);
    PartitionKeepsBag(pre, s, post, p);
    done, rest := SortParts(a, begin, mid, end, rands[1..], pre, x, y, post);
  }

  lemma SameLength(s: seq<int>, rands: seq<nat>)
    requires Run(AsWritten, s, rands).Returned?
    ensures |Run(AsWritten, s, rands).result| == |s|
  {
    ReturnedRunSorts(AsWritten, s, rands);
    assert |multiset(s)| == |s|;
  }

  /** Lines 71 and 72. */
  method SortParts(a: array<int>, begin: nat, mid: nat, end: int, rands: seq<nat>,
                   ghost pre: seq<int>, ghost x: seq<int>, ghost y: seq<int>, ghost post: seq<int>)
      returns (done: bool, rest: seq<nat>)
    requires |pre| == begin && |x| == mid - begin + 1 && |y| == end - mid && Reads(a[..], pre, x + y, post)
    modifies a
    ensures done <==> Run(AsWritten, x, rands).Returned? && Run(AsWritten, y, Run(AsWritten, x, rands).rest).Returned?
    ensures done ==>
      var l := Run(AsWritten, x, rands);
      var r := Run(AsWritten, y, l.rest);
      Reads(a[..], pre, l.result + r.result, post) && rest == r.rest
    ensures multiset(a[..]) == multiset(old(a[..]))
    decreases |rands|, 1
  {
    Regroup(a[..], pre, x, y, post);
    done, rest := Quiksort(a, begin, mid, rands, pre, x, y + post);
    if done {
      ghost var l := Run(AsWritten, x, rands).result;
      SameLength(x, rands);
      Regroup(a[..], pre, l, y, post);
      ghost var rands' := rest;
      done, rest := Quiksort(a, mid + 1, end, rest, pre + l, y, post);
      if done {
        Regroup(a[..], pre, l, Run(AsWritten, y, rands').result, post);
      }
    }
  }
}
