/** Merge sort with sentinels (course/algorithm/src/sort/merge-sort.c). Numbers carry a tag
    that says where they came from. */
module MergeSort {
  import opened CInt
  import opened Sequences
  import opened Sorting
  import opened StableMerge

  datatype Item = Item(key: int, origin: int)

  datatype Option<+T> = None | Some(value: T)

  /** The sentinel of lines 30 and 31. */
  const SENTINEL: Item := Item(INT_MAX, -1)

  ghost function KeyOf(x: Item): int { x.key }

  ghost function Keys(s: seq<Item>): (ks: seq<int>)
    ensures |ks| == |s| && forall i :: 0 <= i < |s| ==> ks[i] == s[i].key
  {
    seq(|s|, i requires 0 <= i < |s| => s[i].key)
  }

  ghost function Tagged(s: seq<int>): (items: seq<Item>)
    ensures Keys(items) == s && forall i :: 0 <= i < |s| ==> items[i] == Item(s[i], i)
  {
    var items := seq(|s|, i requires 0 <= i < |s| => Item(s[i], i));
    assert Keys(items) == s;
    items
  }

  /** Every number fits a C int from above. */
  ghost predicate Fits(s: seq<Item>) {
    forall i :: 0 <= i < |s| ==> s[i].key <= INT_MAX
  }

  ghost predicate BelowMax(s: seq<Item>) {
    forall i :: 0 <= i < |s| ==> s[i].key < INT_MAX
  }

  // ---------- The merge loop ----------

  ghost function Push(x: Item, m: Option<seq<Item>>): Option<seq<Item>> {
    match m
    case None => None
    case Some(s) => Some([x] + s)
  }

  /** The loop of lines 39 to 47 with `k` cells still to fill, on halves that end in a
      sentinel; `None` when an index runs past its half. */
  ghost function MergeLoop(l: seq<Item>, r: seq<Item>, i: nat, j: nat, k: nat): (m: Option<seq<Item>>)
    ensures m.Some? ==> |m.value| == k
    decreases k
  {
    if k == 0 then Some([])
    else if i >= |l| || j >= |r| then None
    else if l[i].key <= r[j].key then Push(l[i], MergeLoop(l, r, i + 1, j, k - 1))
    else Push(r[j], MergeLoop(l, r, i, j + 1, k - 1))
  }

  ghost function MergeHalves(l: seq<Item>, r: seq<Item>): Option<seq<Item>> {
    MergeLoop(l + [SENTINEL], r + [SENTINEL], 0, 0, |l| + |r|)
  }

  /** What is still to merge once `i` and `j` items have been copied. */
  ghost function Rest(l: seq<Item>, r: seq<Item>, i: nat, j: nat): (m: seq<Item>)
    requires i <= |l| && j <= |r|
    ensures i == |l| && j == |r| ==> m == []
  {
    Merge(KeyOf, l[i..], r[j..])
  }

  lemma RestAtStart(l: seq<Item>, r: seq<Item>)
    ensures Rest(l, r, 0, 0) == Merge(KeyOf, l, r)
  {
    assert l[0..] == l && r[0..] == r;
  }

  lemma RestStep(l: seq<Item>, r: seq<Item>, i: nat, j: nat)
    requires i <= |l| && j <= |r| && (i < |l| || j < |r|)
    ensures if i < |l| && (j == |r| || l[i].key <= r[j].key) then Rest(l, r, i, j) == [l[i]] + Rest(l, r, i + 1, j)
            else Rest(l, r, i, j) == [r[j]] + Rest(l, r, i, j + 1)
  {
    if i < |l| { assert l[i..] == [l[i]] + l[i + 1..]; }
    if j < |r| { assert r[j..] == [r[j]] + r[j + 1..]; }
  }

  /** With nothing as large as the sentinel on the right, neither index reaches past its
      sentinel, no sentinel is copied, and the loop is the stable merge. */
  lemma {:induction false} LoopIsMerge(l: seq<Item>, r: seq<Item>, i: nat, j: nat)
    requires i <= |l| && j <= |r| && Fits(l) && BelowMax(r)
    ensures MergeLoop(l + [SENTINEL], r + [SENTINEL], i, j, |l| - i + |r| - j) == Some(Rest(l, r, i, j))
    decreases |l| - i + |r| - j
  {
    if i < |l| || j < |r| { RestStep(l, r, i, j); }
    if i < |l| && (j == |r| || l[i].key <= r[j].key) {
      LoopIsMerge(l, r, i + 1, j);
    } else if j < |r| {
      LoopIsMerge(l, r, i, j + 1);
    }
  }

  /** One largest number at the end of the right half is replaced by the left sentinel. */
  lemma {:induction false} LoopCopiesSentinel(l: seq<Item>, r: seq<Item>, x: Item, i: nat, j: nat)
    requires i <= |l| && j <= |r| && Fits(l) && BelowMax(r) && x.key == INT_MAX
    ensures MergeLoop(l + [SENTINEL], r + [x] + [SENTINEL], i, j, |l| - i + |r| - j + 1)
         == Some(Rest(l, r, i, j) + [SENTINEL])
    decreases |l| - i + |r| - j
  {
    if i < |l| && (j == |r| || l[i].key <= r[j].key) {
      RestStep(l, r, i, j);
      LoopCopiesSentinel(l, r, x, i + 1, j);
      Assoc([l[i]], Rest(l, r, i + 1, j), [SENTINEL]);
    } else if j < |r| {
      RestStep(l, r, i, j);
      LoopCopiesSentinel(l, r, x, i, j + 1);
      Assoc([r[j]], Rest(l, r, i, j + 1), [SENTINEL]);
    } else {
      assert MergeLoop(l + [SENTINEL], r + [x] + [SENTINEL], i + 1, j, 0) == Some([]);
      assert [] + [SENTINEL] == [SENTINEL] + [];
    }
  }

  /** Two largest numbers on the right take the left index past its sentinel. */
  lemma {:induction false} LoopOverruns(l: seq<Item>, r: seq<Item>, i: nat, j: nat)
    requires i <= |l| && j + 2 <= |r| && Fits(l) && Fits(r) && SortedBy(KeyOf, r)
    requires r[|r| - 2].key == INT_MAX
    ensures MergeLoop(l + [SENTINEL], r + [SENTINEL], i, j, |l| - i + |r| - j) == None
    decreases |l| - i + |r| - j
  {
    if i < |l| && l[i].key <= r[j].key {
      LoopOverruns(l, r, i + 1, j);
    } else if r[j].key < INT_MAX {
      assert j < |r| - 2;
      LoopOverruns(l, r, i, j + 1);
    } else {
      assert MergeLoop(l + [SENTINEL], r + [SENTINEL], |l| + 1, j, |r| - j - 1) == None;
    }
  }

  /** How often the largest number occurs. */
  ghost function MaxCount(s: seq<Item>): nat {
    multiset(Keys(s))[INT_MAX]
  }

  lemma KeysConcat(a: seq<Item>, b: seq<Item>)
    ensures Keys(a + b) == Keys(a) + Keys(b)
  {
  }

  lemma {:induction false} MergeKeys(l: seq<Item>, r: seq<Item>)
    ensures multiset(Keys(Merge(KeyOf, l, r))) == multiset(Keys(l)) + multiset(Keys(r))
    decreases |l| + |r|
  {
    if l != [] && r != [] {
      var x, m;
      if l[0].key <= r[0].key {
        x, m := l[0], Merge(KeyOf, l[1..], r);
        MergeKeys(l[1..], r);
        KeysConcat([x], l[1..]);
        assert l == [x] + l[1..];
      } else {
        x, m := r[0], Merge(KeyOf, l, r[1..]);
        MergeKeys(l, r[1..]);
        KeysConcat([x], r[1..]);
        assert r == [x] + r[1..];
      }
      KeysConcat([x], m);
    }
  }

  lemma {:induction false} NoMaxCount(s: seq<Item>)
    requires Fits(s)
    ensures MaxCount(s) == 0 <==> BelowMax(s)
  {
  }

  ghost predicate SortedKeys(m: seq<Item>, keys: multiset<int>) {
    Fits(m) && SortedBy(KeyOf, m) && multiset(Keys(m)) == keys
  }

  /** A sorted sequence keeps its largest numbers at the end. */
  lemma SplitLast(r: seq<Item>) returns (r0: seq<Item>, x: Item)
    requires Fits(r) && SortedBy(KeyOf, r) && !BelowMax(r)
    ensures r == r0 + [x] && Fits(r0) && SortedBy(KeyOf, r0) && x.key == INT_MAX
    ensures MaxCount(r) == MaxCount(r0) + 1
  {
    var i :| 0 <= i < |r| && r[i].key == INT_MAX;
    r0, x := r[..|r| - 1], r[|r| - 1];
    KeysConcat(r0, [x]);
  }

  lemma MergeSortsKeys(l: seq<Item>, r: seq<Item>)
    requires Fits(l) && Fits(r) && SortedBy(KeyOf, l) && SortedBy(KeyOf, r)
    ensures SortedKeys(Merge(KeyOf, l, r), multiset(Keys(l)) + multiset(Keys(r)))
  {
    var m := Merge(KeyOf, l, r);
    MergeSorted(KeyOf, l, r);
    MergeKeys(l, r);
    forall i | 0 <= i < |m| ensures m[i].key <= INT_MAX {
      assert Keys(m)[i] in multiset(Keys(m));
    }
  }

  lemma AppendMax(m: seq<Item>, x: Item, keys: multiset<int>, r0: seq<Item>)
    requires x.key == INT_MAX && SortedKeys(m, keys + multiset(Keys(r0)))
    ensures SortedKeys(m + [SENTINEL], keys + multiset(Keys(r0 + [x])))
  {
    KeysConcat(m, [SENTINEL]);
    KeysConcat(r0, [x]);
  }

  /** The merge overruns exactly when the right half holds the largest number twice; when it
      does not, the numbers come out sorted. */
  ghost predicate Outcome(l: seq<Item>, r: seq<Item>) {
    && (MergeHalves(l, r).Some? <==> MaxCount(r) <= 1)
    && (MergeHalves(l, r).Some? ==> SortedKeys(MergeHalves(l, r).value, multiset(Keys(l)) + multiset(Keys(r))))
  }

  lemma MergeWithTwoMax(l: seq<Item>, r0: seq<Item>, x: Item)
    requires Fits(l) && Fits(r0) && SortedBy(KeyOf, r0 + [x]) && x.key == INT_MAX && !BelowMax(r0)
    ensures MergeHalves(l, r0 + [x]) == None
  {
    var r := r0 + [x];
    var i :| 0 <= i < |r0| && r0[i].key == INT_MAX;
    assert KeyOf(r[i]) <= KeyOf(r[|r| - 2]);
    LoopOverruns(l, r, 0, 0);
  }

  lemma MergeNoMax(l: seq<Item>, r: seq<Item>)
    requires Fits(l) && BelowMax(r)
    ensures MergeHalves(l, r) == Some(Merge(KeyOf, l, r))
  {
    LoopIsMerge(l, r, 0, 0);
    RestAtStart(l, r);
  }

  lemma MergeBelowSentinel(l: seq<Item>, r: seq<Item>)
    requires Fits(l) && BelowMax(r) && SortedBy(KeyOf, l) && SortedBy(KeyOf, r)
    ensures MergeHalves(l, r) == Some(Merge(KeyOf, l, r))
    ensures SortedKeys(Merge(KeyOf, l, r), multiset(Keys(l)) + multiset(Keys(r)))
  {
    MergeNoMax(l, r);
    MergeSortsKeys(l, r);
  }

  lemma MergeOneMax(l: seq<Item>, r0: seq<Item>, x: Item)
    requires Fits(l) && BelowMax(r0) && x.key == INT_MAX
    ensures MergeHalves(l, r0 + [x]) == Some(Merge(KeyOf, l, r0) + [SENTINEL])
  {
    LoopCopiesSentinel(l, r0, x, 0, 0);
    RestAtStart(l, r0);
  }

  lemma MergeWithOneMax(l: seq<Item>, r0: seq<Item>, x: Item)
    requires Fits(l) && BelowMax(r0) && SortedBy(KeyOf, l) && SortedBy(KeyOf, r0) && x.key == INT_MAX
    ensures MergeHalves(l, r0 + [x]).Some?
    ensures SortedKeys(MergeHalves(l, r0 + [x]).value, multiset(Keys(l)) + multiset(Keys(r0 + [x])))
  {
    MergeOneMax(l, r0, x);
    MergeSortsKeys(l, r0);
    AppendMax(Merge(KeyOf, l, r0), x, multiset(Keys(l)), r0);
  }

  lemma MergeHalvesOutcome(l: seq<Item>, r: seq<Item>)
    requires Fits(l) && Fits(r) && SortedBy(KeyOf, l) && SortedBy(KeyOf, r)
    ensures Outcome(l, r)
  {
    if BelowMax(r) {
      NoMaxCount(r);
      MergeBelowSentinel(l, r);
    } else {
      var r0, x := SplitLast(r);
      NoMaxCount(r0);
      if BelowMax(r0) {
        MergeWithOneMax(l, r0, x);
      } else {
        MergeWithTwoMax(l, r0, x);
      }
    }
  }

  // ---------- The whole sort ----------

  /** Lines 64 and 65: the left half takes the extra number of an odd count. */
  ghost function LeftHalf(s: seq<Item>): (l: seq<Item>)
    requires |s| >= 2
    ensures |l| == (|s| + 1) / 2 && l == s[..(|s| + 1) / 2]
  {
    s[..(|s| - 1) / 2 + 1]
  }

  ghost function RightHalf(s: seq<Item>): (r: seq<Item>)
    requires |s| >= 2
    ensures |r| == |s| / 2 && r == s[(|s| + 1) / 2..]
  {
    s[(|s| - 1) / 2 + 1..]
  }

  ghost function MergeRuns(l: Option<seq<Item>>, r: Option<seq<Item>>): Option<seq<Item>> {
    if l.Some? && r.Some? then MergeHalves(l.value, r.value) else None
  }

  /** Lines 60 to 69 on a range of its own; `None` when some merge leaves its bounds. */
  ghost function SortRun(s: seq<Item>): (m: Option<seq<Item>>)
    ensures m.Some? ==> |m.value| == |s|
    decreases |s|
  {
    if |s| <= 1 then Some(s) else MergeRuns(SortRun(LeftHalf(s)), SortRun(RightHalf(s)))
  }

  /** The first `m` numbers are divided at `(m + 1) / 2`, and so are the numbers before: none of
      the right halves holds the largest number twice. */
  ghost predicate RightHalvesFitUpTo(s: seq<Item>, m: nat)
    requires m <= |s|
    decreases m
  {
    m <= 1 || (MaxCount(s[(m + 1) / 2..m]) <= 1 && RightHalvesFitUpTo(s, (m + 1) / 2))
  }

  ghost predicate RightHalvesFit(s: seq<Item>) {
    RightHalvesFitUpTo(s, |s|)
  }

  /** Only the first `m` numbers count. */
  lemma {:induction false} FitOfPrefix(s: seq<Item>, t: seq<Item>, m: nat)
    requires m <= |t| <= |s| && t == s[..|t|]
    ensures RightHalvesFitUpTo(t, m) <==> RightHalvesFitUpTo(s, m)
    decreases m
  {
    if m > 1 {
      FitOfPrefix(s, t, (m + 1) / 2);
      assert t[(m + 1) / 2..m] == s[(m + 1) / 2..m];
    }
  }

  lemma FitOfHalves(s: seq<Item>)
    requires |s| >= 2
    ensures RightHalvesFit(s) <==> RightHalvesFit(LeftHalf(s)) && MaxCount(RightHalf(s)) <= 1
  {
    FitOfPrefix(s, LeftHalf(s), (|s| + 1) / 2);
    assert s[(|s| + 1) / 2..|s|] == RightHalf(s);
  }

  lemma KeysOfHalves(s: seq<Item>)
    requires |s| >= 2
    ensures s == LeftHalf(s) + RightHalf(s)
    ensures multiset(Keys(s)) == multiset(Keys(LeftHalf(s))) + multiset(Keys(RightHalf(s)))
  {
    assert s == LeftHalf(s) + RightHalf(s);
    KeysConcat(LeftHalf(s), RightHalf(s));
  }

  /** Halves of a half that fits need no attention. */
  lemma {:induction false} FewMaxFit(s: seq<Item>)
    requires MaxCount(s) <= 1
    ensures RightHalvesFit(s)
    decreases |s|
  {
    if |s| > 1 {
      KeysOfHalves(s);
      FewMaxFit(LeftHalf(s));
      FitOfHalves(s);
    }
  }

  /** Merge sort stays in bounds exactly when no right half holds the largest number twice,
      and every run that stays in bounds sorts the numbers. */
  lemma {:induction false} SortRunOutcome(s: seq<Item>)
    requires Fits(s)
    ensures SortRun(s).Some? <==> RightHalvesFit(s)
    ensures SortRun(s).Some? ==> SortedKeys(SortRun(s).value, multiset(Keys(s)))
    decreases |s|
  {
    if |s| > 1 {
      var a, b := LeftHalf(s), RightHalf(s);
      SortRunOutcome(a);
      SortRunOutcome(b);
      KeysOfHalves(s);
      FitOfHalves(s);
      var l, r := SortRun(a), SortRun(b);
      if l.Some? && r.Some? {
        MergeHalvesOutcome(l.value, r.value);
      }
      if MaxCount(b) <= 1 { FewMaxFit(b); }
    }
  }

  /** Four numbers that fit a C int and make the last merge leave its bounds. */
  lemma TwoMaxOnTheRight()
    ensures var s := Tagged([0, 0, 0x7FFF_FFFF, 0x7FFF_FFFF]);
      Fits(s) && !RightHalvesFit(s) && SortRun(s) == None
  {
    var s := Tagged([0, 0, 0x7FFF_FFFF, 0x7FFF_FFFF]);
    assert Keys(s[2..4]) == [INT_MAX, INT_MAX];
    SortRunOutcome(s);
  }

  /** Without the first of them one of the two largest numbers falls to the left half, and all is well. */
  lemma OneMaxOnEachSide()
    ensures var s := Tagged([0, 0x7FFF_FFFF, 0x7FFF_FFFF]); Fits(s) && RightHalvesFit(s) && SortRun(s).Some?
  {
    var s := Tagged([0, 0x7FFF_FFFF, 0x7FFF_FFFF]);
    assert Keys(s[2..3]) == [INT_MAX] && Keys(s[1..2]) == [INT_MAX];
    assert RightHalvesFitUpTo(s, 2) by { assert RightHalvesFitUpTo(s, 1); }
    SortRunOutcome(s);
  }

  lemma MergeBelowMax(l: seq<Item>, r: seq<Item>)
    requires BelowMax(l) && BelowMax(r)
    ensures BelowMax(Merge(KeyOf, l, r))
  {
  }

  lemma MergeStableHalves(l: seq<Item>, r: seq<Item>, v: int)
    requires BelowMax(l) && BelowMax(r) && SortedBy(KeyOf, l) && SortedBy(KeyOf, r)
    ensures MergeHalves(l, r).Some?
    ensures var m := MergeHalves(l, r).value;
      && SortedBy(KeyOf, m) && BelowMax(m) && multiset(m) == multiset(l) + multiset(r)
      && WithKey(KeyOf, v, m) == WithKey(KeyOf, v, l) + WithKey(KeyOf, v, r)
  {
    MergeBelowSentinel(l, r);
    MergeStable(KeyOf, v, l, r);
    MergeBag(KeyOf, l, r);
    MergeBelowMax(l, r);
  }

  /** Below the sentinel the sort is total and stable: it permutes the tagged numbers and
      keeps the order of equal ones. */
  lemma {:induction false} SortRunStable(s: seq<Item>, v: int)
    requires BelowMax(s)
    ensures SortRun(s).Some? && SortedBy(KeyOf, SortRun(s).value) && BelowMax(SortRun(s).value)
    ensures multiset(SortRun(s).value) == multiset(s)
    ensures WithKey(KeyOf, v, SortRun(s).value) == WithKey(KeyOf, v, s)
    decreases |s|
  {
    if |s| > 1 {
      var a, b := LeftHalf(s), RightHalf(s);
      SortRunStable(a, v);
      SortRunStable(b, v);
      KeysOfHalves(s);
      WithKeyConcat(KeyOf, v, a, b);
      MergeStableHalves(SortRun(a).value, SortRun(b).value, v);
    }
  }

  ghost predicate TiesInOrder(m: seq<Item>) {
    forall a, b :: 0 <= a < b < |m| && m[a].key == m[b].key ==> m[a].origin < m[b].origin
  }

  /** Every number comes with the position it had, and equal ones keep their positions' order. */
  ghost predicate KeepsOrder(s: seq<int>, m: seq<Item>) {
    && (forall a :: 0 <= a < |m| ==> 0 <= m[a].origin < |s| && m[a].key == s[m[a].origin])
    && TiesInOrder(m)
  }

  lemma SameOrder(m: seq<Item>, items: seq<Item>, v: int, a: nat, b: nat)
    requires a < b < |m| && m[a].key == m[b].key == v && forall i :: 0 <= i < |items| ==> items[i].origin == i
    requires WithKey(KeyOf, v, m) == WithKey(KeyOf, v, items)
    ensures m[a].origin < m[b].origin
  {
    var ps := WithKeyPositions(KeyOf, v, m);
    var qs := WithKeyPositions(KeyOf, v, items);
    assert KeyOf(m[a]) == v && KeyOf(m[b]) == v;
    var i :| 0 <= i < |ps| && ps[i] == a;
    var j :| 0 <= j < |ps| && ps[j] == b;
    assert i < j;
    assert m[a] == items[qs[i]] && m[b] == items[qs[j]];
  }

  lemma KeepsOrigins(s: seq<int>, items: seq<Item>, m: seq<Item>, a: nat)
    requires items == Tagged(s) && multiset(m) == multiset(items) && a < |m|
    ensures 0 <= m[a].origin < |s| && m[a].key == s[m[a].origin]
  {
    assert m[a] in multiset(m);
    assert m[a] in items;
  }

  lemma StableRunKeepsTies(items: seq<Item>)
    requires BelowMax(items) && forall i :: 0 <= i < |items| ==> items[i].origin == i
    ensures SortRun(items).Some? && TiesInOrder(SortRun(items).value)
  {
    SortRunStable(items, 0);
    var m := SortRun(items).value;
    forall a, b | 0 <= a < b < |m| && m[a].key == m[b].key ensures m[a].origin < m[b].origin {
      SortRunStable(items, m[a].key);
      SameOrder(m, items, m[a].key, a, b);
    }
  }

  lemma TaggedSortKeepsOrder(s: seq<int>)
    requires forall i :: 0 <= i < |s| ==> s[i] < INT_MAX
    ensures SortRun(Tagged(s)).Some? && KeepsOrder(s, SortRun(Tagged(s)).value)
  {
    var items := Tagged(s);
    assert BelowMax(items);
    SortRunStable(items, 0);
    StableRunKeepsTies(items);
    var m := SortRun(items).value;
    forall a | 0 <= a < |m| ensures 0 <= m[a].origin < |s| && m[a].key == s[m[a].origin] {
      KeepsOrigins(s, items, m, a);
    }
  }

  // ---------- In place ----------

  /** Lines 32 to 36 with the sentinel of lines 30 and 31: a half copied out. */
  method CopyHalf(a: array<int>, from: nat, len: nat) returns (half: array<int>)
    requires from + len <= a.Length
    ensures fresh(half) && half[..] == a[from..from + len] + [INT_MAX]
  {
    half := new int[len + 1];
    half[len] := INT_MAX;
    for i := 0 to len
      invariant half[len] == INT_MAX && half[..i] == a[from..from + i]
    {
      half[i] := a[from + i];
    }
  }

  lemma JoinCells(cells: seq<int>, i: nat, j: nat)
    requires i <= j <= |cells|
    ensures Reads(cells, cells[..i], cells[i..j], cells[j..])
  {
  }

  lemma ReadsParts(cells: seq<int>, pre: seq<int>, l: seq<int>, r: seq<int>, post: seq<int>)
    requires Reads(cells, pre, l + r, post)
    ensures var m, n := |pre| + |l|, |pre| + |l| + |r|;
      cells[..|pre|] == pre && cells[|pre|..m] == l && cells[m..n] == r && cells[n..] == post
  {
  }

  /** With `k` cells to fill, the loop has copied `done` of what it will copy in all. */
  ghost predicate Pending(l: seq<Item>, r: seq<Item>, i: nat, j: nat, k: nat, done: seq<Item>, merged: seq<Item>) {
    MergeLoop(l, r, i, j, k).Some? && merged == done + MergeLoop(l, r, i, j, k).value
  }

  /** The item that one pass of the loop copies. */
  lemma LoopStep(l: seq<Item>, r: seq<Item>, i: nat, j: nat, k: nat, done: seq<Item>, merged: seq<Item>)
      returns (x: Item)
    requires k > 0 && Pending(l, r, i, j, k, done, merged)
    ensures i < |l| && j < |r| && x == if l[i].key <= r[j].key then l[i] else r[j]
    ensures if l[i].key <= r[j].key then Pending(l, r, i + 1, j, k - 1, done + [x], merged)
            else Pending(l, r, i, j + 1, k - 1, done + [x], merged)
  {
    x := if l[i].key <= r[j].key then l[i] else r[j];
  }

  /** Lines 38 to 47, with `l` and `r` the halves that the scratch arrays hold. */
  method MergeInto(a: array<int>, start: nat, end: nat, lArray: array<int>, rArray: array<int>,
                   ghost l: seq<Item>, ghost r: seq<Item>)
    requires start <= end < a.Length && a != lArray && a != rArray
    requires Keys(l) == lArray[..] && Keys(r) == rArray[..]
    requires MergeLoop(l, r, 0, 0, end + 1 - start).Some?
    modifies a
    ensures a[start..end + 1] == Keys(MergeLoop(l, r, 0, 0, end + 1 - start).value)
    ensures a[..start] == old(a[..start]) && a[end + 1..] == old(a[end + 1..])
  {
    ghost var merged, done := MergeLoop(l, r, 0, 0, end + 1 - start).value, [];
    assert [] + merged == merged;
    var i: nat, j: nat := 0, 0;
    for k := start to end + 1
      invariant lArray[..] == Keys(l) && rArray[..] == Keys(r)
      invariant |done| == k - start && Pending(l, r, i, j, end + 1 - k, done, merged)
      invariant a[start..k] == Keys(done)
      invariant a[..start] == old(a[..start]) && a[end + 1..] == old(a[end + 1..])
    {
      ghost var x := LoopStep(l, r, i, j, end + 1 - k, done, merged);
      assert Keys(l)[i] == lArray[i] && Keys(r)[j] == rArray[j];
      if lArray[i] <= rArray[j] {
        a[k] := lArray[i];
        i := i + 1;
      } else {
        a[k] := rArray[j];
        j := j + 1;
      }
      KeysConcat(done, [x]);
      done := done + [x];
    }
  }

  /** Lines 21 to 51, on the range between `pre` and `post`. */
  method MergeRange(a: array<int>, start: nat, mid: nat, end: nat,
                    ghost pre: seq<int>, ghost l: seq<Item>, ghost r: seq<Item>, ghost post: seq<int>)
    requires |pre| == start && |l| == mid + 1 - start && |r| == end - mid && start <= mid < end
    requires Reads(a[..], pre, Keys(l) + Keys(r), post) && MergeHalves(l, r).Some?
    modifies a
    ensures Reads(a[..], pre, Keys(MergeHalves(l, r).value), post)
  {
    ReadsParts(a[..], pre, Keys(l), Keys(r), post);
    KeysConcat(l, [SENTINEL]);
    KeysConcat(r, [SENTINEL]);
    var lArray := CopyHalf(a, start, mid - start + 1);
    var rArray := CopyHalf(a, mid + 1, end - mid);
    MergeInto(a, start, end, lArray, rArray, l + [SENTINEL], r + [SENTINEL]);
    JoinCells(a[..], start, end + 1);
  }

  /** Lines 60 to 69, on the range `s` between `pre` and `post`. */
  method MergeSortRange(a: array<int>, start: nat, end: int,
                        ghost pre: seq<int>, ghost s: seq<Item>, ghost post: seq<int>)
    requires |pre| == start && |s| == end + 1 - start
    requires Reads(a[..], pre, Keys(s), post) && SortRun(s).Some?
    modifies a
    ensures Reads(a[..], pre, Keys(SortRun(s).value), post)
    decreases end - start
  {
    if start < end {
      var mid := (start + end) / 2;
      assert mid - start == (end - start) / 2;
      ghost var x, y := LeftHalf(s), RightHalf(s);
      ghost var l, r := SortRun(x).value, SortRun(y).value;
      assert s == x + y;
      KeysConcat(x, y);
      Regroup(a[..], pre, Keys(x), Keys(y), post);
      MergeSortRange(a, start, mid, pre, x, Keys(y) + post);
      Regroup(a[..], pre, Keys(l), Keys(y), post);
      MergeSortRange(a, mid + 1, end, pre + Keys(l), y, post);
      Regroup(a[..], pre, Keys(l), Keys(r), post);
      MergeRange(a, start, mid, end, pre, l, r, post);
    }
  }

  lemma KeysSorted(m: seq<Item>)
    requires SortedBy(KeyOf, m)
    ensures Sorted(Keys(m))
  {
    forall i, j | 0 <= i < j < |m| ensures Keys(m)[i] <= Keys(m)[j] {
      assert KeyOf(m[i]) <= KeyOf(m[j]);
    }
  }

  lemma AloneInArray(s: seq<int>)
    ensures forall cells :: Reads(cells, [], s, []) <==> cells == s
  {
    assert [] + s + [] == s;
  }

  /** As `main` calls it. Numbers below the sentinel always meet the condition. */
  method MergeSort(a: array<int>)
    requires forall i :: 0 <= i < a.Length ==> a[i] <= INT_MAX
    requires RightHalvesFit(Tagged(a[..]))
    modifies a
    ensures Sorted(a[..]) && multiset(a[..]) == multiset(old(a[..]))
  {
    ghost var items := Tagged(a[..]);
    SortRunOutcome(items);
    KeysSorted(SortRun(items).value);
    AloneInArray(a[..]);
    MergeSortRange(a, 0, a.Length - 1, [], items, []);
    AloneInArray(Keys(SortRun(items).value));
  }
}
