/** The sum of the exclusive ors of all sub-selections (course/algorithm/backtracking.md). */
module SubsetXor {
  import opened Sequences

  // ---------- Bitwise operations on two's-complement integers ----------

  ghost function Abs(a: int): nat {
    if a < 0 then -a else a
  }

  /** All bits of `a` are equal to its sign. */
  predicate AllSign(a: int) {
    a == 0 || a == -1
  }

  /** Bit by bit; `a / 2` shifts and `a % 2` takes the lowest bit, also for negative `a`. */
  function Xor(a: int, b: int): int
    decreases Abs(a) + Abs(b)
  {
    if AllSign(a) && AllSign(b) then (if a == b then 0 else -1)
    else 2 * Xor(a / 2, b / 2) + (if a % 2 == b % 2 then 0 else 1)
  }

  ghost function Or(a: int, b: int): int
    decreases Abs(a) + Abs(b)
  {
    if AllSign(a) && AllSign(b) then (if a == 0 && b == 0 then 0 else -1)
    else 2 * Or(a / 2, b / 2) + (if a % 2 == 0 && b % 2 == 0 then 0 else 1)
  }

  lemma XorBits(a: int, b: int)
    ensures Xor(a, b) / 2 == Xor(a / 2, b / 2)
    ensures Xor(a, b) % 2 == if a % 2 == b % 2 then 0 else 1
  {
  }

  lemma OrBits(a: int, b: int)
    ensures Or(a, b) / 2 == Or(a / 2, b / 2)
    ensures Or(a, b) % 2 == if a % 2 == 0 && b % 2 == 0 then 0 else 1
  {
  }

  ghost predicate FourWaysAdd(v: int, x: int, o: int) {
    v + Xor(v, o) + Xor(v, x) + Xor(Xor(v, x), o) == 2 * (v + Xor(v, Or(x, o)))
  }

  lemma HalfIsSmaller(a: int)
    ensures Abs(a / 2) <= Abs(a) && (!AllSign(a) ==> Abs(a / 2) < Abs(a))
  {
  }

  lemma DoubleUp(a: int, b: int, c: int, d: int, e: int)
    requires a / 2 + b / 2 + c / 2 + d / 2 == 2 * (a / 2 + e / 2)
    requires a % 2 + b % 2 + c % 2 + d % 2 == 2 * (a % 2 + e % 2)
    ensures a + b + c + d == 2 * (a + e)
  {
  }

  lemma FourBits(v: int, x: int, o: int, vo: int, vx: int, vxo: int, all: int)
    requires 0 <= v <= 1 && 0 <= x <= 1 && 0 <= o <= 1
    requires vo == (if v == o then 0 else 1) && vx == (if v == x then 0 else 1) && vxo == (if vx == o then 0 else 1)
    requires all == if v == (if x == 0 && o == 0 then 0 else 1) then 0 else 1
    ensures v + vo + vx + vxo == 2 * (v + all)
  {
  }

  lemma FourWaysDouble(v: int, x: int, o: int)
    requires FourWaysAdd(v / 2, x / 2, o / 2)
    ensures FourWaysAdd(v, x, o)
  {
    var vo, vx, xo := Xor(v, o), Xor(v, x), Or(x, o);
    XorBits(v, o);
    XorBits(v, x);
    XorBits(vx, o);
    OrBits(x, o);
    XorBits(v, xo);
    FourBits(v % 2, x % 2, o % 2, vo % 2, vx % 2, Xor(vx, o) % 2, Xor(v, xo) % 2);
    DoubleUp(v, vo, vx, Xor(vx, o), Xor(v, xo));
  }

  /** Flipping by `x` and by `o` in all four ways doubles flipping by both at once. */
  lemma {:induction false} FourWays(v: int, x: int, o: int)
    ensures FourWaysAdd(v, x, o)
    decreases Abs(v) + Abs(x) + Abs(o)
  {
    if !(AllSign(v) && AllSign(x) && AllSign(o)) {
      HalfIsSmaller(v);
      HalfIsSmaller(x);
      HalfIsSmaller(o);
      FourWays(v / 2, x / 2, o / 2);
      FourWaysDouble(v, x, o);
    }
  }

  // ---------- Selections ----------

  /** The exclusive or of the numbers that the mask selects. */
  ghost function XorOf(nums: seq<int>, mask: seq<bool>): int {
    if mask == [] then 0
    else
      var k := |mask| - 1;
      if mask[k] && k < |nums| then Xor(XorOf(nums, mask[..k]), nums[k]) else XorOf(nums, mask[..k])
  }

  ghost function OrAll(nums: seq<int>): int {
    if nums == [] then 0 else Or(nums[0], OrAll(nums[1..]))
  }

  /** The masks that extend `mask` by `k` choices, in the order the recursion visits them. */
  ghost function Leaves(mask: seq<bool>, k: nat): seq<seq<bool>>
    decreases k
  {
    if k == 0 then [mask] else Leaves(mask + [false], k - 1) + Leaves(mask + [true], k - 1)
  }

  /** The first choice in which two selections differ: `a` skips a number that `b` takes. */
  ghost predicate SkipsFirst(a: seq<bool>, b: seq<bool>) {
    exists k :: 0 <= k < |a| && k < |b| && a[..k] == b[..k] && !a[k] && b[k]
  }

  ghost predicate ExtendsBy(mask: seq<bool>, k: nat, m: seq<bool>) {
    |m| == |mask| + k && mask <= m
  }

  /** An extension starts with one choice or the other. */
  lemma ExtendsOneWay(mask: seq<bool>, k: nat, m: seq<bool>)
    requires k > 0
    ensures ExtendsBy(mask, k, m) ==>
              ExtendsBy(mask + [m[|mask|]], k - 1, m) && !ExtendsBy(mask + [!m[|mask|]], k - 1, m)
    ensures forall b :: ExtendsBy(mask + [b], k - 1, m) ==> ExtendsBy(mask, k, m)
  {
  }

  /** Every mask of the right length that extends `mask` is visited once, and no other. */
  lemma {:induction false} LeavesOnce(mask: seq<bool>, k: nat, m: seq<bool>)
    ensures multiset(Leaves(mask, k))[m] == if ExtendsBy(mask, k, m) then 1 else 0
    decreases k
  {
    if k > 0 {
      LeavesOnce(mask + [false], k - 1, m);
      LeavesOnce(mask + [true], k - 1, m);
      ExtendsOneWay(mask, k, m);
    } else if ExtendsBy(mask, k, m) {
      assert m == mask;
    }
  }

  lemma {:induction false} LeafExtends(mask: seq<bool>, k: nat, i: nat)
    requires i < |Leaves(mask, k)|
    ensures ExtendsBy(mask, k, Leaves(mask, k)[i])
  {
    LeavesOnce(mask, k, Leaves(mask, k)[i]);
    assert Leaves(mask, k)[i] in multiset(Leaves(mask, k));
  }

  /** The masks are visited in order: what is skipped comes before what is taken. */
  lemma {:induction false} LeavesInOrder(mask: seq<bool>, k: nat, i: nat, j: nat)
    requires i < j < |Leaves(mask, k)|
    ensures SkipsFirst(Leaves(mask, k)[i], Leaves(mask, k)[j])
    decreases k
  {
    var skip, take := mask + [false], mask + [true];
    var first, second := Leaves(skip, k - 1), Leaves(take, k - 1);
    if j < |first| {
      LeavesInOrder(skip, k - 1, i, j);
    } else if i >= |first| {
      LeavesInOrder(take, k - 1, i - |first|, j - |first|);
    } else {
      LeafExtends(skip, k - 1, i);
      LeafExtends(take, k - 1, j - |first|);
      var a, b, n := first[i], second[j - |first|], |mask|;
      assert a[..n] == mask == b[..n] && !a[n] && b[n];
    }
  }

  ghost function Total(nums: seq<int>, masks: seq<seq<bool>>): int {
    if masks == [] then 0 else XorOf(nums, masks[0]) + Total(nums, masks[1..])
  }

  ghost function Pow2(n: nat): nat {
    if n == 0 then 1 else 2 * Pow2(n - 1)
  }

  lemma {:induction false} LeavesCount(mask: seq<bool>, k: nat)
    ensures |Leaves(mask, k)| == Pow2(k)
    decreases k
  {
    if k > 0 {
      LeavesCount(mask + [false], k - 1);
      LeavesCount(mask + [true], k - 1);
    }
  }

  lemma {:induction false} TotalConcat(nums: seq<int>, a: seq<seq<bool>>, b: seq<seq<bool>>)
    ensures Total(nums, a + b) == Total(nums, a) + Total(nums, b)
  {
    if a == [] {
      assert a + b == b;
    } else {
      TotalConcat(nums, a[1..], b);
      assert (a + b)[1..] == a[1..] + b;
    }
  }

  /** `a`, doubled `k` times. */
  ghost function Doubled(k: nat, a: int): int {
    if k == 0 then a else 2 * Doubled(k - 1, a)
  }

  lemma {:induction false} DoubledAdds(k: nat, a: int, b: int)
    ensures Doubled(k, a) + Doubled(k, b) == Doubled(k, a + b)
  {
    if k > 0 { DoubledAdds(k - 1, a, b); }
  }

  lemma {:induction false} DoubledIsProduct(k: nat, a: int)
    ensures Doubled(k, a) == a * Pow2(k)
  {
    if k > 0 {
      DoubledIsProduct(k - 1, a);
      assert a * Pow2(k) == a * (2 * Pow2(k - 1)) == 2 * (a * Pow2(k - 1));
    }
  }

  /** Twice what the leaves below a node with value `v` add up to, when `k` numbers remain
      and their bitwise or is `o`: half of the leaves flip each bit of `o`. */
  ghost function TwiceBelow(v: int, o: int, k: nat): int {
    Doubled(k, v + Xor(v, o))
  }

  lemma FourWaysSum(v: int, x: int, o: int)
    ensures (v + Xor(v, o)) + (Xor(v, x) + Xor(Xor(v, x), o)) == 2 * (v + Xor(v, Or(x, o)))
  {
    FourWays(v, x, o);
  }

  lemma TwiceBelowStep(v: int, x: int, o: int, k: nat)
    requires k > 0
    ensures TwiceBelow(v, o, k - 1) + TwiceBelow(Xor(v, x), o, k - 1) == TwiceBelow(v, Or(x, o), k)
  {
    var a, b, c := v + Xor(v, o), Xor(v, x) + Xor(Xor(v, x), o), v + Xor(v, Or(x, o));
    FourWaysSum(v, x, o);
    DoubledAdds(k - 1, a, b);
    DoubledAdds(k - 1, c, c);
  }

  /** The sum of the leaves below a node with value `v` and the numbers `rest` to go. */
  ghost function Below(v: int, rest: seq<int>): int
    decreases |rest|
  {
    if rest == [] then v else Below(v, rest[1..]) + Below(Xor(v, rest[0]), rest[1..])
  }

  lemma {:induction false} XorZero(v: int)
    ensures Xor(v, 0) == v && Xor(0, v) == v
    decreases Abs(v)
  {
    if !AllSign(v) { XorZero(v / 2); }
  }

  lemma {:induction false} BelowClosedForm(v: int, rest: seq<int>)
    ensures 2 * Below(v, rest) == TwiceBelow(v, OrAll(rest), |rest|)
    decreases |rest|
  {
    if rest == [] {
      XorZero(v);
    } else {
      BelowClosedForm(v, rest[1..]);
      BelowClosedForm(Xor(v, rest[0]), rest[1..]);
      TwiceBelowStep(v, rest[0], OrAll(rest[1..]), |rest|);
    }
  }

  lemma XorOfExtended(nums: seq<int>, mask: seq<bool>)
    requires |mask| < |nums|
    ensures XorOf(nums, mask + [false]) == XorOf(nums, mask)
    ensures XorOf(nums, mask + [true]) == Xor(XorOf(nums, mask), nums[|mask|])
  {
  }

  lemma {:induction false} TotalOfLeaves(nums: seq<int>, mask: seq<bool>, k: nat)
    requires |mask| + k == |nums|
    ensures Total(nums, Leaves(mask, k)) == Below(XorOf(nums, mask), nums[|mask|..])
    decreases k
  {
    if k > 0 {
      var skip, take := mask + [false], mask + [true];
      TotalOfLeaves(nums, skip, k - 1);
      TotalOfLeaves(nums, take, k - 1);
      TotalConcat(nums, Leaves(skip, k - 1), Leaves(take, k - 1));
      XorOfExtended(nums, mask);
      assert nums[|mask|..][1..] == nums[|mask| + 1..];
    }
  }

  /** The leaves below a node are those below its two children, one after the other. */
  lemma VisitBothSides(before: seq<seq<bool>>, halfway: seq<seq<bool>>, after: seq<seq<bool>>,
                       mask: seq<bool>, skip: seq<bool>, take: seq<bool>, k: nat, left: nat)
    requires k == left + 1 && skip == mask + [false] && take == mask + [true]
    requires halfway == before + Leaves(skip, left) && after == halfway + Leaves(take, left)
    ensures after == before + Leaves(mask, k)
  {
    Assoc(before, Leaves(skip, left), Leaves(take, left));
  }

  // ---------- The program ----------

  /** The file-level variables; `visited` records the masks at which line 14 adds. */
  class Search {
    var nums: seq<int>
    var sum: int
    ghost var visited: seq<seq<bool>>

    ghost predicate Valid()
      reads this
    {
      sum == Total(nums, visited)
    }

    constructor (nums: seq<int>)
      ensures Valid() && this.nums == nums && sum == 0 && visited == []
    {
      this.nums, sum, visited := nums, 0, [];
    }

    /** Line 14: a leaf is reached. */
    method AddLeaf(value: int, ghost mask: seq<bool>)
      requires Valid() && value == XorOf(nums, mask)
      modifies this`sum, this`visited
      ensures Valid() && visited == old(visited) + [mask]
    {
      sum := sum + value;
      visited := visited + [mask];
      TotalConcat(nums, old(visited), [mask]);
    }

    /** Lines 11 to 19, with `left` numbers to go. */
    method Backtrack(value: int, index: nat, ghost mask: seq<bool>, ghost left: nat)
      requires Valid() && index == |mask| && index + left == |nums| && value == XorOf(nums, mask)
      modifies this`sum, this`visited
      ensures Valid() && visited == old(visited) + Leaves(mask, left)
      decreases left
    {
      if index == |nums| {
        AddLeaf(value, mask);
      } else {
        ghost var skip, take, fewer := mask + [false], mask + [true], left - 1;
        XorOfExtended(nums, mask);
        Backtrack(value, index + 1, skip, fewer);
        ghost var halfway := visited;
        Backtrack(Xor(value, nums[index]), index + 1, take, fewer);
        VisitBothSides(old(visited), halfway, visited, mask, skip, take, left, fewer);
      }
    }
  }

  lemma ClosedForm(nums: seq<int>)
    ensures Total(nums, Leaves([], |nums|)) == if nums == [] then 0 else OrAll(nums) * Pow2(|nums| - 1)
  {
    TotalOfLeaves(nums, [], |nums|);
    BelowClosedForm(0, nums);
    assert nums[0..] == nums;
    XorZero(OrAll(nums));
    if nums != [] { DoubledIsProduct(|nums| - 1, OrAll(nums)); }
  }

  /** Lines 21 to 27: each sub-selection is added once, and together they give the bitwise or
      of all numbers times a power of two. */
  method SubsetXORSum(nums: seq<int>) returns (r: int)
    ensures r == Total(nums, Leaves([], |nums|))
    ensures r == if nums == [] then 0 else OrAll(nums) * Pow2(|nums| - 1)
  {
    var search := new Search(nums);
    search.Backtrack(search.sum, 0, [], |nums|);
    r := search.sum;
    assert search.visited == Leaves([], |nums|);
    ClosedForm(nums);
  }
}
