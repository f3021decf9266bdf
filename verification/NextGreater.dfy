/** The next greater element of each query, with a monotonic stack and a hash table
    (course/algorithm/monotonic-stack.md). */
module NextGreater {
  import opened Sequences

  /** No number strictly between positions `k` and `j` exceeds `v`. */
  ghost predicate CappedBetween(nums: seq<int>, k: int, j: int, v: int)
    requires 0 <= k && j <= |nums|
  {
    forall m :: k < m < j ==> nums[m] <= v
  }

  /** Position `j` holds the first number to the right of position `k` that exceeds it. */
  ghost predicate FirstAbove(nums: seq<int>, k: int, j: int) {
    0 <= k < j < |nums| && nums[j] > nums[k] && CappedBetween(nums, k, j, nums[k])
  }

  ghost predicate NoneAbove(nums: seq<int>, k: int) {
    0 <= k < |nums| && CappedBetween(nums, k, |nums|, nums[k])
  }

  /** `v` is the first number to the right of position `k` that exceeds the one there, or -1
      when there is none. */
  ghost predicate IsNextGreater(nums: seq<int>, k: int, v: int) {
    (v == -1 && NoneAbove(nums, k)) || exists j :: FirstAbove(nums, k, j) && v == nums[j]
  }

  /** `pos` are the positions on the stack, bottom first: each one's next greater number is
      the one below it, and the bottom one has none. So the numbers fall from bottom to top. */
  ghost predicate Chain(nums: seq<int>, pos: seq<int>) {
    && (pos != [] ==> NoneAbove(nums, pos[0]))
    && forall t :: 1 <= t < |pos| ==> FirstAbove(nums, pos[t], pos[t - 1])
  }

  /** The top of the stack, or the position past the end when it is empty. */
  ghost function Top(nums: seq<int>, pos: seq<int>): int {
    if pos == [] then |nums| else pos[|pos| - 1]
  }

  /** No number from `i + 1` up to the top of the stack exceeds the one at `i`. */
  ghost predicate Covered(nums: seq<int>, pos: seq<int>, i: nat) {
    Chain(nums, pos) && i < Top(nums, pos) <= |nums| && (pos != [] ==> Top(nums, pos) < |nums|)
    && CappedBetween(nums, i, Top(nums, pos), nums[i])
  }

  lemma PopCovers(nums: seq<int>, pos: seq<int>, i: nat)
    requires pos != [] && Covered(nums, pos, i) && nums[i] >= nums[pos[|pos| - 1]]
    ensures Covered(nums, pos[..|pos| - 1], i)
  {
  }

  /** Once no smaller number is on top, the top is the next greater element, and pushing
      keeps the chain. */
  lemma PushAnswers(nums: seq<int>, pos: seq<int>, i: nat)
    requires Covered(nums, pos, i) && (pos != [] ==> nums[i] < nums[pos[|pos| - 1]])
    ensures IsNextGreater(nums, i, if pos == [] then -1 else nums[pos[|pos| - 1]])
    ensures Chain(nums, pos + [i]) && Top(nums, pos + [i]) == i
  {
  }

  /** Every number from position `i` on is answered in the table. */
  ghost predicate Answered(nums: seq<int>, table: map<int, int>, i: nat) {
    && (forall k :: i <= k < |nums| ==> nums[k] in table && IsNextGreater(nums, k, table[nums[k]]))
    && (forall x :: x in table ==> exists k :: i <= k < |nums| && nums[k] == x)
  }

  lemma AnswerOne(nums: seq<int>, table: map<int, int>, i: nat, v: int)
    requires Distinct(nums) && i < |nums| && Answered(nums, table, i + 1) && IsNextGreater(nums, i, v)
    ensures nums[i] !in table && Answered(nums, table[nums[i] := v], i)
  {
  }

  /** The stack of lines 38 and 39, which counts its own pushes and pops. Its cells up to
      `topIdx` hold the numbers at the positions `pos`. */
  class Stack {
    const cells: array<int>
    var topIdx: int
    ghost var pos: seq<int>
    ghost var pushes: nat
    ghost var pops: nat

    ghost predicate Holds(nums: seq<int>)
      reads this, cells
    {
      && topIdx + 1 == |pos| <= cells.Length == |nums| && pushes == pops + |pos|
      && forall t :: 0 <= t < |pos| ==> 0 <= pos[t] < |nums| && cells[t] == nums[pos[t]]
    }

    constructor (nums: seq<int>)
      ensures fresh(cells) && Holds(nums) && pos == [] && pushes == 0
    {
      cells, topIdx := new int[|nums|], -1;
      pos, pushes, pops := [], 0, 0;
    }

    /** Line 45. */
    method Pop(ghost nums: seq<int>)
      requires Holds(nums) && pos != []
      modifies this`topIdx, this`pos, this`pops
      ensures Holds(nums) && pos == old(pos)[..|old(pos)| - 1] && pops == old(pops) + 1
    {
      topIdx := topIdx - 1;
      pos, pops := pos[..|pos| - 1], pops + 1;
    }

    /** Line 50. */
    method Push(nums: seq<int>, i: nat)
      requires Holds(nums) && i < |nums| && |pos| < |nums|
      modifies this`topIdx, this`pos, this`pushes, cells
      ensures Holds(nums) && pos == old(pos) + [i] && pushes == old(pushes) + 1
    {
      topIdx := topIdx + 1;
      cells[topIdx] := nums[i];
      pos, pushes := pos + [i], pushes + 1;
    }
  }

  /** Lines 44 to 46: pop what does not exceed the number at `i`. */
  method PopSmaller(nums: seq<int>, stack: Stack, i: nat)
    requires i < |nums| && stack.Holds(nums) && Covered(nums, stack.pos, i)
    modifies stack`topIdx, stack`pos, stack`pops
    ensures stack.Holds(nums) && Covered(nums, stack.pos, i) && |stack.pos| <= |old(stack.pos)|
    ensures stack.topIdx >= 0 ==> nums[i] < nums[stack.pos[stack.topIdx]] == stack.cells[stack.topIdx]
  {
    while stack.topIdx >= 0 && nums[i] >= stack.cells[stack.topIdx]
      invariant stack.Holds(nums) && Covered(nums, stack.pos, i) && |stack.pos| <= |old(stack.pos)|
      decreases |stack.pos|
    {
      PopCovers(nums, stack.pos, i);
      stack.Pop(nums);
    }
  }

  /** Lines 44 to 50, one round: the number at `i` is answered and pushed. */
  method Round(nums: seq<int>, stack: Stack, i: nat, table: map<int, int>) returns (table': map<int, int>)
    requires Distinct(nums) && i < |nums| && |stack.pos| < |nums|
    requires stack.Holds(nums) && Chain(nums, stack.pos) && Top(nums, stack.pos) == i + 1
    requires Answered(nums, table, i + 1)
    modifies stack, stack.cells
    ensures stack.Holds(nums) && Chain(nums, stack.pos) && Top(nums, stack.pos) == i
    ensures Answered(nums, table', i) && stack.pushes == old(stack.pushes) + 1
  {
    PopSmaller(nums, stack, i);
    PushAnswers(nums, stack.pos, i);
    var value := if stack.topIdx >= 0 then stack.cells[stack.topIdx] else -1;
    AnswerOne(nums, table, i, value);
    table' := table[nums[i] := value];
    stack.Push(nums, i);
  }

  /** Lines 38 to 51. Pops never outnumber pushes, and the stack never outgrows its array. */
  method FillTable(nums: seq<int>) returns (table: map<int, int>, stack: Stack)
    requires Distinct(nums)
    ensures Answered(nums, table, 0)
    ensures fresh(stack) && stack.pops <= stack.pushes == |nums|
  {
    stack := new Stack(nums);
    table := map[];
    var i := |nums| - 1;
    while i >= 0
      invariant -1 <= i < |nums| && fresh(stack) && fresh(stack.cells)
      invariant stack.Holds(nums) && Chain(nums, stack.pos) && Top(nums, stack.pos) == i + 1
      invariant Answered(nums, table, (i + 1) as nat) && stack.pushes == |nums| - 1 - i
    {
      table := Round(nums, stack, i, table);
      i := i - 1;
    }
  }

  /** `v` is the right answer for the number `x`, wherever it stands. */
  ghost predicate Answers(nums: seq<int>, x: int, v: int) {
    forall k :: 0 <= k < |nums| && nums[k] == x ==> IsNextGreater(nums, k, v)
  }

  lemma LookUp(nums: seq<int>, table: map<int, int>, x: int)
    requires Distinct(nums) && Answered(nums, table, 0) && x in nums
    ensures x in table && Answers(nums, x, table[x])
  {
  }

  /** Lines 55 to 58. */
  method LookUpAll(nums1: seq<int>, table: map<int, int>) returns (res: array<int>)
    requires forall q :: 0 <= q < |nums1| ==> nums1[q] in table
    ensures fresh(res) && res.Length == |nums1|
    ensures forall q :: 0 <= q < |nums1| ==> res[q] == table[nums1[q]]
  {
    res := new int[|nums1|];
    for i := 0 to |nums1|
      invariant forall q :: 0 <= q < i ==> res[q] == table[nums1[q]]
    {
      res[i] := table[nums1[i]];
    }
  }

  /** Lines 35 to 61: every query is answered with the first greater number to its right. */
  method NextGreaterElement(nums1: seq<int>, nums2: seq<int>) returns (res: array<int>)
    requires Distinct(nums2) && forall q :: 0 <= q < |nums1| ==> nums1[q] in nums2
    ensures fresh(res) && res.Length == |nums1|
    ensures forall q :: 0 <= q < |nums1| ==> Answers(nums2, nums1[q], res[q])
  {
    var table, _ := FillTable(nums2);
    forall q | 0 <= q < |nums1| ensures nums1[q] in table && Answers(nums2, nums1[q], table[nums1[q]]) {
      LookUp(nums2, table, nums1[q]);
    }
    res := LookUpAll(nums1, table);
  }
}
