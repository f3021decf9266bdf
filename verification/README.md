# Verified models of the algorithm notes

The notes under `course/algorithm` teach algorithms through short C programs, some in `.c` files and
some in fenced blocks of `.md` files. This project models those programs in Dafny and proves what
they compute. `dafny verify dfyconfig.toml` checks everything.

| files | what they model |
|---|---|
| `Primes.dfy`, `LinearSieve.dfy`, `PrimeCounting.dfy` | divisibility and least prime factors; the linear sieve; trial division, the sieve of Eratosthenes, the memoized test and the twin-prime search |
| `Forests.dfy`, `Graph.dfy`, `UnionRun.dfy`, `UnionFind.dfy` | parent arrays with path compression, graphs, runs of unions, and the province count as a count of connected components |
| `FindNesting.dfy` | how deep the calls of `Find` nest in those runs |
| `CInt.dfy`, `Sequences.dfy`, `Sorting.dfy` | the range of a C `int`, sequences without repetition, and what the sorting programs share |
| `Heap.dfy`, `HeapSort.dfy`, `PriorityQueue.dfy` | the in-place max-heap, as a sorter and as a bag with whole runs of pushes and pops |
| `StableMerge.dfy`, `MergeSort.dfy`, `ListMerge.dfy` | the stable merge; merge sort with sentinels; the merge of two linked lists |
| `QuickSort.dfy` | random-pivot quicksort, driven by the numbers that `rand` delivers |
| `CutRod.dfy`, `Palindrome.dfy`, `SubsetXor.dfy` | rod cutting, the greedy palindrome and the subset-xor sum, each against all candidates |
| `Trie.dfy`, `SameTree.dfy`, `NextGreater.dfy` | the prefix tree, tree comparison by recursion and by queues, the monotonic stack |

Arrays that the C code updates are arrays here, file-level variables and structs are classes, and every
loop carries its invariants. Functions marked ghost describe the result; the lemmas about them say what
it means. C's truncating `(i - 1) / 2` is written out as `Parent`, and C's `^` on `int` is `Xor` on
two's-complement integers, negative ones included.

## Where the code falls short of what is said about it

- Merge sort's sentinels are ordinary `INT_MAX` values. When a right half that the merges meet holds the
  number `INT_MAX` twice, the left index runs past its scratch array. `MergeSort.SortRunOutcome` proves
  that the sort stays in bounds exactly when the right half of the whole, of its left half, of the left
  half of that and so on all hold it at most once, and that it then still sorts. The numbers 0, 0,
  `INT_MAX`, `INT_MAX` fail (`MergeSort.TwoMaxOnTheRight`).
- Quicksort recurses on a range that includes the pivot. `QuickSort.ReturnsIffDistinct` proves that some
  sequence of random numbers lets it return exactly when no number occurs twice; on 1, 1 it never
  returns (`QuickSort.EqualPairNeverReturns`). The strict test that the comment at
  course/algorithm/src/sort/quick-sort.c:50 allows repairs this: `QuickSort.StrictTestCanReturn` proves
  that some run then returns for all numbers, repeated or not.
- The comments in the loop of `partition` (course/algorithm/src/sort/quick-sort.c:48-49) count the cell at
  `left` among those not above the pivot. `QuickSort.CommentsHoldIffMax` proves that they hold at every
  pass exactly when the pivot is a maximum of its range; with 2, 1 and the pivot 1 they fail at once
  (`QuickSort.CommentsFail`). `QuickSort.LoopSplits` proves what holds at every pass, with that cell on
  the other side.
- The remark that `Find` nests at most two calls (course/algorithm/union-find.md:52) fails for some
  matrices. `FindNesting.ShallowIffNothingBuriedIsMet` proves when a whole run of the double loop keeps
  to it. Say that an edge buries the component of its column city when it joins that component to
  another one and its column has held an edge before; then no edge may meet a buried city.
  `FindNesting.EquivalenceStaysShallow` derives that the remark holds for every symmetric and transitive
  matrix, and `FindNesting.FindNestsWithoutBound` that on `n` cities a find can nest `n - 2` calls.
- The twin-prime task asks for the pairs that do not exceed `n`, the program for those below `n`;
  `PrimeCounting.TwinsUpToBound` says when the two agree. The program fixes `n` at 100, where they do
  (`PrimeCounting.BoundOfMainMissesNothing`). The bound is a parameter of the model; at 5 they differ.
- `heap_increase_key` is meant for keys that grow; `Heap.IncreaseToK` accepts any key and says exactly
  when the result is a heap. `Heap.ShrunkenKeyBreaksHeap` gives a key that shrinks and leaves none.
- The memoized rod cutter reuses only non-negative entries. `CutRod.MemoizedCutRod` computes each length
  once exactly when `len <= 2` or the price of a unit piece is not negative; its answer is right in any
  case. `CutRod.NegativeUnitPrice` gives four prices for which it computes some length again.

## Model

| member | source | states |
|---|---|---|
| `Primes.CompositeSplits` | course/algorithm/other.md:95-97 | every composite is its cofactor times its least prime factor, which no prime of the cofactor undercuts, so it has a pair at which the sieve can strike it |
| `Primes.LpfOfProduct` | course/algorithm/other.md:93-100 | striking `i * p` only for primes up to the first divisor of `i` strikes exactly numbers whose least prime factor is `p` |
| `Primes.PrimesBelowIsSortedAndComplete` | course/algorithm/other.md:5-5 | the list every program is compared with is increasing and holds exactly the primes below `n` |
| `Primes.PrimesAndCompositesPartition` | course/algorithm/other.md:97-97 | primes and composites below `n` add up to `n - 2`, which turns the count of stores into the count of composites |
| `LinearSieve.StrikeStep` | course/algorithm/other.md:92-101 | one inner step strikes a cell never struck before, and after the `break` no composite with this cofactor is left over |
| `LinearSieve.Sieve.constructor` | course/algorithm/other.md:114-117 | clear marks and no primes are right for the rounds below 2 |
| `LinearSieve.Sieve.ListIfPrime` | course/algorithm/other.md:88-91 | before round `i` the list holds exactly the primes up to `i` |
| `LinearSieve.Sieve.Mark` | course/algorithm/other.md:94-94 | every store of the inner loop marks one cell and records itself |
| `LinearSieve.Sieve.Strike` | course/algorithm/other.md:94-100 | one product is struck, and a `break` leaves the round complete |
| `LinearSieve.Sieve.StrikeRound` | course/algorithm/other.md:92-101 | the inner loop strikes exactly the composites with cofactor `i`, one store each |
| `LinearSieve.Sieve.GetPrimes` | course/algorithm/other.md:85-103 | the primes array ends as the increasing list of primes below `n`, the marks are exactly the composites, and the recorded stores are theirs |
| `LinearSieve.EachCompositeStoredOnce` | course/algorithm/other.md:95-97 | each composite below `n` is stored once, as the product of the counter and its least prime factor, nothing else is stored, and the number of stores is the number of composites |
| `LinearSieve.CountPrimes` | course/algorithm/other.md:110-122 | returns the number of primes below `n`, for every `n` |
| `PrimeCounting.IsPrimeByTrial` | course/algorithm/other.md:11-18 | answers yes exactly for primes and for numbers below 2, although it stops at the square root |
| `PrimeCounting.CountPrimesByTrial` | course/algorithm/other.md:20-25 | returns the same count as both sieves |
| `PrimeCounting.StrikeMultiples` | course/algorithm/other.md:43-48 | marking from `i * i` misses no number whose least prime factor is `i` |
| `PrimeCounting.GetComposites` | course/algorithm/other.md:38-51 | from clear marks, exactly the composites end up marked |
| `PrimeCounting.CountPrimesByEratosthenes` | course/algorithm/other.md:58-70 | returns the number of primes below `n`, for every `n` |
| `PrimeCounting.IsPrimeMemoized` | course/algorithm/src/other/twin-prime.c:11-24 | with any memo that earlier calls can leave, the verdict is that of trial division, and the memo stays sound |
| `PrimeCounting.TwinPrimes` | course/algorithm/src/other/twin-prime.c:28-35 | reports exactly the pairs whose upper member is below `n`, each once, in increasing order |
| `PrimeCounting.TwinsBelowIsComplete` | course/algorithm/src/other/twin-prime.c:32-33 | a lower member is reported exactly when both numbers are prime and the upper one is below the bound |
| `PrimeCounting.TwinsUpToBound` | course/algorithm/other.md:127-127 | all pairs not exceeding `n` are reported exactly when `n` is not the upper member of a pair |
| `PrimeCounting.BoundOfMainMissesNothing` | course/algorithm/src/other/twin-prime.c:28-28 | with the bound 100 of the program, all pairs not exceeding it are reported |
| `PrimeCounting.TwinsMissTheBound` | course/algorithm/other.md:127-127 | with the parameter at 5 the pair (3, 5) would be lost |
| `Forests.RootIgnoresRank` | course/algorithm/union-find.md:51-57 | the root of an index depends on the array alone, whatever witnesses that it has no cycle |
| `Forests.PathRead` | course/algorithm/union-find.md:51-57 | the path that a find follows, its root and the depth of its calls, read off the parent links |
| `Forests.Compress` | course/algorithm/union-find.md:53-55 | compressing points every index on the path at the root and changes no other, and keeps the array free of cycles and every root where it was |
| `Forests.UnitedForest` | course/algorithm/union-find.md:59-62 | compressing both paths and hanging one root below the other keeps the array free of cycles and redirects exactly one class |
| `Forests.ReadUnited` | course/algorithm/union-find.md:59-62 | the array after a union, entry by entry, from the two paths |
| `UnionFind.Find` | course/algorithm/union-find.md:51-57 | terminates on every acyclic array, returns the root, points the whole path at it and changes nothing else; it has as many calls open at once as the path has indices |
| `UnionFind.FindInTurn` | course/algorithm/union-find.md:61-61 | two finds one after the other compress both paths, and have more than two calls open exactly when a parent of one of the two indices is no root |
| `UnionFind.FindBoth` | course/algorithm/union-find.md:61-61 | the two finds of a union leave the same array and results in either order of evaluation, and in either order one of them nests more than two calls exactly when the parent of one of the two indices is no root |
| `UnionFind.Union` | course/algorithm/union-find.md:59-62 | stays acyclic and redirects exactly the class of the first index to the root of the second, whichever find C runs first |
| `FindNesting.ShallowIffNothingBuriedIsMet` | course/algorithm/union-find.md:52-52 | in a whole run of the double loop no find nests more than two calls exactly when no edge meets a buried city, a condition on the matrix alone |
| `FindNesting.EquivalenceStaysShallow` | course/algorithm/union-find.md:52-52 | for a symmetric and transitive matrix no find of the run nests more than two calls |
| `FindNesting.FindNestsWithoutBound` | course/algorithm/union-find.md:52-52 | for every `n >= 4` the matrix with edges `(k, n-1)` for `k < n-3`, `(0, n-2)` and `(n-3, n-2)` makes the last find nest `n - 2` calls |
| `FindNesting.FourNestedCalls` | course/algorithm/union-find.md:52-52 | a run on six cities in which a find nests four calls |
| `UnionRun.UnionAddsEdge` | course/algorithm/union-find.md:73-77 | if sharing a root means being connected by the edges so far, the union keeps it so with one more edge |
| `UnionRun.RootsMatchAfter` | course/algorithm/union-find.md:71-79 | throughout the run two cities share a root exactly when the edges so far connect them |
| `UnionRun.RunCoversGraph` | course/algorithm/union-find.md:71-79 | the double loop meets exactly the entries 1 above the diagonal, row by row |
| `UnionRun.MatrixOfRun` | course/algorithm/union-find.md:71-79 | every run of edges in row order is the run of some matrix, so statements about runs are statements about matrices |
| `UnionFind.UnionEdge` | course/algorithm/union-find.md:76-76 | the parent array becomes that of the run with one more edge, the second city first |
| `UnionFind.UnionEntry` | course/algorithm/union-find.md:73-77 | an entry of the matrix adds its edge to the run if it is 1 |
| `UnionFind.UnionRow` | course/algorithm/union-find.md:72-78 | after a row the parent array is that of the run up to that row, and more than two calls of `Find` have nested exactly when that run does so |
| `UnionFind.RootsCountComponents` | course/algorithm/union-find.md:80-86 | there are as many roots as connected components |
| `UnionFind.CountRoots` | course/algorithm/union-find.md:80-86 | counts the indices that are their own parents |
| `UnionFind.FindCircleNum` | course/algorithm/union-find.md:64-87 | returns the number of connected components of the graph above the diagonal, for every square matrix, and nests more than two calls of `Find` exactly when some edge meets a buried city |
| `Heap.HeapByCells` | course/algorithm/src/sort/priority_queue.c:28-42 | a heap is an array in which no cell `2 * i + 1` or `2 * i + 2` exceeds cell `i` |
| `Heap.SiftDownStep` | course/algorithm/src/sort/priority_queue.c:65-78 | swapping with the larger child moves the only broken place one level down |
| `Heap.Swap` | course/algorithm/src/sort/priority_queue.c:21-26 | exchanges two cells of the heap part and nothing else |
| `Heap.MaxHeapify` | course/algorithm/src/sort/priority_queue.c:65-78 | a heap broken only below one node is repaired, permuting the heap part and nothing else |
| `Heap.BuildMaxHeap` | course/algorithm/src/sort/priority_queue.c:86-91 | every array prefix, the empty one included, becomes a heap of the same numbers |
| `Heap.RootDominates` | course/algorithm/src/sort/priority_queue.c:93-97 | the root of a heap is one of its numbers and none is larger |
| `Heap.SiftUp` | course/algorithm/src/sort/priority_queue.c:104-108 | a key that rises stops where the heap is in order, provided its children did not exceed it |
| `Heap.IncreaseToK` | course/algorithm/src/sort/priority_queue.c:99-109 | replaces the key and yields a heap exactly when no child exceeds the new key |
| `Heap.ShrunkenKeyBreaksHeap` | course/algorithm/src/sort/priority_queue.c:99-109 | 3 in place of the 5 above a 4 leaves no heap |
| `Heap.LastToRoot` | course/algorithm/src/sort/priority_queue.c:123-125 | overwriting the root by the last number removes exactly the root from the bag and breaks the heap only at the root |
| `PriorityQueue.PriorityQueue.constructor` | course/algorithm/src/sort/priority_queue.c:141-144 | the numbers already in the array become the bag |
| `PriorityQueue.PriorityQueue.Top` | course/algorithm/src/sort/priority_queue.c:94-97 | when not empty, returns a maximum of the bag |
| `PriorityQueue.PriorityQueue.Push` | course/algorithm/src/sort/priority_queue.c:112-118 | below capacity, adds the number to the bag and keeps the heap |
| `PriorityQueue.DropRoot` | course/algorithm/src/sort/priority_queue.c:124-126 | moving the last number to the root and repairing leaves a heap of the others |
| `PriorityQueue.PriorityQueue.Pop` | course/algorithm/src/sort/priority_queue.c:121-128 | when not empty, removes and returns one maximum of the bag |
| `PriorityQueue.Run` | course/algorithm/src/sort/priority_queue.c:139-160 | any legal interleaving of pushes and pops answers as the abstract bag does |
| `PriorityQueue.DrainIsDescending` | course/algorithm/src/sort/priority_queue.c:121-128 | popping a queue empty lists its bag in descending order |
| `PriorityQueue.RunConserves` | course/algorithm/src/sort/priority_queue.c:111-128 | over any run, what was there and pushed is what was popped and what is left |
| `HeapSort.SortStep` | course/algorithm/src/sort/heap-sort.c:101-105 | prefix a heap, suffix sorted and no prefix number above a suffix number: one round keeps all three |
| `HeapSort.TakeRoot` | course/algorithm/src/sort/heap-sort.c:102-104 | the root moves behind the heap, which keeps the other numbers |
| `HeapSort.SortRound` | course/algorithm/src/sort/heap-sort.c:102-104 | in place, the root joins the front of the sorted suffix and the heap keeps the rest |
| `HeapSort.Heapsort` | course/algorithm/src/sort/heap-sort.c:97-106 | every array prefix ends as a sorted permutation of itself, cells beyond it untouched |
| `StableMerge.MergeStable` | course/algorithm/src/sort/merge-sort.c:40-46 | for every key, the merge lists the left elements with that key, then the right ones, each side in its own order |
| `StableMerge.WithKeyPositions` | course/algorithm/src/sort/merge-sort.c:40-46 | the elements with a key are listed by rising positions, none left out |
| `MergeSort.LoopIsMerge` | course/algorithm/src/sort/merge-sort.c:38-47 | when the right half stays below `INT_MAX`, no index passes its sentinel, none is copied, and the loop is the stable merge |
| `MergeSort.LoopCopiesSentinel` | course/algorithm/src/sort/merge-sort.c:38-47 | one `INT_MAX` at the end of the right half is replaced by the left sentinel, and the loop still stays in bounds |
| `MergeSort.LoopOverruns` | course/algorithm/src/sort/merge-sort.c:30-40 | two largest numbers at the end of the right half take the left index out of bounds |
| `MergeSort.MergeHalvesOutcome` | course/algorithm/src/sort/merge-sort.c:21-51 | on sorted halves the merge stays in bounds exactly when the right one holds `INT_MAX` at most once, and then the numbers come out sorted |
| `MergeSort.LeftHalf` | course/algorithm/src/sort/merge-sort.c:64-65 | of `n` numbers the first `(n + 1) / 2` are the left half |
| `MergeSort.RightHalf` | course/algorithm/src/sort/merge-sort.c:64-66 | the other `n / 2` are the right half |
| `MergeSort.FitOfHalves` | course/algorithm/src/sort/merge-sort.c:60-69 | the condition on the cells from `(m + 1) / 2` to `m`, for `m` the size, half of it rounded up and so on, is the one that the recursion needs |
| `MergeSort.SortRunOutcome` | course/algorithm/src/sort/merge-sort.c:60-69 | the sort stays in bounds exactly when the right half of the range, of its left half and so on never holds `INT_MAX` twice, and every run in bounds yields a sorted permutation of the numbers |
| `MergeSort.FewMaxFit` | course/algorithm/src/sort/merge-sort.c:60-69 | a range that holds `INT_MAX` at most once stays in bounds, so only the chain of left halves matters |
| `MergeSort.TwoMaxOnTheRight` | course/algorithm/src/sort/merge-sort.c:30-47 | 0, 0, `INT_MAX`, `INT_MAX` leave the bounds |
| `MergeSort.OneMaxOnEachSide` | course/algorithm/src/sort/merge-sort.c:60-69 | 0, `INT_MAX`, `INT_MAX` stay within them |
| `MergeSort.SortRunStable` | course/algorithm/src/sort/merge-sort.c:40-42 | below `INT_MAX` the sort always completes, permutes the tagged numbers and keeps equal ones in their order |
| `MergeSort.TaggedSortKeepsOrder` | course/algorithm/src/sort/merge-sort.c:40-42 | below `INT_MAX` every number comes out with the position it had, and equal ones with rising positions |
| `MergeSort.CopyHalf` | course/algorithm/src/sort/merge-sort.c:30-36 | a scratch array holds its half followed by the sentinel |
| `MergeSort.MergeInto` | course/algorithm/src/sort/merge-sort.c:38-47 | the cells of the range receive what the loop copies, the others keep their numbers |
| `MergeSort.MergeRange` | course/algorithm/src/sort/merge-sort.c:21-51 | in place, the range becomes what the merge loop yields and the rest is untouched |
| `MergeSort.MergeSortRange` | course/algorithm/src/sort/merge-sort.c:60-69 | in place, the range becomes its sorted run and the rest is untouched |
| `MergeSort.MergeSort` | course/algorithm/src/sort/merge-sort.c:71-75 | every array of C `int`s on which the sort stays in bounds, `INT_MAX` included, ends sorted and complete |
| `QuickSort.LoopSplits` | course/algorithm/src/sort/quick-sort.c:46-54 | at the head of every pass, for every pivot and either test of line 50, the cells before `left` have passed the test and those from `left` up to `right` have not |
| `QuickSort.CommentsHoldIffMax` | course/algorithm/src/sort/quick-sort.c:48-49 | the comments of these lines hold at the head of every pass exactly when the pivot is a maximum of the range |
| `QuickSort.CommentsFail` | course/algorithm/src/sort/quick-sort.c:48-49 | with 2, 1 and the pivot 1 they fail in the first pass |
| `QuickSort.ScanSplits` | course/algorithm/src/sort/quick-sort.c:46-54 | the loop ends with the cells before `left` passing the test against the pivot and those from `left` on failing it |
| `QuickSort.ScanKeepsBag` | course/algorithm/src/sort/quick-sort.c:46-54 | the loop only permutes the range |
| `QuickSort.PartitionSplits` | course/algorithm/src/sort/quick-sort.c:41-57 | for every pivot choice and either test of line 50: a permutation with the pivot in place, what passes the test left of it and what fails it right of it |
| `QuickSort.NextSifts` | course/algorithm/src/sort/quick-sort.c:50-53 | one pass moves the number at `right` behind those that have passed and the first failed one behind the others, or moves nothing |
| `QuickSort.PartitionArranges` | course/algorithm/src/sort/quick-sort.c:41-57 | every cell that `partition` leaves, and its index: the passed numbers in the order they had, the pivot, and the failed ones as the swaps rotate them |
| `QuickSort.PartsArrange` | course/algorithm/src/sort/quick-sort.c:71-72 | the left range ends with the pivot and the right one is what failed |
| `QuickSort.PartitionOfFour` | course/algorithm/src/sort/quick-sort.c:41-57 | 3, 2, 4, 1 with the pivot 2 become 1, 2, 4, 3 |
| `QuickSort.RunDivides` | course/algorithm/src/sort/quick-sort.c:70-72 | a run divides by the first random number, goes on with the left range and then, with what is left over, with the right one |
| `QuickSort.ShrinksUnlessMax` | course/algorithm/src/sort/quick-sort.c:70-72 | the left range is smaller than the whole exactly when the pivot is not a maximum |
| `QuickSort.ReturnedRunSorts` | course/algorithm/src/sort/quick-sort.c:66-74 | with either test every run that returns leaves a sorted permutation; with the test as written it ran on numbers without repetition |
| `QuickSort.ReturnsIffDistinct` | course/algorithm/src/sort/quick-sort.c:66-74 | some run returns exactly when no number occurs twice |
| `QuickSort.StrictTestCanReturn` | course/algorithm/src/sort/quick-sort.c:50-50 | with `<` in place of `<=`, as the comment allows, some run returns for every range |
| `QuickSort.EqualPairNeverReturns` | course/algorithm/src/sort/quick-sort.c:66-74 | on 1, 1 no sequence of random numbers lets it return |
| `QuickSort.RunUsesRands` | course/algorithm/src/sort/quick-sort.c:66-74 | a run that returns draws at least one random number less than there are numbers to sort, and no more exactly when no pivot was the maximum of its range |
| `QuickSort.SwapCells` | course/algorithm/src/sort/quick-sort.c:16-21 | exchanges two cells of a range and nothing else |
| `QuickSort.ScanRange` | course/algorithm/src/sort/quick-sort.c:45-54 | the loop divides the range into what the pivot is at least and what exceeds it |
| `QuickSort.PartitionRange` | course/algorithm/src/sort/quick-sort.c:41-57 | in place, the range is partitioned around the drawn pivot, the rest is untouched and the index returned is the pivot's |
| `QuickSort.SortParts` | course/algorithm/src/sort/quick-sort.c:71-72 | both parts are sorted one after the other with the random numbers left over |
| `QuickSort.Quiksort` | course/algorithm/src/sort/quick-sort.c:66-74 | in place, returns for the random numbers that a run returns for, with that run's result; otherwise cells are only permuted |
| `CutRod.BestIsOptimum` | course/algorithm/src/dynamic-programming/cut-rod-bottom-up.c:24-33 | the recurrence is the best total price over all sequences of positive pieces of that length, for prices of any sign |
| `CutRod.BottomUpCutRod` | course/algorithm/src/dynamic-programming/cut-rod-bottom-up.c:19-37 | returns that optimum |
| `CutRod.ModestPricesFit` | course/algorithm/src/dynamic-programming/cut-rod-bottom-up.c:24-33 | no sum overflows if `len` times the largest price in size is at most 2147483647 |
| `CutRod.Memo.constructor` | course/algorithm/src/dynamic-programming/cut-rod-memoized.c:51-53 | every entry starts as unknown, with no calls and no stores |
| `CutRod.Memo.Store` | course/algorithm/src/dynamic-programming/cut-rod-memoized.c:38-38 | one entry is set and its length recorded |
| `CutRod.TryPiece` | course/algorithm/src/dynamic-programming/cut-rod-memoized.c:31-35 | one more first piece is tried: the best total so far, the memo and the cost all move on by its call |
| `CutRod.TryFirstPieces` | course/algorithm/src/dynamic-programming/cut-rod-memoized.c:30-36 | the loop finds the best first piece, keeps the memo sound, and on an empty memo costs `len * (len + 1) / 2` more calls if `len <= 2` or the unit price is not negative, and more than that otherwise |
| `CutRod.MemoizedCutRodAux` | course/algorithm/src/dynamic-programming/cut-rod-memoized.c:20-40 | returns the optimum from any sound memo, fills entries only up to `len` and keeps known ones; every call charges itself to the memo, which is charged one call and no store for a known length, and at least `1 + len` calls otherwise |
| `CutRod.MemoizedCutRod` | course/algorithm/src/dynamic-programming/cut-rod-memoized.c:48-57 | returns the optimum; makes at least `1 + Triangle(len)` calls, and exactly that many, storing each length once in increasing order, if and only if `len <= 2` or `price[1] >= 0` |
| `CutRod.NegativeUnitPrice` | course/algorithm/src/dynamic-programming/cut-rod-memoized.c:24-38 | with prices 0, -1, -1, -1 a rod of length 3 takes more than 7 calls and more than 4 stores |
| `CutRod.NeverNegativeIffUnitPays` | course/algorithm/src/dynamic-programming/cut-rod-memoized.c:24-25 | no optimum below a length is negative exactly when the unit price is not, so one price decides whether every stored optimum is recognised as computed |
| `CutRod.TriangleIsHalfProduct` | course/algorithm/src/dynamic-programming/cut-rod-memoized.c:32-36 | `Triangle(n)` is `n * (n + 1) / 2`, so the number of calls is `1 + len * (len + 1) / 2` |
| `CutRod.NonNegativePrices` | course/algorithm/src/dynamic-programming/cut-rod-memoized.c:24-25 | prices that are never negative give optima that are never negative |
| `Palindrome.CodesInRange` | course/algorithm/greedy.md:8-12 | every string of codes from 0 to 254, letters among them, is in range |
| `Palindrome.PalindromePairs` | course/algorithm/greedy.md:17-22 | in every palindrome all letters but a middle one come in pairs |
| `Palindrome.GreedyIsAttained` | course/algorithm/greedy.md:17-22 | the letters spell some palindrome of the greedy length |
| `Palindrome.NothingBeatsGreedy` | course/algorithm/greedy.md:17-22 | the letters spell no longer palindrome |
| `Palindrome.CountLetters` | course/algorithm/greedy.md:10-15 | every code is counted as often as it occurs |
| `Palindrome.LongestPalindrome` | course/algorithm/greedy.md:7-24 | returns the length of a longest palindrome, for every string with codes below 255 |
| `SubsetXor.XorBits` | course/algorithm/backtracking.md:17-17 | the exclusive or of all integers, bit by bit |
| `SubsetXor.FourWays` | course/algorithm/backtracking.md:16-17 | flipping by two numbers in all four ways doubles flipping by both at once, for all integers |
| `SubsetXor.LeavesOnce` | course/algorithm/backtracking.md:11-19 | the recursion visits every selection exactly once and nothing else |
| `SubsetXor.LeavesInOrder` | course/algorithm/backtracking.md:16-17 | of two selections, the one that first skips a number that the other takes is visited first |
| `SubsetXor.LeavesCount` | course/algorithm/backtracking.md:11-19 | it makes `2^n` visits |
| `SubsetXor.BelowClosedForm` | course/algorithm/backtracking.md:11-19 | twice what the leaves below a node add up to, in terms of its value and the bitwise or of the numbers to go |
| `SubsetXor.Search.constructor` | course/algorithm/backtracking.md:22-24 | nothing has been visited and the sum is 0 |
| `SubsetXor.Search.AddLeaf` | course/algorithm/backtracking.md:14-14 | a leaf adds its value and is recorded |
| `SubsetXor.Search.Backtrack` | course/algorithm/backtracking.md:11-19 | adds the exclusive or of each selection below the node, in the order visited |
| `SubsetXor.ClosedForm` | course/algorithm/backtracking.md:21-27 | the sum over all selections is the bitwise or of all numbers times `2^(n-1)`, and 0 for no numbers |
| `SubsetXor.SubsetXORSum` | course/algorithm/backtracking.md:21-27 | returns the sum over all selections, which is the bitwise or of all numbers times `2^(n-1)`, negative numbers included |
| `Trie.LettersFillSlots` | course/algorithm/trie.md:10-10 | the 26 letters from a to z have the slots 0 to 25 in this order |
| `Trie.GrowShape` | course/algorithm/trie.md:33-34 | hanging a fresh node at a free slot keeps the nodes an unshared tree |
| `Trie.Trie.constructor` | course/algorithm/trie.md:14-19 | a new node has no children, ends no word and is a valid empty trie |
| `Trie.Trie.NewChild` | course/algorithm/trie.md:34-34 | a new child has no children and ends no word |
| `Trie.Trie.Attach` | course/algorithm/trie.md:34-34 | the new child hangs at one slot of one node, and nothing else changes |
| `Trie.Trie.Grow` | course/algorithm/trie.md:33-34 | adds exactly one path, with a fresh node, and no word |
| `Trie.Trie.Descend` | course/algorithm/trie.md:32-35 | reaches the node of the path extended by a letter, adding at most that path and no word |
| `Trie.Trie.Advance` | course/algorithm/trie.md:32-35 | while a word is being added, every stored path leads to a word or toward it |
| `Trie.Trie.Walk` | course/algorithm/trie.md:31-36 | reaches the node of the whole word, leaving the words as they are |
| `Trie.Trie.MarkEnd` | course/algorithm/trie.md:37-37 | adds the word of the node that is marked |
| `Trie.Trie.Insert` | course/algorithm/trie.md:29-38 | adds exactly the given word; the tree stays unshared and every node but the root leads to a word |
| `Trie.Trie.StoredPaths` | course/algorithm/trie.md:40-50 | the stored paths are the empty one and the prefixes of the words |
| `Trie.Trie.StartsWithFrom` | course/algorithm/trie.md:40-50 | finds the node of the prefix exactly when that path is stored, and otherwise leaves `*obj` at the node of the longest part of the prefix that is |
| `Trie.Trie.StartsWith` | course/algorithm/trie.md:52-54 | holds exactly for the empty prefix and the prefixes of inserted words |
| `Trie.Trie.Search` | course/algorithm/trie.md:56-60 | holds exactly for the inserted words |
| `ListMerge.ListHasNoCycle` | course/algorithm/recursion.md:26-29 | a list that ends holds no node twice |
| `ListMerge.MergeTwoLists` | course/algorithm/recursion.md:31-43 | terminates on any two disjoint lists, relinks their nodes into the stable merge with the second list first on ties, and changes no value |
| `ListMerge.MergedListsInOrder` | course/algorithm/recursion.md:31-43 | for sorted lists: sorted, exactly the given nodes, equal values with the second list first and each list in its own order |
| `SameTree.IsSameTreeDfs` | course/algorithm/depth-first-search.md:15-25 | holds exactly when the trees are equal |
| `SameTree.NextRound` | course/algorithm/breadth-first-search.md:31-54 | one round of a run in bounds finds a difference or moves both queues on in lockstep, within capacity and nearer to empty |
| `SameTree.LevelByLevel` | course/algorithm/breadth-first-search.md:31-54 | the nodes leave the queue level by level, each level from left to right |
| `SameTree.LeftBeforeRight` | course/algorithm/breadth-first-search.md:46-49 | a node, its left child, its right child |
| `SameTree.InBoundsIffLevelOrdersFit` | course/algorithm/breadth-first-search.md:16-56 | the program stays within its queues exactly when, up to the first difference in level order, the trees queue at most 101 nodes, and then it answers whether they are equal |
| `SameTree.SmallTreesFit` | course/algorithm/breadth-first-search.md:20-22 | it stays in bounds and answers rightly if either tree has at most 101 nodes; the exercise allows 100 |
| `SameTree.EqualTreesFit` | course/algorithm/breadth-first-search.md:20-22 | equal trees are compared in bounds exactly when they have at most 101 nodes |
| `SameTree.CapacityIsReached` | course/algorithm/breadth-first-search.md:21-22 | a tree of 101 nodes fits and one of 102 does not |
| `SameTree.DifferenceAtRoot` | course/algorithm/breadth-first-search.md:34-44 | trees of any size that differ at the root are told apart in bounds |
| `SameTree.PushChildren` | course/algorithm/breadth-first-search.md:46-49 | appends the children that exist, left before right |
| `SameTree.PushBoth` | course/algorithm/breadth-first-search.md:46-53 | does so for both queues, which stay equally long |
| `SameTree.IsSameTreeBfs` | course/algorithm/breadth-first-search.md:16-56 | on exactly the trees for which it stays in bounds: terminates, never overflows a queue, and agrees with the recursion |
| `NextGreater.PopCovers` | course/algorithm/monotonic-stack.md:44-46 | what is popped does not hide a greater number |
| `NextGreater.PushAnswers` | course/algorithm/monotonic-stack.md:47-50 | after the pops the top of the stack is the next greater number, and pushing keeps the numbers falling from bottom to top |
| `NextGreater.Stack.Pop` | course/algorithm/monotonic-stack.md:45-45 | the top goes, and one pop is counted |
| `NextGreater.Stack.Push` | course/algorithm/monotonic-stack.md:50-50 | a number comes on top, and one push is counted |
| `NextGreater.PopSmaller` | course/algorithm/monotonic-stack.md:44-46 | pops until the top exceeds the number or nothing is left |
| `NextGreater.Round` | course/algorithm/monotonic-stack.md:42-50 | answers one more number and pushes it, once |
| `NextGreater.FillTable` | course/algorithm/monotonic-stack.md:38-51 | every number is answered, pops never outnumber pushes, and the stack fits its array |
| `NextGreater.LookUpAll` | course/algorithm/monotonic-stack.md:55-58 | every query is looked up in the table |
| `NextGreater.NextGreaterElement` | course/algorithm/monotonic-stack.md:35-61 | each query gets the first greater number to its right, or -1 |

## Left out

- `PriorityQueue.PriorityQueue.Pop`: popping an empty queue and pushing at capacity are undefined in C and excluded by preconditions.
- `LinearSieve.Sieve.GetPrimes`: the product `i * primes[j]` is a mathematical integer; overflow of a C `int` is not modelled. The same holds for `i * i` in trial division and for the sums of the subset-xor program.
- `CutRod.BottomUpCutRod`: the sums `price_array[j] + profits[i-j]` are required to fit a C `int`, which the source takes for granted.
- `SameTree.IsSameTreeBfs`: trees are values, so sharing and cycles among tree nodes are not modelled.
- `NextGreater.NextGreaterElement`: the hash table is a map; numbers are required to be distinct and queries to occur among them, as the exercise states. The debugging output of the stack is not modelled.
- `Trie.Trie.Insert`: words are required to be lower-case, as the 26-entry child array demands; that array is a sequence held in the node, since C embeds it in the struct. Freeing a trie is not modelled.
- `QuickSort.Quiksort`: `rand` is a given sequence of numbers; nothing is said about how likely a run is to return.
- Memory allocation and release, printing and the test drivers are not modelled.
- uthash itself, the C library's `qsort`, and the easy exercises (Fibonacci, integer square root, prefix sums, two-sum, duplicates, range cover).
- Kernel modules, probes, shell scripts, server configuration and the prose notes of the repository have no algorithmic content to state.
