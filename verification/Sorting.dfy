/** What the sorting programs share: sortedness, the swap of two cells, and ranges of an array. */
module Sorting {

  ghost predicate Sorted(s: seq<int>) {
    forall i, j :: 0 <= i < j < |s| ==> s[i] <= s[j]
  }

  lemma SortedCons(x: int, s: seq<int>)
    requires Sorted(s) && forall y :: y in s ==> x <= y
    ensures Sorted([x] + s)
  {
    forall j | 0 < j <= |s| ensures x <= ([x] + s)[j] {
      assert s[j - 1] in s;
    }
  }

  ghost function Swapped(s: seq<int>, i: nat, j: nat): (t: seq<int>)
    requires i < |s| && j < |s|
    ensures |t| == |s|
  {
    s[i := s[j]][j := s[i]]
  }

  lemma SwapKeepsBag(s: seq<int>, i: nat, j: nat)
    requires i < |s| && j < |s|
    ensures multiset(Swapped(s, i, j)) == multiset(s)
  {
  }

  /** The cells of an array read `pre`, then `s`, then `post`. */
  ghost predicate Reads(cells: seq<int>, pre: seq<int>, s: seq<int>, post: seq<int>) {
    cells == pre + s + post
  }

  /** Moving the boundary between what is read first, next and last. */
  lemma Regroup(cells: seq<int>, pre: seq<int>, l: seq<int>, r: seq<int>, post: seq<int>)
    ensures Reads(cells, pre, l + r, post) <==> Reads(cells, pre, l, r + post)
    ensures Reads(cells, pre, l + r, post) <==> Reads(cells, pre + l, r, post)
  {
  }
}
