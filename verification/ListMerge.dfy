/** Merging two sorted linked lists by relinking their nodes (course/algorithm/recursion.md). */
module ListMerge {
  import opened Sequences
  import opened StableMerge

  class ListNode {
    var val: int
    var next: ListNode?
  }

  /** `ns` are the nodes met when following `next` from `head` to the end. */
  ghost predicate IsList(head: ListNode?, ns: seq<ListNode>)
    reads ns
  {
    if ns == [] then head == null else head == ns[0] && IsList(ns[0].next, ns[1..])
  }

  ghost predicate NoneShared(ns: seq<ListNode>, ms: seq<ListNode>) {
    forall n :: n in ns ==> n !in ms
  }

  /** `key` gives the values stored in the nodes. */
  ghost predicate ValuesAre(ns: seq<ListNode>, key: ListNode -> int)
    reads ns
  {
    forall k :: 0 <= k < |ns| ==> ns[k].val == key(ns[k])
  }

  lemma {:induction false} SuffixIsList(head: ListNode?, ns: seq<ListNode>, j: nat)
    requires IsList(head, ns) && j < |ns|
    ensures IsList(ns[j], ns[j..])
  {
    if j > 0 {
      SuffixIsList(ns[0].next, ns[1..], j - 1);
      assert ns[1..][j - 1..] == ns[j..];
    }
  }

  lemma {:induction false} SameHeadSameList(head: ListNode?, ns: seq<ListNode>, ms: seq<ListNode>)
    requires IsList(head, ns) && IsList(head, ms)
    ensures ns == ms
  {
    if ns != [] && ms != [] {
      SameHeadSameList(ns[0].next, ns[1..], ms[1..]);
      assert ns == [ns[0]] + ns[1..] && ms == [ms[0]] + ms[1..];
    }
  }

  /** A list has no cycle, so no node occurs in it twice. */
  lemma {:induction false} ListHasNoCycle(head: ListNode?, ns: seq<ListNode>)
    requires IsList(head, ns)
    ensures Distinct(ns)
  {
    if ns != [] {
      ListHasNoCycle(ns[0].next, ns[1..]);
      forall j | 1 <= j < |ns| ensures ns[0] != ns[j] {
        if ns[0] == ns[j] {
          SuffixIsList(head, ns, j);
          SameHeadSameList(head, ns, ns[j..]);
        }
      }
    }
  }

  lemma MergeElements(key: ListNode -> int, l: seq<ListNode>, r: seq<ListNode>)
    ensures forall n :: n in Merge(key, l, r) <==> n in l || n in r
  {
  }

  /** Lines 31 to 43. Ties take the node of `list2`, so the result is the stable merge with
      the second list on the left. */
  method MergeTwoLists(list1: ListNode?, list2: ListNode?,
                       ghost n1: seq<ListNode>, ghost n2: seq<ListNode>, ghost key: ListNode -> int)
      returns (r: ListNode?)
    requires IsList(list1, n1) && IsList(list2, n2) && NoneShared(n1, n2)
    requires ValuesAre(n1, key) && ValuesAre(n2, key)
    modifies n1, n2
    ensures IsList(r, Merge(key, n2, n1))
    ensures forall n :: n in n1 || n in n2 ==> n.val == old(n.val)
    decreases |n1| + |n2|
  {
    if list1 == null {
      return list2;
    }
    if list2 == null {
      return list1;
    }
    MergeElements(key, n2, n1);
    ListHasNoCycle(list1, n1);
    ListHasNoCycle(list2, n2);
    if list1.val < list2.val {
      var t := MergeTwoLists(list1.next, list2, n1[1..], n2, key);
      ghost var m := Merge(key, n2, n1[1..]);
      MergeElements(key, n2, n1[1..]);
      assert list1 !in m;
      list1.next := t;
      r := list1;
      assert Merge(key, n2, n1)[1..] == m;
    } else {
      var t := MergeTwoLists(list1, list2.next, n1, n2[1..], key);
      ghost var m := Merge(key, n2[1..], n1);
      MergeElements(key, n2[1..], n1);
      assert list2 !in m;
      list2.next := t;
      r := list2;
      assert Merge(key, n2, n1)[1..] == m;
    }
  }

  /** On sorted lists the result is sorted, is made of exactly the given nodes, and lists
      nodes of equal value with those of the second list first, each list in its own order. */
  lemma MergedListsInOrder(n1: seq<ListNode>, n2: seq<ListNode>, key: ListNode -> int, v: int)
    requires SortedBy(key, n1) && SortedBy(key, n2)
    ensures SortedBy(key, Merge(key, n2, n1))
    ensures multiset(Merge(key, n2, n1)) == multiset(n1) + multiset(n2)
    ensures WithKey(key, v, Merge(key, n2, n1)) == WithKey(key, v, n2) + WithKey(key, v, n1)
  {
    MergeSorted(key, n2, n1);
    MergeBag(key, n2, n1);
    MergeStable(key, v, n2, n1);
  }
}
