/** Comparing two binary trees, recursively (course/algorithm/depth-first-search.md) and with
    two array queues (course/algorithm/breadth-first-search.md, whose lines are cited here). */
module SameTree {
  import opened Sequences

  datatype Tree = Null | Node(val: int, left: Tree, right: Tree)

  const CAPACITY: nat := 101

  ghost function Size(t: Tree): nat {
    match t
    case Null => 0
    case Node(_, l, r) => 1 + Size(l) + Size(r)
  }

  /** The recursive program: it answers whether the trees are equal. */
  predicate IsSameTreeDfs(p: Tree, q: Tree)
    ensures IsSameTreeDfs(p, q) <==> p == q
  {
    if p.Null? && q.Null? then true
    else if p.Null? || q.Null? then false
    else if p.val != q.val then false
    else IsSameTreeDfs(p.left, q.left) && IsSameTreeDfs(p.right, q.right)
  }

  // ---------- Queues ----------

  ghost predicate NoNulls(queue: seq<Tree>) {
    forall k :: 0 <= k < |queue| ==> queue[k].Node?
  }

  ghost function TotalSize(queue: seq<Tree>): nat {
    if queue == [] then 0 else Size(queue[0]) + TotalSize(queue[1..])
  }

  lemma {:induction false} TotalSizeConcat(a: seq<Tree>, b: seq<Tree>)
    ensures TotalSize(a + b) == TotalSize(a) + TotalSize(b)
  {
    if a == [] {
      assert a + b == b;
    } else {
      TotalSizeConcat(a[1..], b);
      assert (a + b)[1..] == a[1..] + b;
    }
  }

  lemma {:induction false} QueueFits(queue: seq<Tree>)
    requires NoNulls(queue)
    ensures |queue| <= TotalSize(queue)
  {
    if queue != [] { QueueFits(queue[1..]); }
  }

  /** The children that a node contributes to its queue. */
  function Children(t: Tree): seq<Tree>
    requires t.Node?
  {
    (if t.left.Null? then [] else [t.left]) + (if t.right.Null? then [] else [t.right])
  }

  /** A queue after its first node has been replaced by that node's children at the end. */
  ghost function Advance(queue: seq<Tree>): (next: seq<Tree>)
    requires queue != [] && queue[0].Node?
    ensures |next| == |queue| - 1 + |Children(queue[0])|
  {
    queue[1..] + Children(queue[0])
  }

  lemma KidsSize(t: Tree)
    requires t.Node?
    ensures TotalSize(Children(t)) + 1 == Size(t)
  {
    TotalSizeConcat(if t.left.Null? then [] else [t.left], if t.right.Null? then [] else [t.right]);
  }

  /** Taking a node off the queue and adding its children uses up one unit of size. */
  lemma DequeueSize(queue: seq<Tree>)
    requires NoNulls(queue) && queue != []
    ensures NoNulls(Advance(queue)) && TotalSize(Advance(queue)) + 1 == TotalSize(queue)
    ensures |Advance(queue)| + 1 <= TotalSize(queue)
  {
    TotalSizeConcat(queue[1..], Children(queue[0]));
    KidsSize(queue[0]);
    QueueFits(Advance(queue));
  }

  /** The tests of lines 34 to 44. */
  predicate SameNode(a: Tree, b: Tree)
    requires a.Node? && b.Node?
  {
    a.val == b.val && a.left.Null? == b.left.Null? && a.right.Null? == b.right.Null?
  }

  lemma SameChildren(a: Tree, b: Tree)
    requires a.Node? && b.Node? && SameNode(a, b) && Children(a) == Children(b)
    ensures a == b
  {
    var i := if a.left.Null? then 0 else 1;
    assert a.left.Node? ==> Children(a)[0] == a.left && Children(b)[0] == b.left;
    assert a.right.Node? ==> Children(a)[i] == a.right && Children(b)[i] == b.right;
  }

  /** Two queues agree exactly when their first nodes agree and so do the rest and the children. */
  lemma DequeueAgrees(q1: seq<Tree>, q2: seq<Tree>)
    requires NoNulls(q1) && NoNulls(q2) && |q1| == |q2| > 0
    ensures q1 == q2 ==> SameNode(q1[0], q2[0])
    ensures SameNode(q1[0], q2[0]) ==> |Children(q1[0])| == |Children(q2[0])|
    ensures SameNode(q1[0], q2[0]) ==> (q1 == q2 <==> Advance(q1) == Advance(q2))
  {
    var a, b := q1[0], q2[0];
    if SameNode(a, b) && Advance(q1) == Advance(q2) {
      assert q1[1..] == Advance(q1)[..|q1| - 1] == q2[1..];
      assert Children(a) == Advance(q1)[|q1| - 1..] == Children(b);
      SameChildren(a, b);
      assert q1 == [a] + q1[1..] && q2 == [b] + q2[1..];
    }
  }

  // ---------- The run and its bounds ----------

  /** What a run comes to: a store past the end of a queue, or an answer. */
  datatype Outcome = OutOfBounds | Answer(same: bool)

  /** The loop of lines 31 to 54 and the line after it, with `head` nodes taken off each queue. */
  ghost function QueueRun(q1: seq<Tree>, q2: seq<Tree>, head: nat): Outcome
    requires NoNulls(q1) && NoNulls(q2)
    decreases TotalSize(q1)
  {
    if q1 == [] || q2 == [] then Answer(q1 == [] && q2 == [])
    else if !SameNode(q1[0], q2[0]) then Answer(false)
    else if head + 1 + |Advance(q1)| > CAPACITY || head + 1 + |Advance(q2)| > CAPACITY then OutOfBounds
    else
      DequeueSize(q1);
      DequeueSize(q2);
      QueueRun(Advance(q1), Advance(q2), head + 1)
  }

  /** Lines 16 to 56. */
  ghost function BfsRun(p: Tree, q: Tree): Outcome {
    if p.Null? && q.Null? then Answer(true)
    else if p.Null? || q.Null? then Answer(false)
    else QueueRun([p], [q], 0)
  }

  /** One round: a difference at the front settles the answer, otherwise the queues move on. */
  lemma NextRound(q1: seq<Tree>, q2: seq<Tree>, head: nat)
    requires NoNulls(q1) && NoNulls(q2) && |q1| == |q2| > 0 && QueueRun(q1, q2, head).Answer?
    ensures !SameNode(q1[0], q2[0]) ==> QueueRun(q1, q2, head) == Answer(false) && q1 != q2
    ensures SameNode(q1[0], q2[0]) ==>
      && |Advance(q1)| == |Advance(q2)| && head + 1 + |Advance(q1)| <= CAPACITY
      && NoNulls(Advance(q1)) && NoNulls(Advance(q2)) && TotalSize(Advance(q1)) < TotalSize(q1)
      && QueueRun(Advance(q1), Advance(q2), head + 1) == QueueRun(q1, q2, head)
      && (q1 == q2 <==> Advance(q1) == Advance(q2))
  {
    DequeueAgrees(q1, q2);
    DequeueSize(q1);
    DequeueSize(q2);
  }

  /** A run that stays in bounds answers whether the queues agree. */
  lemma {:induction false} QueueRunAnswers(q1: seq<Tree>, q2: seq<Tree>, head: nat)
    requires NoNulls(q1) && NoNulls(q2) && |q1| == |q2| && QueueRun(q1, q2, head).Answer?
    ensures QueueRun(q1, q2, head).same <==> q1 == q2
    decreases TotalSize(q1)
  {
    if q1 != [] {
      NextRound(q1, q2, head);
      if SameNode(q1[0], q2[0]) { QueueRunAnswers(Advance(q1), Advance(q2), head + 1); }
    }
  }

  /** The nodes in the order in which they are taken off the queue. */
  ghost function LevelOrder(queue: seq<Tree>): (nodes: seq<Tree>)
    requires NoNulls(queue)
    ensures NoNulls(nodes)
    decreases TotalSize(queue)
  {
    if queue == [] then []
    else
      DequeueSize(queue);
      [queue[0]] + LevelOrder(Advance(queue))
  }

  /** The nodes at depth `d`, from left to right. */
  ghost function Level(t: Tree, d: nat): (nodes: seq<Tree>)
    ensures NoNulls(nodes)
  {
    if t.Null? then [] else if d == 0 then [t] else Level(t.left, d - 1) + Level(t.right, d - 1)
  }

  ghost function AllChildren(nodes: seq<Tree>): (kids: seq<Tree>)
    requires NoNulls(nodes)
    ensures NoNulls(kids)
  {
    if nodes == [] then [] else Children(nodes[0]) + AllChildren(nodes[1..])
  }

  lemma {:induction false} AllChildrenConcat(a: seq<Tree>, b: seq<Tree>)
    requires NoNulls(a) && NoNulls(b)
    ensures AllChildren(a + b) == AllChildren(a) + AllChildren(b)
  {
    if a == [] {
      assert a + b == b;
    } else {
      AllChildrenConcat(a[1..], b);
      assert (a + b)[1..] == a[1..] + b;
    }
  }

  lemma {:induction false} ChildrenOfLevel(t: Tree, d: nat)
    ensures AllChildren(Level(t, d)) == Level(t, d + 1)
  {
    if t.Node? {
      if d == 0 {
        assert AllChildren([t]) == Children(t) + [];
      } else {
        ChildrenOfLevel(t.left, d - 1);
        ChildrenOfLevel(t.right, d - 1);
        AllChildrenConcat(Level(t.left, d - 1), Level(t.right, d - 1));
      }
    }
  }

  /** Nodes already waiting come before the children of those ahead of them. */
  lemma {:induction false} QueueByQueue(a: seq<Tree>, b: seq<Tree>)
    requires NoNulls(a) && NoNulls(b)
    ensures LevelOrder(a + b) == a + LevelOrder(b + AllChildren(a))
  {
    if a == [] {
      assert a + b == b && b + [] == b;
    } else {
      var rest, kids, queue := a[1..], Children(a[0]), a + b;
      var next := b + kids;
      QueueByQueue(rest, next);
      assert queue[0] == a[0] && Advance(queue) == rest + next;
      Assoc(b, kids, AllChildren(rest));
      Assoc([a[0]], rest, LevelOrder(next + AllChildren(rest)));
      assert a == [a[0]] + rest;
    }
  }

  /** The nodes leave the queue level by level, each level from left to right. */
  lemma LevelByLevel(t: Tree, d: nat)
    ensures LevelOrder(Level(t, d)) == Level(t, d) + LevelOrder(Level(t, d + 1))
    ensures t.Node? ==> Level(t, 0) == [t]
  {
    ChildrenOfLevel(t, d);
    QueueByQueue(Level(t, d), []);
    assert Level(t, d) + [] == Level(t, d) && [] + Level(t, d + 1) == Level(t, d + 1);
  }

  lemma LeftBeforeRight()
    ensures var l, r := Node(2, Null, Null), Node(3, Null, Null); LevelOrder([Node(1, l, r)]) == [Node(1, l, r), l, r]
  {
    var l, r := Node(2, Null, Null), Node(3, Null, Null);
    var t := Node(1, l, r);
    LevelByLevel(t, 0);
    LevelByLevel(t, 1);
    assert Level(t, 1) == [l, r] && Level(t, 2) == [];
  }

  /** The first `m` nodes agree pairwise. */
  ghost predicate AgreeFor(a: seq<Tree>, b: seq<Tree>, m: nat)
    requires NoNulls(a) && NoNulls(b)
  {
    m <= |a| && m <= |b| && forall k :: 0 <= k < m ==> SameNode(a[k], b[k])
  }

  /** How many children the first `m` nodes have. */
  ghost function Kids(nodes: seq<Tree>, m: nat): nat
    requires NoNulls(nodes) && m <= |nodes|
  {
    if m == 0 then 0 else |Children(nodes[0])| + Kids(nodes[1..], m - 1)
  }

  /** With `tail` cells in use, there is room for the children of all nodes up to the first
      difference in level order. */
  ghost predicate RoomFor(a: seq<Tree>, b: seq<Tree>, tail: nat)
    requires NoNulls(a) && NoNulls(b)
  {
    forall m :: AgreeFor(a, b, m) ==> tail + Kids(a, m) <= CAPACITY
  }

  lemma AgreeOneMore(a: seq<Tree>, b: seq<Tree>, m: nat)
    requires NoNulls(a) && NoNulls(b) && a != [] && b != [] && m > 0
    ensures AgreeFor(a, b, m) <==> SameNode(a[0], b[0]) && AgreeFor(a[1..], b[1..], m - 1)
  {
    if SameNode(a[0], b[0]) && AgreeFor(a[1..], b[1..], m - 1) {
      forall k | 0 <= k < m ensures SameNode(a[k], b[k]) {
        assert k > 0 ==> SameNode(a[1..][k - 1], b[1..][k - 1]);
      }
    }
  }

  /** The room that is needed, one node at a time. */
  lemma RoomStep(a: seq<Tree>, b: seq<Tree>, tail: nat)
    requires NoNulls(a) && NoNulls(b) && a != [] && b != [] && tail <= CAPACITY
    ensures RoomFor(a, b, tail) <==>
              (SameNode(a[0], b[0]) ==> RoomFor(a[1..], b[1..], tail + |Children(a[0])|))
  {
    if RoomFor(a, b, tail) && SameNode(a[0], b[0]) {
      forall m: nat | AgreeFor(a[1..], b[1..], m) ensures tail + |Children(a[0])| + Kids(a[1..], m) <= CAPACITY {
        AgreeOneMore(a, b, m + 1);
        assert tail + Kids(a, m + 1) <= CAPACITY;
      }
    }
    if SameNode(a[0], b[0]) ==> RoomFor(a[1..], b[1..], tail + |Children(a[0])|) {
      forall m: nat | AgreeFor(a, b, m) ensures tail + Kids(a, m) <= CAPACITY {
        if m > 0 { AgreeOneMore(a, b, m); }
      }
    }
  }

  lemma {:induction false} RunNeedsRoom(q1: seq<Tree>, q2: seq<Tree>, head: nat)
    requires NoNulls(q1) && NoNulls(q2) && |q1| == |q2| && head + |q1| <= CAPACITY
    ensures QueueRun(q1, q2, head).Answer? <==> RoomFor(LevelOrder(q1), LevelOrder(q2), head + |q1|)
    decreases TotalSize(q1)
  {
    if q1 != [] {
      var a, b, n1, n2 := LevelOrder(q1), LevelOrder(q2), Advance(q1), Advance(q2);
      DequeueAgrees(q1, q2);
      DequeueSize(q1);
      DequeueSize(q2);
      assert a[0] == q1[0] && a[1..] == LevelOrder(n1) && b[0] == q2[0] && b[1..] == LevelOrder(n2);
      RoomStep(a, b, head + |q1|);
      if SameNode(q1[0], q2[0]) {
        assert head + |q1| + |Children(q1[0])| == head + 1 + |n1|;
        if head + 1 + |n1| <= CAPACITY {
          RunNeedsRoom(n1, n2, head + 1);
        } else {
          assert AgreeFor(a[1..], b[1..], 0);
        }
      }
    }
  }

  /** Up to the first difference in level order, the trees have no more nodes to queue than
      the arrays have cells. */
  ghost predicate LevelOrdersFit(p: Tree, q: Tree) {
    p.Null? || q.Null? || RoomFor(LevelOrder([p]), LevelOrder([q]), 1)
  }

  /** The program stays in bounds exactly when the level orders fit, and then its answer is right. */
  lemma InBoundsIffLevelOrdersFit(p: Tree, q: Tree)
    ensures BfsRun(p, q).Answer? <==> LevelOrdersFit(p, q)
    ensures BfsRun(p, q).Answer? ==> (BfsRun(p, q).same <==> p == q)
  {
    if p.Node? && q.Node? {
      RunNeedsRoom([p], [q], 0);
      if BfsRun(p, q).Answer? {
        QueueRunAnswers([p], [q], 0);
        assert [p] == [q] <==> p == q by { assert [p][0] == p && [q][0] == q; }
      }
    }
  }

  /** Trees of any size that differ at the root are told apart at once. */
  lemma DifferenceAtRoot(p: Tree, q: Tree)
    requires p.Node? && q.Node?
    requires p.val != q.val || p.left.Null? != q.left.Null? || p.right.Null? != q.right.Null?
    ensures LevelOrdersFit(p, q) && BfsRun(p, q) == Answer(false)
  {
    InBoundsIffLevelOrdersFit(p, q);
  }

  lemma {:induction false} SmallQueuesStayInBounds(q1: seq<Tree>, q2: seq<Tree>, head: nat)
    requires NoNulls(q1) && NoNulls(q2) && |q1| == |q2|
    requires head + TotalSize(q1) <= CAPACITY || head + TotalSize(q2) <= CAPACITY
    ensures QueueRun(q1, q2, head).Answer?
    decreases TotalSize(q1)
  {
    if q1 != [] {
      DequeueAgrees(q1, q2);
      DequeueSize(q1);
      DequeueSize(q2);
      if SameNode(q1[0], q2[0]) { SmallQueuesStayInBounds(Advance(q1), Advance(q2), head + 1); }
    }
  }

  /** It is enough that one of the trees has at most 101 nodes, one more than the exercise allows. */
  lemma SmallTreesFit(p: Tree, q: Tree)
    requires Size(p) <= 101 || Size(q) <= 101
    ensures LevelOrdersFit(p, q) && BfsRun(p, q) == Answer(p == q)
  {
    if p.Node? && q.Node? { SmallQueuesStayInBounds([p], [q], 0); }
    InBoundsIffLevelOrdersFit(p, q);
  }

  lemma {:induction false} EqualQueuesNeedAllRoom(queue: seq<Tree>, head: nat)
    requires NoNulls(queue) && head + |queue| <= CAPACITY
    ensures QueueRun(queue, queue, head).Answer? <==> head + TotalSize(queue) <= CAPACITY
    decreases TotalSize(queue)
  {
    if queue != [] {
      DequeueSize(queue);
      QueueFits(Advance(queue));
      if head + 1 + |Advance(queue)| <= CAPACITY { EqualQueuesNeedAllRoom(Advance(queue), head + 1); }
    }
  }

  /** Equal trees are compared in bounds exactly when they have at most 101 nodes. */
  lemma EqualTreesFit(p: Tree)
    ensures LevelOrdersFit(p, p) <==> Size(p) <= 101
    ensures BfsRun(p, p) == if Size(p) <= 101 then Answer(true) else OutOfBounds
  {
    if p.Node? { EqualQueuesNeedAllRoom([p], 0); }
    InBoundsIffLevelOrdersFit(p, p);
  }

  /** There are trees of 101 nodes, which fit, and of 102, which do not. */
  lemma {:induction false} TreeOfSize(n: nat) returns (t: Tree)
    ensures Size(t) == n
  {
    t := Null;
    if n > 0 {
      var rest := TreeOfSize(n - 1);
      t := Node(0, rest, Null);
    }
  }

  lemma CapacityIsReached() returns (t: Tree, u: Tree)
    ensures Size(t) == 101 && BfsRun(t, t) == Answer(true)
    ensures Size(u) == 102 && BfsRun(u, u) == OutOfBounds
  {
    t := TreeOfSize(101);
    u := TreeOfSize(102);
    EqualTreesFit(t);
    EqualTreesFit(u);
  }

  // ---------- In place ----------

  /** Lines 46 to 53, for one queue: `waiting` are the nodes from `head` on, the one before
      them having just been taken off. */
  method PushChildren(queue: array<Tree>, head: nat, tail0: nat, t: Tree, ghost waiting: seq<Tree>) returns (tail: nat)
    requires t.Node? && waiting != [] && waiting[0] == t
    requires head <= tail0 <= queue.Length && waiting[1..] == queue[head..tail0]
    requires head + |Advance(waiting)| <= queue.Length
    modifies queue
    ensures head <= tail <= queue.Length && queue[head..tail] == Advance(waiting)
  {
    tail := tail0;
    if t.left.Node? {
      queue[tail] := t.left;
      tail := tail + 1;
    }
    if t.right.Node? {
      queue[tail] := t.right;
      tail := tail + 1;
    }
  }

  /** The node at the front of a queue and the ones behind it. */
  lemma Front(cells: seq<Tree>, head: nat, tail: nat, waiting: seq<Tree>)
    requires head < tail <= |cells| && waiting == cells[head..tail]
    ensures waiting != [] && waiting[0] == cells[head] && waiting[1..] == cells[head + 1..tail]
  {
  }

  /** Lines 46 to 53, for both queues, whose first nodes have been taken off. */
  method PushBoth(que1: array<Tree>, que2: array<Tree>, head: nat, tail: nat, node1: Tree, node2: Tree,
                  ghost q1: seq<Tree>, ghost q2: seq<Tree>) returns (tail1: nat, tail2: nat)
    requires que1 != que2 && que1.Length == que2.Length && node1.Node? && node2.Node?
    requires q1 != [] && q2 != [] && q1[0] == node1 && q2[0] == node2
    requires head <= tail <= que1.Length && q1[1..] == que1[head..tail] && q2[1..] == que2[head..tail]
    requires |Advance(q1)| == |Advance(q2)| && head + |Advance(q1)| <= que1.Length
    modifies que1, que2
    ensures head <= tail1 == tail2 <= que1.Length
    ensures que1[head..tail1] == Advance(q1) && que2[head..tail2] == Advance(q2)
  {
    tail1 := PushChildren(que1, head, tail, node1, q1);
    tail2 := PushChildren(que2, head, tail, node2, q2);
    assert |que1[head..tail1]| == |que2[head..tail2]|;
  }

  /** Lines 16 to 56. */
  method IsSameTreeBfs(p: Tree, q: Tree) returns (r: bool)
    requires LevelOrdersFit(p, q)
    ensures r <==> IsSameTreeDfs(p, q)
  {
    InBoundsIffLevelOrdersFit(p, q);
    var head1: nat, tail1: nat, head2: nat, tail2: nat := 0, 0, 0, 0;
    var que1, que2 := new Tree[CAPACITY], new Tree[CAPACITY];
    if p.Null? && q.Null? {
      return true;
    } else if p.Null? || q.Null? {
      return false;
    }
    que1[0], tail1 := p, 1;
    que2[0], tail2 := q, 1;
    ghost var q1, q2 := [p], [q];
    assert que1[0..1] == q1 && que2[0..1] == q2;
    while head1 < tail1 && head2 < tail2
      invariant head1 == head2 <= tail1 == tail2 <= CAPACITY
      invariant q1 == que1[head1..tail1] && q2 == que2[head2..tail2]
      invariant NoNulls(q1) && NoNulls(q2) && QueueRun(q1, q2, head1) == BfsRun(p, q)
      decreases TotalSize(q1)
    {
      NextRound(q1, q2, head1);
      Front(que1[..], head1, tail1, q1);
      Front(que2[..], head2, tail2, q2);
      var node1, node2 := que1[head1], que2[head2];
      head1, head2 := head1 + 1, head2 + 1;
      if node1.val != node2.val || node1.left.Null? != node2.left.Null? || node1.right.Null? != node2.right.Null? {
        return false;
      }
      tail1, tail2 := PushBoth(que1, que2, head1, tail1, node1, node2, q1, q2);
      q1, q2 := Advance(q1), Advance(q2);
    }
    return head1 == tail1 && head2 == tail2;
  }
}
