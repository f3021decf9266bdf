/** Merging two sequences by key, the left one first on ties. Both merge sort and the
    merge of two linked lists come down to this. */
module StableMerge {
  import opened Sequences

  ghost function Merge<T>(key: T -> int, l: seq<T>, r: seq<T>): (m: seq<T>)
    ensures |m| == |l| + |r|
    decreases |l| + |r|
  {
    if l == [] then r
    else if r == [] then l
    else if key(l[0]) <= key(r[0]) then [l[0]] + Merge(key, l[1..], r)
    else [r[0]] + Merge(key, l, r[1..])
  }

  ghost predicate SortedBy<T>(key: T -> int, s: seq<T>) {
    forall i, j :: 0 <= i < j < |s| ==> key(s[i]) <= key(s[j])
  }

  ghost function OnlyIf<T>(key: T -> int, v: int, x: T): seq<T> {
    if key(x) == v then [x] else []
  }

  /** The elements with key `v`, in the order in which they occur. */
  ghost function WithKey<T>(key: T -> int, v: int, s: seq<T>): seq<T> {
    if s == [] then [] else OnlyIf(key, v, s[0]) + WithKey(key, v, s[1..])
  }

  lemma WithKeyCons<T>(key: T -> int, v: int, x: T, s: seq<T>)
    ensures WithKey(key, v, [x] + s) == OnlyIf(key, v, x) + WithKey(key, v, s)
  {
  }

  lemma {:induction false} WithKeyConcat<T>(key: T -> int, v: int, a: seq<T>, b: seq<T>)
    ensures WithKey(key, v, a + b) == WithKey(key, v, a) + WithKey(key, v, b)
  {
    if a == [] {
      assert a + b == b;
    } else {
      WithKeyConcat(key, v, a[1..], b);
      WithKeyCons(key, v, a[0], a[1..] + b);
      assert a + b == [a[0]] + (a[1..] + b);
      Assoc(OnlyIf(key, v, a[0]), WithKey(key, v, a[1..]), WithKey(key, v, b));
    }
  }

  /** `w` lists the elements with key `v`: those at the positions `ps`, which rise and miss none. */
  ghost predicate ArePositions<T>(key: T -> int, v: int, s: seq<T>, w: seq<T>, ps: seq<int>) {
    && |ps| == |w|
    && (forall i :: 0 <= i < |ps| ==> 0 <= ps[i] < |s| && w[i] == s[ps[i]])
    && (forall i, j :: 0 <= i < j < |ps| ==> ps[i] < ps[j])
    && (forall k :: 0 <= k < |s| ==> (key(s[k]) == v <==> k in ps))
  }

  /** A further element with key `v` adds the position past the end. */
  lemma NextPosition<T>(key: T -> int, v: int, s: seq<T>, w: seq<T>, ps: seq<int>, x: T, s': seq<T>)
    requires ArePositions(key, v, s, w, ps) && s' == s + [x] && key(x) == v
    ensures ArePositions(key, v, s', w + [x], ps + [|s|])
  {
    var ps' := ps + [|s|];
    forall k | 0 <= k < |s'| ensures key(s'[k]) == v <==> k in ps' {
      assert k < |s| ==> s'[k] == s[k] && (k in ps <==> k in ps');
      assert ps'[|ps|] == |s|;
    }
  }

  lemma NoNextPosition<T>(key: T -> int, v: int, s: seq<T>, w: seq<T>, ps: seq<int>, x: T, s': seq<T>)
    requires ArePositions(key, v, s, w, ps) && s' == s + [x] && key(x) != v
    ensures ArePositions(key, v, s', w, ps)
  {
    assert |s| !in ps;
    forall k | 0 <= k < |s'| ensures key(s'[k]) == v <==> k in ps {
      assert k < |s| ==> s'[k] == s[k];
    }
  }

  lemma WithKeyLast<T>(key: T -> int, v: int, rest: seq<T>, x: T, s: seq<T>)
    requires s == rest + [x]
    ensures WithKey(key, v, s) == WithKey(key, v, rest) + OnlyIf(key, v, x)
  {
    WithKeyConcat(key, v, rest, [x]);
    assert WithKey(key, v, [x]) == OnlyIf(key, v, x) + [];
  }

  lemma {:induction false} WithKeyPositions<T>(key: T -> int, v: int, s: seq<T>) returns (ps: seq<int>)
    ensures ArePositions(key, v, s, WithKey(key, v, s), ps)
  {
    if s == [] {
      ps := [];
    } else {
      var rest, x := s[..|s| - 1], s[|s| - 1];
      var before := WithKeyPositions(key, v, rest);
      WithKeyLast(key, v, rest, x, s);
      if key(x) == v {
        ps := before + [|rest|];
        NextPosition(key, v, rest, WithKey(key, v, rest), before, x, s);
      } else {
        ps := before;
        NoNextPosition(key, v, rest, WithKey(key, v, rest), before, x, s);
        assert WithKey(key, v, rest) + [] == WithKey(key, v, rest);
      }
    }
  }

  lemma {:induction false} WithKeyNone<T>(key: T -> int, v: int, s: seq<T>)
    requires forall i :: 0 <= i < |s| ==> key(s[i]) != v
    ensures WithKey(key, v, s) == []
  {
    if s != [] { WithKeyNone(key, v, s[1..]); }
  }

  lemma ConsBag<T>(x: T, s: seq<T>, t: seq<T>)
    requires t == [x] + s
    ensures multiset(t) == multiset{x} + multiset(s)
  {
  }

  lemma {:induction false} MergeBag<T>(key: T -> int, l: seq<T>, r: seq<T>)
    ensures multiset(Merge(key, l, r)) == multiset(l) + multiset(r)
    decreases |l| + |r|
  {
    if l != [] && r != [] {
      var m := Merge(key, l, r);
      if key(l[0]) <= key(r[0]) {
        var rest := l[1..];
        MergeBag(key, rest, r);
        ConsBag(l[0], rest, l);
        ConsBag(l[0], Merge(key, rest, r), m);
      } else {
        var rest := r[1..];
        MergeBag(key, l, rest);
        ConsBag(r[0], rest, r);
        ConsBag(r[0], Merge(key, l, rest), m);
      }
    }
  }

  ghost predicate AtLeast<T>(key: T -> int, v: int, s: seq<T>) {
    forall i :: 0 <= i < |s| ==> key(s[i]) >= v
  }

  lemma {:induction false} MergeAtLeast<T>(key: T -> int, v: int, l: seq<T>, r: seq<T>)
    requires AtLeast(key, v, l) && AtLeast(key, v, r)
    ensures AtLeast(key, v, Merge(key, l, r))
    decreases |l| + |r|
  {
    if l != [] && r != [] {
      if key(l[0]) <= key(r[0]) {
        MergeAtLeast(key, v, l[1..], r);
      } else {
        MergeAtLeast(key, v, l, r[1..]);
      }
    }
  }

  lemma LeastFirst<T>(key: T -> int, x: T, s: seq<T>)
    requires SortedBy(key, s) && AtLeast(key, key(x), s)
    ensures SortedBy(key, [x] + s)
  {
  }

  lemma {:induction false} MergeSorted<T>(key: T -> int, l: seq<T>, r: seq<T>)
    requires SortedBy(key, l) && SortedBy(key, r)
    ensures SortedBy(key, Merge(key, l, r))
    decreases |l| + |r|
  {
    if l != [] && r != [] {
      if key(l[0]) <= key(r[0]) {
        MergeSorted(key, l[1..], r);
        MergeAtLeast(key, key(l[0]), l[1..], r);
        LeastFirst(key, l[0], Merge(key, l[1..], r));
      } else {
        MergeSorted(key, l, r[1..]);
        MergeAtLeast(key, key(r[0]), l, r[1..]);
        LeastFirst(key, r[0], Merge(key, l, r[1..]));
      }
    }
  }

  /** Among equal keys the left elements come first, and each side keeps its own order. */
  lemma {:induction false} MergeStable<T>(key: T -> int, v: int, l: seq<T>, r: seq<T>)
    requires SortedBy(key, l)
    ensures WithKey(key, v, Merge(key, l, r)) == WithKey(key, v, l) + WithKey(key, v, r)
    decreases |l| + |r|
  {
    if l == [] || r == [] {
    } else if key(l[0]) <= key(r[0]) {
      MergeStable(key, v, l[1..], r);
      WithKeyCons(key, v, l[0], Merge(key, l[1..], r));
      Assoc(OnlyIf(key, v, l[0]), WithKey(key, v, l[1..]), WithKey(key, v, r));
    } else {
      MergeStable(key, v, l, r[1..]);
      WithKeyCons(key, v, r[0], Merge(key, l, r[1..]));
      if key(r[0]) == v { WithKeyNone(key, v, l); }
      assert OnlyIf(key, v, r[0]) + WithKey(key, v, l) == WithKey(key, v, l) + OnlyIf(key, v, r[0]);
      Assoc(OnlyIf(key, v, r[0]), WithKey(key, v, l), WithKey(key, v, r[1..]));
      Assoc(WithKey(key, v, l), OnlyIf(key, v, r[0]), WithKey(key, v, r[1..]));
    }
  }
}
