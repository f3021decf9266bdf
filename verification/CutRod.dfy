/** Rod cutting, bottom up and with a memo, against the best of all ways to cut
    (course/algorithm/src/dynamic-programming/cut-rod-bottom-up.c and cut-rod-memoized.c). */
module CutRod {
  import opened CInt
  import opened Sequences

  // ---------- What a best price is ----------

  ghost function Sum(pieces: seq<int>): int {
    if pieces == [] then 0 else pieces[0] + Sum(pieces[1..])
  }

  /** Every piece has a length from 1 to `longest`. */
  ghost predicate PiecesUpTo(pieces: seq<int>, longest: int) {
    forall k :: 0 <= k < |pieces| ==> 1 <= pieces[k] <= longest
  }

  /** A way to cut a rod of length `len`: positive pieces that add up. */
  ghost predicate IsCut(pieces: seq<int>, len: int) {
    PiecesUpTo(pieces, len) && Sum(pieces) == len
  }

  ghost function Value(price: seq<int>, pieces: seq<int>): int
    requires PiecesUpTo(pieces, |price| - 1)
  {
    if pieces == [] then 0 else price[pieces[0]] + Value(price, pieces[1..])
  }

  ghost predicate IsOptimum(price: seq<int>, len: nat, v: int)
    requires len < |price|
  {
    && (exists pieces :: IsCut(pieces, len) && Value(price, pieces) == v)
    && (forall pieces :: IsCut(pieces, len) ==> Value(price, pieces) <= v)
  }

  // ---------- The recurrence both programs follow ----------

  ghost function Best(price: seq<int>, len: nat): int
    requires len < |price|
    decreases len, 2, 0
  {
    if len == 0 then 0 else BestUpTo(price, len, len)
  }

  /** The best total when the first piece has length `j`. */
  ghost function BestFirst(price: seq<int>, len: nat, j: nat): int
    requires 1 <= j <= len < |price|
    decreases len, 0, j
  {
    price[j] + Best(price, len - j)
  }

  /** The best total when the first piece has a length from 1 to `k`. */
  ghost function BestUpTo(price: seq<int>, len: nat, k: nat): int
    requires 1 <= k <= len < |price|
    decreases len, 1, k
  {
    if k == 1 || BestFirst(price, len, k) > BestUpTo(price, len, k - 1) then BestFirst(price, len, k)
    else BestUpTo(price, len, k - 1)
  }

  lemma {:induction false} BestUpToIsMax(price: seq<int>, len: nat, k: nat)
    requires 1 <= k <= len < |price|
    ensures forall j :: 1 <= j <= k ==> BestFirst(price, len, j) <= BestUpTo(price, len, k)
    ensures exists j :: 1 <= j <= k && BestFirst(price, len, j) == BestUpTo(price, len, k)
    decreases k
  {
    if k > 1 { BestUpToIsMax(price, len, k - 1); }
    assert BestUpTo(price, len, k) == BestFirst(price, len, k) || k > 1;
  }

  lemma {:induction false} PiecesWithinSum(pieces: seq<int>, longest: int)
    requires PiecesUpTo(pieces, longest)
    ensures 0 <= Sum(pieces) && PiecesUpTo(pieces, Sum(pieces))
  {
    if pieces != [] {
      PiecesWithinSum(pieces[1..], longest);
      forall k | 0 <= k < |pieces| ensures pieces[k] <= Sum(pieces) {
        assert k > 0 ==> pieces[k] == pieces[1..][k - 1];
      }
    }
  }

  /** No way to cut beats the recurrence. */
  lemma {:induction false} NoCutBeatsBest(price: seq<int>, len: nat, pieces: seq<int>)
    requires len < |price| && IsCut(pieces, len)
    ensures Value(price, pieces) <= Best(price, len)
    decreases |pieces|
  {
    if pieces != [] {
      var j, rest := pieces[0], pieces[1..];
      PiecesWithinSum(rest, len);
      NoCutBeatsBest(price, len - j, rest);
      BestUpToIsMax(price, len, len);
      assert Value(price, pieces) <= BestFirst(price, len, j);
    }
  }

  /** Some way to cut attains the recurrence. */
  lemma {:induction false} BestIsAttained(price: seq<int>, len: nat) returns (pieces: seq<int>)
    requires len < |price|
    ensures IsCut(pieces, len) && Value(price, pieces) == Best(price, len)
  {
    if len == 0 {
      pieces := [];
    } else {
      BestUpToIsMax(price, len, len);
      var j :| 1 <= j <= len && BestFirst(price, len, j) == Best(price, len);
      var rest := BestIsAttained(price, len - j);
      pieces := [j] + rest;
      assert pieces[1..] == rest;
    }
  }

  /** The recurrence computes the optimum, for prices of any sign. */
  lemma BestIsOptimum(price: seq<int>, len: nat)
    requires len < |price|
    ensures IsOptimum(price, len, Best(price, len))
  {
    var pieces := BestIsAttained(price, len);
    forall p | IsCut(p, len) ensures Value(price, p) <= Best(price, len) {
      NoCutBeatsBest(price, len, p);
    }
  }

  /** Every sum that the programs form fits a C int. */
  ghost predicate SumsFit(price: seq<int>, len: nat)
    requires len < |price|
  {
    forall i, j :: 1 <= j <= i <= len ==> INT_MIN <= BestFirst(price, i, j) <= INT_MAX
  }

  lemma ScaleUp(a: int, b: int, m: int)
    requires a <= b && 0 <= m
    ensures (a - 1) * m + m == a * m <= b * m
  {
  }

  lemma {:induction false} BestWithinPrices(price: seq<int>, len: nat, m: int)
    requires len < |price| && 0 <= m && forall j :: 1 <= j <= len ==> -m <= price[j] <= m
    ensures -(len * m) <= Best(price, len) <= len * m
  {
    if len > 0 {
      BestUpToIsMax(price, len, len);
      var j :| 1 <= j <= len && BestFirst(price, len, j) == Best(price, len);
      BestWithinPrices(price, len - j, m);
      ScaleUp(len - j + 1, len, m);
    }
  }

  /** Prices whose multiples by the length fit a C int never make a sum overflow. */
  lemma ModestPricesFit(price: seq<int>, len: nat, m: int)
    requires len < |price| && 0 <= m && forall j :: 1 <= j <= len ==> -m <= price[j] <= m
    requires len * m <= 0x7FFF_FFFF
    ensures SumsFit(price, len)
  {
    forall i, j | 1 <= j <= i <= len ensures INT_MIN <= BestFirst(price, i, j) <= INT_MAX {
      BestWithinPrices(price, i - j, m);
      ScaleUp(i - j + 1, len, m);
    }
  }

  // ---------- Bottom up ----------

  /** Lines 19 to 37 of the bottom-up program. */
  method BottomUpCutRod(price: seq<int>, len: nat) returns (ret: int)
    requires len < |price| && SumsFit(price, len)
    ensures ret == Best(price, len) && IsOptimum(price, len, ret)
  {
    var profits := new int[len + 1];
    profits[0] := 0;
    for i := 1 to len + 1
      invariant forall k :: 0 <= k < i ==> profits[k] == Best(price, k)
    {
      var max := INT_MIN;
      for j := 1 to i + 1
        invariant max == if j == 1 then INT_MIN else BestUpTo(price, i, j - 1)
        invariant forall k :: 0 <= k < i ==> profits[k] == Best(price, k)
      {
        var tmp := price[j] + profits[i - j];
        assert tmp == BestFirst(price, i, j);
        if tmp > max {
          max := tmp;
        }
      }
      profits[i] := max;
    }
    ret := profits[len];
    BestIsOptimum(price, len);
  }

  // ---------- With a memo ----------

  /** A non-negative entry is the true optimum for its length; a negative one says nothing. */
  ghost predicate MemoSound(price: seq<int>, profits: seq<int>) {
    |profits| <= |price| && forall k :: 0 <= k < |profits| && profits[k] >= 0 ==> profits[k] == Best(price, k)
  }

  /** No optimum for a length below `n` is negative. */
  ghost predicate NeverNegative(price: seq<int>, n: int)
    requires n <= |price|
  {
    forall k :: 0 <= k < n ==> Best(price, k) >= 0
  }

  lemma {:induction false} UnitPieces(price: seq<int>, len: nat)
    requires len < |price| && (len == 0 || price[1] >= 0)
    ensures Best(price, len) >= 0
  {
    if len > 0 {
      UnitPieces(price, len - 1);
      BestUpToIsMax(price, len, len);
      assert BestFirst(price, len, 1) >= 0;
    }
  }

  /** The unit price decides: unit pieces keep every optimum non-negative, and a rod of
      length 1 can be sold in no other way. */
  lemma NeverNegativeIffUnitPays(price: seq<int>, n: int)
    requires 0 <= n <= |price| && 2 <= |price|
    ensures NeverNegative(price, n) <==> n <= 1 || price[1] >= 0
  {
    if price[1] >= 0 {
      forall k | 0 <= k < n ensures Best(price, k) >= 0 {
        UnitPieces(price, k);
      }
    } else if n > 1 {
      assert Best(price, 1) == price[1];
    }
  }

  lemma NonNegativePrices(price: seq<int>, len: nat)
    requires len < |price| && forall k :: 1 <= k <= len ==> price[k] >= 0
    ensures NeverNegative(price, len + 1)
  {
    if len > 0 { NeverNegativeIffUnitPays(price, len + 1); }
  }

  ghost function Triangle(n: nat): nat {
    if n == 0 then 0 else n + Triangle(n - 1)
  }

  lemma {:induction false} TriangleIsHalfProduct(n: nat)
    ensures 2 * Triangle(n) == n * (n + 1)
  {
    if n > 0 { TriangleIsHalfProduct(n - 1); }
  }

  /** What a call leaves behind: entries are only ever filled in, and only up to `len`. */
  ghost predicate Filled(price: seq<int>, before: seq<int>, after: seq<int>, len: nat) {
    && |before| == |after| && len < |after|
    && MemoSound(price, after) && after[len] == Best(price, len)
    && (forall k :: 0 <= k < |before| && before[k] >= 0 ==> after[k] == before[k])
    && (forall k :: len < k < |before| ==> after[k] == before[k])
  }

  ghost predicate Empty(profits: seq<int>, len: int)
    requires len < |profits|
  {
    forall k :: 0 <= k <= len ==> profits[k] < 0
  }

  ghost function Range(n: nat): (s: seq<int>)
    ensures |s| == n && (n > 0 ==> s == Range(n - 1) + [n - 1])
    ensures forall k :: 0 <= k < n ==> s[k] == k
  {
    if n == 0 then [] else Range(n - 1) + [n - 1]
  }

  /** Entries from `len` on are untouched, and no known entry changes. */
  ghost predicate Extends(price: seq<int>, before: seq<int>, after: seq<int>, len: nat) {
    && |before| == |after| && MemoSound(price, after)
    && (forall k :: 0 <= k < |before| && before[k] >= 0 ==> after[k] == before[k])
    && (forall k :: len <= k < |before| ==> after[k] == before[k])
  }

  /** The memo spares a call from a rod of length `len` all repeated work. */
  ghost predicate Spared(price: seq<int>, len: nat)
    requires len < |price|
  {
    len <= 2 || price[1] >= 0
  }

  /** The cost of a call on an empty memo: each length is computed just once, or some length
      again and again. */
  ghost predicate EmptyMemoCost(price: seq<int>, after: seq<int>, len: nat, calls: nat, stores: seq<int>)
    requires len < |after| && len < |price|
  {
    if Spared(price, len) then
      && calls == 1 + Triangle(len) && stores == Range(len + 1)
      && forall k :: 0 <= k < len ==> after[k] == Best(price, k)
    else
      calls > 1 + Triangle(len) && |stores| > len + 1
  }

  /** The cost of the loop on an empty memo once first pieces below `i` have been tried. */
  ghost predicate LoopCost(price: seq<int>, after: seq<int>, len: nat, i: nat, calls: nat, stores: seq<int>)
    requires 0 < len < |after| && len < |price| && i <= len + 1
  {
    if Spared(price, len) then
      && calls == Triangle(len - 1) + i && stores == Range(len)
      && forall k :: 0 <= k < len ==> after[k] == Best(price, k)
    else
      && calls >= Triangle(len - 1) + i && |stores| >= len
      && (len > 3 || i > 2 ==> calls > Triangle(len - 1) + i && |stores| > len)
  }

  lemma FirstPieceCost(price: seq<int>, after: seq<int>, len: nat, c: nat, s: seq<int>)
    requires 0 < len < |after| && len < |price| && MemoSound(price, after) && after[len - 1] == Best(price, len - 1)
    requires EmptyMemoCost(price, after, len - 1, c, s)
    ensures LoopCost(price, after, len, 2, 1 + c, s)
  {
  }

  /** What a call costs at least, by whether its length is already stored. */
  ghost predicate CallCost(entry: int, len: nat, calls: nat, stores: seq<int>) {
    if entry >= 0 then calls == 1 && stores == [] else calls >= 1 + len && stores != []
  }

  lemma LeftKnown(price: seq<int>, during: seq<int>, after: seq<int>, len: nat, left: nat)
    requires left < len < |price| && len < |during| && (left == 0 || price[1] >= 0)
    requires Filled(price, during, after, left) && forall k :: 0 <= k < len ==> during[k] == Best(price, k)
    ensures during[left] >= 0 && forall k :: 0 <= k < len ==> after[k] == during[k]
  {
    UnitPieces(price, left);
    forall k | 0 <= k <= left ensures during[k] >= 0 {
      UnitPieces(price, k);
    }
  }

  /** A later first piece is looked up. */
  lemma NextPieceSpared(price: seq<int>, during: seq<int>, after: seq<int>, len: nat, i: nat,
                        calls: nat, stores: seq<int>, c: nat, s: seq<int>)
    requires 2 <= i <= len < |price| && len < |during| && (len <= 2 || price[1] >= 0)
    requires Filled(price, during, after, len - i)
    requires LoopCost(price, during, len, i, calls, stores) && CallCost(during[len - i], len - i, c, s)
    ensures LoopCost(price, after, len, i + 1, calls + c, stores + s)
  {
    LeftKnown(price, during, after, len, len - i);
    assert stores + [] == stores;
  }

  /** A later first piece is looked up, or length 1 is computed once more. */
  lemma NextPieceNotSpared(price: seq<int>, during: seq<int>, after: seq<int>, len: nat, i: nat,
                           calls: nat, stores: seq<int>, c: nat, s: seq<int>)
    requires 2 <= i <= len < |price| && len < |during| && !Spared(price, len) && MemoSound(price, during)
    requires LoopCost(price, during, len, i, calls, stores) && CallCost(during[len - i], len - i, c, s)
    requires |after| == |during|
    ensures LoopCost(price, after, len, i + 1, calls + c, stores + s)
  {
    assert Best(price, 1) == price[1];
    assert len == 3 && i == 2 ==> during[1] < 0;
  }

  /** The loop before first piece `i`, started on the memo `before`. */
  ghost predicate Tally(price: seq<int>, before: seq<int>, now: seq<int>, len: nat, i: nat,
                        calls: nat, stores: seq<int>)
    requires 0 < len < |now| && len < |price| && 1 <= i <= len + 1 && |before| == |now|
  {
    if i == 1 then now == before && calls == 1 && stores == []
    else Empty(before, len) ==> LoopCost(price, now, len, i, calls, stores)
  }

  /** What the call for first piece `i` adds to the cost of the loop. */
  lemma PieceCost(price: seq<int>, before: seq<int>, during: seq<int>, after: seq<int>, len: nat, i: nat,
                  calls: nat, stores: seq<int>, c: nat, s: seq<int>)
    requires 1 <= i <= len < |price| && len < |during| == |before| && MemoSound(price, during)
    requires Filled(price, during, after, len - i) && Tally(price, before, during, len, i, calls, stores)
    requires CallCost(during[len - i], len - i, c, s)
    requires Empty(during, len - i) ==> EmptyMemoCost(price, after, len - i, c, s)
    ensures Tally(price, before, after, len, i + 1, calls + c, stores + s)
  {
    if Empty(before, len) {
      if i == 1 {
        FirstPieceCost(price, after, len, c, s);
        assert [] + s == s;
      } else if Spared(price, len) {
        NextPieceSpared(price, during, after, len, i, calls, stores, c, s);
      } else {
        NextPieceNotSpared(price, during, after, len, i, calls, stores, c, s);
      }
    }
  }

  /** The memo array. Every call raises `calls` itself, and `stores` lists the lengths stored at
      line 38, in order. */
  class Memo {
    const profits: array<int>
    ghost var calls: nat
    ghost var stores: seq<int>

    /** Lines 51 to 53. */
    constructor (len: nat)
      ensures fresh(profits) && profits.Length == len + 1 && forall k :: 0 <= k <= len ==> profits[k] == INT_MIN
      ensures calls == 0 && stores == []
    {
      profits := new int[len + 1](_ => INT_MIN);
      calls, stores := 0, [];
    }

    /** Line 38. */
    method Store(len: nat, ret: int)
      requires len < profits.Length
      modifies profits, this`stores
      ensures profits[..] == old(profits[..])[len := ret] && stores == old(stores) + [len]
    {
      profits[len] := ret;
      stores := stores + [len];
    }
  }

  /** What a call has cost: the calls made and the lengths stored since. */
  ghost predicate Charged(calls0: nat, stores0: seq<int>, calls: nat, stores: seq<int>, c: nat, s: seq<int>) {
    calls == calls0 + c && stores == stores0 + s
  }

  lemma ChargedTwice(calls0: nat, stores0: seq<int>, calls: nat, stores: seq<int>, c: nat, s: seq<int>,
                     calls1: nat, stores1: seq<int>, c1: nat, s1: seq<int>)
    requires Charged(calls0, stores0, calls, stores, c, s) && Charged(calls, stores, calls1, stores1, c1, s1)
    ensures Charged(calls0, stores0, calls1, stores1, c + c1, s + s1)
  {
    Assoc(stores0, s, s1);
  }

  lemma ExtendsOn(price: seq<int>, before: seq<int>, during: seq<int>, after: seq<int>, len: nat, left: nat)
    requires Extends(price, before, during, len) && Filled(price, during, after, left) && left < len
    ensures Extends(price, before, after, len)
  {
  }

  /** The loop before first piece `i`, started on the memo `before`, when it has cost `c` and `s`. */
  ghost predicate Tried(price: seq<int>, before: seq<int>, now: seq<int>, len: nat, i: nat, ret: int,
                        c: nat, s: seq<int>)
    requires 0 < len < |price| && 1 <= i <= len + 1
  {
    && ret == (if i == 1 then INT_MIN else BestUpTo(price, len, i - 1)) && c >= i - 1
    && Extends(price, before, now, len) && len < |now| && Tally(price, before, now, len, i, 1 + c, s)
  }

  /** Lines 31 to 35: one first piece, whose call costs `c1` and `s1`. */
  method TryPiece(price: seq<int>, len: nat, i: nat, memo: Memo, best: int,
                  ghost before: seq<int>, ghost c: nat, ghost s: seq<int>)
      returns (ret: int, ghost c1: nat, ghost s1: seq<int>)
    requires 1 <= i <= len < memo.profits.Length <= |price| && SumsFit(price, len)
    requires Tried(price, before, memo.profits[..], len, i, best, c, s)
    modifies memo`calls, memo`stores, memo.profits
    ensures Charged(old(memo.calls), old(memo.stores), memo.calls, memo.stores, c1, s1)
    ensures Tried(price, before, memo.profits[..], len, i + 1, ret, c + c1, s + s1)
    decreases len, 0
  {
    ghost var during := memo.profits[..];
    var t;
    t, c1, s1 := MemoizedCutRodAux(price, len - i, memo);
    ghost var after := memo.profits[..];
    ExtendsOn(price, before, during, after, len, len - i);
    PieceCost(price, before, during, after, len, i, 1 + c, s, c1, s1);
    var tmp := price[i] + t;
    assert tmp == BestFirst(price, len, i);
    ret := if tmp > best then tmp else best;
  }

  /** Lines 30 to 36, the loop over the first piece, which costs `c` and `s` in all. */
  method TryFirstPieces(price: seq<int>, len: nat, memo: Memo) returns (ret: int, ghost c: nat, ghost s: seq<int>)
    requires 0 < len < memo.profits.Length && MemoSound(price, memo.profits[..]) && SumsFit(price, len)
    modifies memo`calls, memo`stores, memo.profits
    ensures ret == Best(price, len) && Extends(price, old(memo.profits[..]), memo.profits[..], len)
    ensures Charged(old(memo.calls), old(memo.stores), memo.calls, memo.stores, c, s) && c >= len
    ensures old(Empty(memo.profits[..], len)) ==> LoopCost(price, memo.profits[..], len, len + 1, 1 + c, s)
    decreases len, 1
  {
    ghost var before, calls0, stores0 := memo.profits[..], memo.calls, memo.stores;
    c, s := 0, [];
    ret := INT_MIN;
    for i := 1 to len + 1
      invariant Charged(calls0, stores0, memo.calls, memo.stores, c, s)
      invariant Tried(price, before, memo.profits[..], len, i, ret, c, s)
    {
      ghost var calls1, stores1, c1, s1 := memo.calls, memo.stores, 0, [];
      ret, c1, s1 := TryPiece(price, len, i, memo, ret, before, c, s);
      ChargedTwice(calls0, stores0, calls1, stores1, c, s, memo.calls, memo.stores, c1, s1);
      c, s := c + c1, s + s1;
    }
  }

  /** Lines 20 to 40 of the memoized program. What the memo has been charged is `c` calls, this
      one included, and the stores `s`. */
  method MemoizedCutRodAux(price: seq<int>, len: nat, memo: Memo) returns (ret: int, ghost c: nat, ghost s: seq<int>)
    requires len < memo.profits.Length && MemoSound(price, memo.profits[..]) && SumsFit(price, len)
    modifies memo`calls, memo`stores, memo.profits
    ensures ret == Best(price, len) && Filled(price, old(memo.profits[..]), memo.profits[..], len)
    ensures Charged(old(memo.calls), old(memo.stores), memo.calls, memo.stores, c, s)
    ensures CallCost(old(memo.profits[len]), len, c, s)
    ensures old(Empty(memo.profits[..], len)) ==> EmptyMemoCost(price, memo.profits[..], len, c, s)
    decreases len, 2
  {
    memo.calls := memo.calls + 1;
    if memo.profits[len] >= 0 {
      return memo.profits[len], 1, [];
    }
    if len == 0 {
      ret, c, s := 0, 1, [];
    } else {
      ret, c, s := TryFirstPieces(price, len, memo);
      c := c + 1;
    }
    Assoc(old(memo.stores), s, [len]);
    memo.Store(len, ret);
    s := s + [len];
  }

  /** Lines 48 to 57 of the memoized program: the optimum, with each length computed once
      exactly when the unit price is not negative or the rod is too short for it to matter. */
  method MemoizedCutRod(price: seq<int>, len: nat) returns (ret: int, memo: Memo)
    requires len < |price| && SumsFit(price, len)
    ensures ret == Best(price, len) && IsOptimum(price, len, ret)
    ensures fresh(memo) && memo.calls >= 1 + Triangle(len) && |memo.stores| >= len + 1
    ensures memo.calls == 1 + Triangle(len) <==> len <= 2 || price[1] >= 0
    ensures memo.stores == Range(len + 1) <==> len <= 2 || price[1] >= 0
  {
    memo := new Memo(len);
    ghost var c, s;
    ret, c, s := MemoizedCutRodAux(price, len, memo);
    BestIsOptimum(price, len);
  }

  /** Four prices with which a rod of length 3 costs more than `1 + Triangle(3)` calls and 4
      stores: length 1 is worth -1, which the memo takes for unknown. */
  lemma NegativeUnitPrice()
    ensures var price := [0, -1, -1, -1];
      && SumsFit(price, 3) && Best(price, 1) == -1 && !NeverNegative(price, 2)
      && forall after, calls, stores :: |after| == 4 && EmptyMemoCost(price, after, 3, calls, stores)
           ==> calls > 7 && |stores| > 4
  {
    var price := [0, -1, -1, -1];
    assert Best(price, 1) == -1;
    assert Best(price, 2) == -1 by { assert BestFirst(price, 2, 1) == -2; }
    assert Triangle(3) == 6;
  }
}
