/** The greedy longest palindrome, against every palindrome the letters allow
    (course/algorithm/greedy.md). */
module Palindrome {

  const CODES: nat := 255

  ghost predicate IsPalindrome(t: seq<int>) {
    forall k :: 0 <= k < |t| ==> t[k] == t[|t| - 1 - k]
  }

  ghost predicate InRange(s: seq<int>) {
    forall k :: 0 <= k < |s| ==> 0 <= s[k] < CODES
  }

  /** The codes of the letters, and all others below 255, are counted. */
  lemma CodesInRange(s: seq<int>)
    ensures InRange(s) <==> forall k :: 0 <= k < |s| ==> 0 <= s[k] <= 254
    ensures (forall k :: 0 <= k < |s| ==> 'A' as int <= s[k] <= 'z' as int) ==> InRange(s)
  {
  }

  /** `t` can be spelled with the letters of `s`. */
  ghost predicate SpelledFrom(t: seq<int>, s: seq<int>) {
    multiset(t) <= multiset(s)
  }

  /** The letters below code `c` that come in pairs, counted singly. */
  ghost function Paired(bag: multiset<int>, c: nat): nat {
    if c == 0 then 0 else Paired(bag, c - 1) + bag[c - 1] / 2 * 2
  }

  /** How many codes below `c` occur an odd number of times. */
  ghost function Odd(bag: multiset<int>, c: nat): nat {
    if c == 0 then 0 else Odd(bag, c - 1) + bag[c - 1] % 2
  }

  // ---------- Nothing is longer ----------

  lemma {:induction false} AddOneLetter(bag: multiset<int>, x: int, c: nat)
    requires 0 <= x
    ensures Paired(bag + multiset{x}, c) + Odd(bag + multiset{x}, c)
         == Paired(bag, c) + Odd(bag, c) + if x < c then 1 else 0
  {
    if c > 0 { AddOneLetter(bag, x, c - 1); }
  }

  lemma EmptyBag(c: nat)
    ensures Paired(multiset{}, c) == 0 && Odd(multiset{}, c) == 0
  {
  }

  /** Paired and odd letters make up the whole string. */
  lemma {:induction false} LettersAddUp(s: seq<int>)
    requires InRange(s)
    ensures Paired(multiset(s), CODES) + Odd(multiset(s), CODES) == |s|
  {
    if s == [] {
      EmptyBag(CODES);
    } else {
      var n := |s| - 1;
      LettersAddUp(s[..n]);
      AddOneLetter(multiset(s[..n]), s[n], CODES);
      assert s == s[..n] + [s[n]];
    }
  }

  lemma {:induction false} PairedMonotonic(a: multiset<int>, b: multiset<int>, c: nat)
    requires a <= b
    ensures Paired(a, c) <= Paired(b, c)
  {
    if c > 0 { PairedMonotonic(a, b, c - 1); }
  }

  lemma {:induction false} AddPair(bag: multiset<int>, x: int, c: nat)
    requires 0 <= x
    ensures Paired(bag + multiset{x, x}, c) == Paired(bag, c) + if x < c then 2 else 0
  {
    if c > 0 { AddPair(bag, x, c - 1); }
  }

  /** Taking off both ends of a palindrome removes one letter twice. */
  lemma StripEnds(t: seq<int>)
    requires IsPalindrome(t) && |t| >= 2
    ensures IsPalindrome(t[1..|t| - 1]) && multiset(t) == multiset(t[1..|t| - 1]) + multiset{t[0], t[0]}
  {
    var n := |t| - 1;
    var u := t[1..n];
    forall k | 0 <= k < |u| ensures u[k] == u[|u| - 1 - k] {
      assert t[k + 1] == t[n - (k + 1)];
    }
    assert t[0] == t[n];
    assert t == [t[0]] + u + [t[0]];
  }

  lemma PairedIsEven(bag: multiset<int>, c: nat)
    ensures Paired(bag, c) % 2 == 0
  {
  }

  lemma ShortHasNoPair(t: seq<int>)
    requires |t| <= 1 && InRange(t)
    ensures Paired(multiset(t), CODES) == 0
  {
    LettersAddUp(t);
    PairedIsEven(multiset(t), CODES);
  }

  /** In a palindrome all letters but the middle one come in pairs. */
  lemma {:induction false} PalindromePairs(t: seq<int>)
    requires IsPalindrome(t) && InRange(t)
    ensures Paired(multiset(t), CODES) == |t| - |t| % 2
  {
    if |t| <= 1 {
      ShortHasNoPair(t);
    } else {
      var u := t[1..|t| - 1];
      StripEnds(t);
      PalindromePairs(u);
      AddPair(multiset(u), t[0], CODES);
      assert |u| % 2 == |t| % 2;
    }
  }

  // ---------- Something is that long ----------

  /** Half of every pair below code `c`. */
  ghost function Halves(bag: multiset<int>, c: nat): seq<int> {
    if c == 0 then [] else Halves(bag, c - 1) + seq(bag[c - 1] / 2, _ => c - 1)
  }

  lemma {:induction false} CopiesCount(n: nat, x: int, y: int)
    ensures multiset(seq(n, _ => x))[y] == if y == x then n else 0
  {
    if n > 0 {
      CopiesCount(n - 1, x, y);
      assert seq(n, _ => x) == seq(n - 1, _ => x) + [x];
    }
  }

  lemma {:induction false} HalvesCount(bag: multiset<int>, c: nat, x: int)
    ensures multiset(Halves(bag, c))[x] == if 0 <= x < c then bag[x] / 2 else 0
  {
    if c > 0 {
      var d := c - 1;
      HalvesCount(bag, d, x);
      CopiesCount(bag[d] / 2, d, x);
      assert Halves(bag, c) == Halves(bag, d) + seq(bag[d] / 2, _ => d);
    }
  }

  lemma {:induction false} HalvesLength(bag: multiset<int>, c: nat)
    ensures 2 * |Halves(bag, c)| == Paired(bag, c)
  {
    if c > 0 { HalvesLength(bag, c - 1); }
  }

  ghost function Reversed(s: seq<int>): (r: seq<int>)
    ensures |r| == |s| && forall k :: 0 <= k < |s| ==> r[k] == s[|s| - 1 - k]
  {
    if s == [] then [] else Reversed(s[1..]) + [s[0]]
  }

  lemma {:induction false} ReversedBag(s: seq<int>)
    ensures multiset(Reversed(s)) == multiset(s)
  {
    if s != [] {
      ReversedBag(s[1..]);
      assert s == [s[0]] + s[1..];
    }
  }

  lemma Mirror(h: seq<int>, mid: seq<int>)
    requires |mid| <= 1
    ensures IsPalindrome(Reversed(h) + mid + h)
  {
  }

  lemma MirrorBag(h: seq<int>, mid: seq<int>)
    ensures multiset(Reversed(h) + mid + h) == multiset(h) + multiset(mid) + multiset(h)
  {
    ReversedBag(h);
  }

  lemma {:induction false} SomeOddCode(bag: multiset<int>, c: nat) returns (x: int)
    requires Odd(bag, c) > 0
    ensures 0 <= x < c && bag[x] % 2 == 1
  {
    if bag[c - 1] % 2 == 1 {
      x := c - 1;
    } else {
      x := SomeOddCode(bag, c - 1);
    }
  }

  /** The length the loop arrives at: all pairs, and one more if some letter is left over. */
  ghost function Greedy(s: seq<int>): nat {
    Paired(multiset(s), CODES) + if Odd(multiset(s), CODES) > 0 then 1 else 0
  }

  /** The letters of `s` spell a palindrome of the greedy length. */
  lemma GreedyIsAttained(s: seq<int>) returns (t: seq<int>)
    ensures IsPalindrome(t) && SpelledFrom(t, s)
    ensures |t| == Greedy(s)
  {
    var bag := multiset(s);
    var h, mid := Halves(bag, CODES), [];
    HalvesLength(bag, CODES);
    if Odd(bag, CODES) > 0 {
      var x := SomeOddCode(bag, CODES);
      mid := [x];
    }
    Mirror(h, mid);
    MirrorBag(h, mid);
    t := Reversed(h) + mid + h;
    forall x ensures multiset(t)[x] <= bag[x] {
      HalvesCount(bag, CODES, x);
    }
  }

  lemma SpelledIsNoLonger(t: seq<int>, s: seq<int>)
    requires SpelledFrom(t, s)
    ensures |t| <= |s|
  {
    assert |multiset(s)| == |multiset(t)| + |multiset(s) - multiset(t)|;
  }

  lemma NothingBeatsGreedy(s: seq<int>, t: seq<int>)
    requires InRange(s) && IsPalindrome(t) && SpelledFrom(t, s)
    ensures |t| <= Greedy(s)
  {
    forall k | 0 <= k < |t| ensures 0 <= t[k] < CODES {
      assert t[k] in multiset(s);
    }
    PalindromePairs(t);
    PairedMonotonic(multiset(t), multiset(s), CODES);
    LettersAddUp(s);
    SpelledIsNoLonger(t, s);
    PairedIsEven(multiset(s), CODES);
  }

  /** Lines 10 to 15: how often each code occurs. */
  method CountLetters(s: seq<int>) returns (charCount: array<int>)
    requires InRange(s)
    ensures charCount.Length == CODES && forall c :: 0 <= c < CODES ==> charCount[c] == multiset(s)[c]
  {
    charCount := new int[CODES](_ => 0);
    for i := 0 to |s|
      invariant forall c :: 0 <= c < CODES ==> charCount[c] == multiset(s[..i])[c]
    {
      assert s[..i + 1] == s[..i] + [s[i]];
      charCount[s[i]] := charCount[s[i]] + 1;
    }
    assert s[..|s|] == s;
  }

  /** Lines 7 to 24, on the character codes of the string. */
  method LongestPalindrome(s: seq<int>) returns (ret: int)
    requires InRange(s)
    ensures exists t :: IsPalindrome(t) && SpelledFrom(t, s) && |t| == ret
    ensures forall t :: IsPalindrome(t) && SpelledFrom(t, s) ==> |t| <= ret
  {
    var charCount := CountLetters(s);
    ret := 0;
    ghost var bag := multiset(s);
    for i := 0 to CODES
      invariant ret == Paired(bag, i) + if Odd(bag, i) > 0 then 1 else 0
      invariant forall c :: 0 <= c < CODES ==> charCount[c] == bag[c]
    {
      PairedIsEven(bag, i + 1);
      ret := ret + charCount[i] / 2 * 2;
      if charCount[i] % 2 != 0 && ret % 2 == 0 {
        ret := ret + 1;
      }
    }
    var t := GreedyIsAttained(s);
    forall t | IsPalindrome(t) && SpelledFrom(t, s) ensures |t| <= ret {
      NothingBeatsGreedy(s, t);
    }
  }
}
