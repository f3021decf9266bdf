/** The other primality programs: trial division and the sieve of Eratosthenes
    (course/algorithm/other.md, lines 11 to 70), and the memoized test behind the twin-prime
    search (course/algorithm/src/other/twin-prime.c). */
module PrimeCounting {
  import opened Primes

  lemma RootBelow(p: int, n: int, i: int)
    requires 0 <= p && 0 <= i && p * p <= n < i * i
    ensures p < i
  {
    if i <= p {
      MulAtMost(i, p, i);
      MulAtMost(i, p, p);
    }
  }

  /** A number with no divisor up to its square root has none at all. */
  lemma NoSmallDivisor(n: int, i: int)
    requires 2 <= n && 2 <= i && i * i > n
    requires forall d :: 2 <= d < i && d < n ==> !Divides(d, n)
    ensures IsPrime(n)
  {
    if !IsPrime(n) {
      CompositeSplits(n);
      RootBelow(Lpf(n), n, i);
    }
  }

  lemma IsBelowSquare(i: int)
    requires 2 <= i
    ensures i < i * i
  {
  }

  /** Lines 11 to 18: trial division up to the square root. */
  method IsPrimeByTrial(num: int) returns (r: bool)
    ensures r <==> num < 2 || IsPrime(num)
  {
    var i := 2;
    while i * i <= num
      invariant 2 <= i && forall d :: 2 <= d < i && d < num ==> !Divides(d, num)
      decreases num - i
    {
      IsBelowSquare(i);
      if num % i == 0 {
        assert Divides(i, num);
        return false;
      }
      i := i + 1;
    }
    if 2 <= num { NoSmallDivisor(num, i); }
    return true;
  }

  method CountPrimesByTrial(n: int) returns (ret: int)
    ensures ret == |PrimesBelow(n)|
  {
    ret := 0;
    var i := 2;
    while i < n
      invariant 2 <= i && (i <= n || i == 2) && ret == |PrimesBelow(i)|
    {
      var b := IsPrimeByTrial(i);
      ret := ret + if b then 1 else 0;
      i := i + 1;
    }
  }

  // ---------- The sieve of Eratosthenes ----------

  /** Only composites are marked, and every composite with a prime factor below `i` is. */
  ghost predicate MarkedBelow(marks: seq<bool>, i: int) {
    && (forall c :: 2 <= c < |marks| && marks[c] ==> IsComposite(c))
    && (forall c :: 2 <= c < |marks| && IsComposite(c) && Lpf(c) < i ==> marks[c])
  }

  /** Cell `c` is struck in round `i` before the inner counter reaches `j`. */
  ghost predicate MarkedUpTo(marks: seq<bool>, i: int, j: int)
    requires 0 < i
  {
    forall c :: i < c < |marks| && c < j && Divides(i, c) && IsComposite(c) && Lpf(c) == i ==> marks[c]
  }

  /** The mark at `i` is settled before round `i` begins. */
  lemma MarkSettled(marks: seq<bool>, i: int)
    requires 2 <= i < |marks| && MarkedBelow(marks, i)
    ensures marks[i] <==> IsComposite(i)
  {
  }

  /** Numbers whose least prime factor is `i` start at `i * i`. */
  lemma NothingBelowSquare(marks: seq<bool>, i: int)
    requires 2 <= i
    ensures MarkedUpTo(marks, i, i * i)
  {
    forall c | 2 <= c && IsComposite(c) && Lpf(c) == i ensures c >= i * i {
      CompositeSplits(c);
    }
  }

  /** Between two consecutive multiples of `i` there is no other. */
  lemma NextMultiple(i: int, k: int, c: int)
    requires 0 < i && Divides(i, c) && k * i <= c < k * i + i
    ensures c == k * i
  {
    UniqueQuotient(c, i, k, c - k * i);
  }

  /** The cell `j`, the multiple of `i` by `k`, holds a composite. */
  lemma MultipleIsComposite(i: int, k: int, j: int)
    requires 2 <= i <= k && j == k * i
    ensures i < j && IsComposite(j) && j + i == (k + 1) * i
  {
    ProductIsComposite(k, i);
  }

  lemma MarkMultiple(marks: seq<bool>, i: int, k: int, j: int, next: int)
    requires 2 <= i < j < |marks| && IsComposite(j) && j == k * i && next == j + i
    requires MarkedBelow(marks, i) && MarkedUpTo(marks, i, j)
    ensures MarkedBelow(marks[j := true], i) && MarkedUpTo(marks[j := true], i, next)
  {
    var marks' := marks[j := true];
    forall c | i < c < |marks| && c < next && Divides(i, c) && IsComposite(c) && Lpf(c) == i ensures marks'[c] {
      if c >= j { NextMultiple(i, k, c); }
    }
  }

  lemma RoundOver(marks: seq<bool>, i: int, j: int)
    requires 2 <= i && MarkedBelow(marks, i)
    requires IsPrime(i) ==> j >= |marks| && MarkedUpTo(marks, i, j)
    ensures MarkedBelow(marks, i + 1)
  {
    forall c | 2 <= c < |marks| && IsComposite(c) && Lpf(c) == i ensures marks[c] {
      CompositeSplits(c);
      LpfIsPrime(c);
    }
  }

  /** The inner loop of lines 45 to 47. */
  method StrikeMultiples(isComposite: array<bool>, i: int)
    requires 2 <= i && MarkedBelow(isComposite[..], i) && IsPrime(i)
    modifies isComposite
    ensures MarkedBelow(isComposite[..], i + 1)
  {
    var j := i * i;
    ghost var k := i;
    NothingBelowSquare(isComposite[..], i);
    while j < isComposite.Length
      invariant i <= k && j == k * i && MarkedBelow(isComposite[..], i) && MarkedUpTo(isComposite[..], i, j)
      decreases isComposite.Length - j
    {
      ghost var marks := isComposite[..];
      MultipleIsComposite(i, k, j);
      MarkMultiple(marks, i, k, j, j + i);
      isComposite[j] := true;
      assert isComposite[..] == marks[j := true];
      j, k := j + i, k + 1;
    }
    RoundOver(isComposite[..], i, j);
  }

  /** Lines 38 to 51. */
  method GetComposites(isComposite: array<bool>)
    requires forall c :: 0 <= c < isComposite.Length ==> !isComposite[c]
    modifies isComposite
    ensures forall c :: 2 <= c < isComposite.Length ==> (isComposite[c] <==> IsComposite(c))
  {
    var n := isComposite.Length;
    var i := 2;
    while i < n
      invariant 2 <= i && MarkedBelow(isComposite[..], i)
    {
      ghost var marks := isComposite[..];
      MarkSettled(marks, i);
      assert marks[i] == isComposite[i];
      if !isComposite[i] && i * i < n {
        StrikeMultiples(isComposite, i);
      } else {
        NothingBelowSquare(marks, i);
        RoundOver(marks, i, i * i);
      }
      i := i + 1;
    }
    ghost var marks := isComposite[..];
    forall c | 2 <= c < n ensures isComposite[c] <==> IsComposite(c) {
      assert marks[c] == isComposite[c];
      if IsComposite(c) { CompositeSplits(c); }
    }
  }

  method CountPrimesByEratosthenes(n: int) returns (ret: int)
    ensures ret == |PrimesBelow(n)|
  {
    if n < 2 {
      return 0;
    }
    var isComposite := new bool[n](_ => false);
    GetComposites(isComposite);
    ret := 0;
    for i := 2 to n
      invariant ret == |PrimesBelow(i)|
    {
      ret := ret + if isComposite[i] then 0 else 1;
    }
  }

  // ---------- The memoized test and the twin primes ----------

  /** A non-zero memo entry is a correct verdict; a zero one says nothing. */
  ghost predicate MemoSound(results: seq<int>) {
    forall k :: 0 <= k < |results| ==> results[k] == 0 || (results[k] == 1 && (k < 2 || IsPrime(k)))
  }

  method IsPrimeMemoized(num: int, results: array<int>) returns (r: int)
    requires 0 <= num < results.Length && MemoSound(results[..])
    modifies results
    ensures MemoSound(results[..])
    ensures r == if num < 2 || IsPrime(num) then 1 else 0
    ensures results[num] == r && forall k :: 0 <= k < results.Length && k != num ==> results[k] == old(results[k])
  {
    ghost var memo := results[..];
    assert memo[num] == results[num];
    if results[num] != 0 {
      return results[num];
    }
    var i := 2;
    while i * i <= num
      invariant 2 <= i && results[..] == memo && forall d :: 2 <= d < i && d < num ==> !Divides(d, num)
      decreases num - i
    {
      IsBelowSquare(i);
      if num % i == 0 {
        assert Divides(i, num);
        return results[num];
      }
      i := i + 1;
    }
    if 2 <= num { NoSmallDivisor(num, i); }
    results[num] := 1;
    assert results[..] == memo[num := 1];
    return results[num];
  }

  /** The lower members of the twin-prime pairs whose upper member is below `n`. */
  ghost function TwinsBelow(n: int): seq<int> {
    if n <= 3 then []
    else TwinsBelow(n - 1) + (if IsPrime(n - 3) && IsPrime(n - 1) then [n - 3] else [])
  }

  /** The pairs reported once the lower members below `i` have been tried. */
  ghost function TwinsTried(n: int, i: int): seq<int> {
    TwinsBelow(if i + 2 < n then i + 2 else n)
  }

  lemma TryTwin(n: int, i: int, next: int)
    requires 2 <= i < n && next == i + 1
    ensures TwinsTried(n, next) ==
              TwinsTried(n, i) + if i + 2 < n && IsPrime(i) && IsPrime(i + 2) then [i] else []
  {
  }

  lemma NoTwinsTried(n: int)
    ensures TwinsTried(n, 2) == []
  {
    assert !IsPrime(1) && TwinsBelow(4) == [];
  }

  lemma {:induction false} TwinsBelowIsComplete(n: int, p: int)
    ensures p in TwinsBelow(n) <==> IsPrime(p) && IsPrime(p + 2) && p + 2 < n
  {
    if n > 3 { TwinsBelowIsComplete(n - 1, p); }
  }

  /** The lower member of a pair whose upper member is below `n`. */
  ghost predicate IsLowerTwin(p: int, n: int) {
    IsPrime(p) && IsPrime(p + 2) && p + 2 < n
  }

  /** The lower members of all pairs below `n`, each once, in increasing order. */
  ghost predicate AreTwins(pairs: seq<int>, n: int) {
    && (forall p :: p in pairs <==> IsLowerTwin(p, n))
    && (forall a, b :: 0 <= a < b < |pairs| ==> pairs[a] < pairs[b])
  }

  lemma {:induction false} TwinsBelowRise(n: int, a: int, b: int)
    requires 0 <= a < b < |TwinsBelow(n)|
    ensures TwinsBelow(n)[a] < TwinsBelow(n)[b]
  {
    var shorter := TwinsBelow(n - 1);
    if b < |shorter| {
      TwinsBelowRise(n - 1, a, b);
    } else {
      TwinsBelowIsComplete(n - 1, shorter[a]);
    }
  }

  lemma TwinsBelowAreTwins(n: int)
    ensures AreTwins(TwinsBelow(n), n)
  {
    var pairs := TwinsBelow(n);
    forall p ensures p in pairs <==> IsLowerTwin(p, n) {
      TwinsBelowIsComplete(n, p);
    }
    forall a, b | 0 <= a < b < |pairs| ensures pairs[a] < pairs[b] {
      TwinsBelowRise(n, a, b);
    }
  }

  /** Lines 28 to 35, with the bound as a parameter and the printed pairs returned. */
  method TwinPrimes(n: nat) returns (pairs: seq<int>)
    ensures pairs == TwinsBelow(n) && AreTwins(pairs, n)
  {
    var results := new int[n + 1](_ => 0);
    pairs := [];
    NoTwinsTried(n);
    var i := 2;
    while i < n
      invariant 2 <= i && fresh(results) && results.Length == n + 1 && MemoSound(results[..])
      invariant pairs == TwinsTried(n, i)
    {
      TryTwin(n, i, i + 1);
      var lower := IsPrimeMemoized(i, results);
      if lower != 0 && i + 2 < n {
        var upper := IsPrimeMemoized(i + 2, results);
        if upper != 0 {
          pairs := pairs + [i];
        }
      }
      i := i + 1;
    }
    TwinsBelowAreTwins(n);
  }

  /** The notes ask for the pairs that do not exceed `n`; the program stops below `n`.
      The two agree exactly when `n` is not itself the upper member of a pair. */
  lemma TwinsUpToBound(n: int)
    ensures (forall p :: IsPrime(p) && IsPrime(p + 2) && p + 2 <= n ==> p in TwinsBelow(n))
            <==> !(IsPrime(n - 2) && IsPrime(n))
  {
    forall p ensures p in TwinsBelow(n) <==> IsPrime(p) && IsPrime(p + 2) && p + 2 < n {
      TwinsBelowIsComplete(n, p);
    }
    assert IsPrime(n - 2) ==> n - 2 + 2 == n;
  }

  /** The bound of `main`, 100, is no prime: at this bound nothing is missed. */
  lemma BoundOfMainMissesNothing()
    ensures forall p :: IsPrime(p) && IsPrime(p + 2) && p + 2 <= 100 ==> p in TwinsBelow(100)
  {
    assert Divides(2, 100) && !IsPrime(100);
    TwinsUpToBound(100);
  }

  /** With bound 5 the pair (3, 5) would be missed. */
  lemma TwinsMissTheBound()
    ensures IsPrime(3) && IsPrime(5) && 3 !in TwinsBelow(5)
  {
    forall d | 2 <= d < 5 ensures !Divides(d, 5) {
    }
    TwinsBelowIsComplete(5, 3);
  }
}
