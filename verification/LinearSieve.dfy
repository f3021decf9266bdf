/** The linear sieve (course/algorithm/other.md, lines 78 to 122): every composite is struck
    once, by its least prime factor. */
module LinearSieve {
  import opened Primes
  import opened Sequences

  /** One store of the inner loop: the cell, the outer counter and the prime. */
  datatype Store = Store(cell: int, i: int, p: int)

  /** The store that strikes composite `c`. */
  ghost function StoreOf(c: int): Store
    requires 2 <= c
  {
    Store(c, Cofactor(c), Lpf(c))
  }

  /** `c` is struck in a round before `i`, or in round `i` by one of the primes `ps`. */
  ghost predicate Struck(c: int, i: int, ps: seq<int>) {
    IsComposite(c) && (Cofactor(c) < i || (Cofactor(c) == i && Lpf(c) in ps))
  }

  ghost predicate MarksAre(marks: seq<bool>, i: int, ps: seq<int>) {
    forall c :: 2 <= c < |marks| ==> (marks[c] <==> Struck(c, i, ps))
  }

  ghost function Marked(marks: seq<bool>): set<int> {
    set c | 2 <= c < |marks| && marks[c]
  }

  /** The stores done so far are those of the marked cells, each once. */
  ghost predicate StoresAre(stores: seq<Store>, marks: seq<bool>) {
    && |stores| == |Marked(marks)|
    && (forall c :: c in Marked(marks) ==> StoreOf(c) in stores)
    && (forall e :: e in stores ==> e.cell in Marked(marks) && e == StoreOf(e.cell))
    && Distinct(stores)
  }

  /** `i` is divided by none of the primes `ps`. */
  ghost predicate NoneDivides(ps: seq<int>, i: int) {
    forall p :: p in ps ==> p > 0 && !Divides(p, i)
  }

  /** In round `i` every prime up to the first divisor of `i` is at most `Lpf(i)`. */
  lemma PrimeNotPastBreak(i: int, ps: seq<int>, j: int)
    requires 2 <= i && ps == PrimesBelow(i + 1) && 0 <= j <= |ps| && NoneDivides(ps[..j], i)
    ensures j < |ps| && IsPrime(ps[j]) && ps[j] <= Lpf(i) && ps[j] !in ps[..j]
  {
    PrimesBelowIsSortedAndComplete(i + 1);
    LpfIsPrime(i);
    assert ps == ps[..j] + ps[j..];
    var k :| 0 <= k < |ps[j..]| && ps[j..][k] == Lpf(i);
    assert ps[j] in ps;
  }

  /** The cell `c` struck by `(i, p)` is new, and is the only one it adds. */
  lemma StrikeMarks(marks: seq<bool>, i: int, ps: seq<int>, c: int)
    requires 2 <= c < |marks| && IsComposite(c) && Cofactor(c) == i && Lpf(c) !in ps
    requires MarksAre(marks, i, ps)
    ensures !marks[c] && MarksAre(marks[c := true], i, ps + [Lpf(c)])
  {
    forall x | 2 <= x < |marks| && x != c ensures marks[x] <==> Struck(x, i, ps + [Lpf(c)]) {
      if IsComposite(x) && Cofactor(x) == i && Lpf(x) == Lpf(c) {
        SameSplitSameNumber(x, c);
      }
    }
  }

  lemma StrikeStores(marks: seq<bool>, stores: seq<Store>, c: int)
    requires 2 <= c < |marks| && !marks[c] && StoresAre(stores, marks)
    ensures StoresAre(stores + [StoreOf(c)], marks[c := true])
  {
    var marks' := marks[c := true];
    assert Marked(marks') == Marked(marks) + {c} && c !in Marked(marks);
    assert StoreOf(c) !in stores;
  }

  /** Round `i` is over once every composite with cofactor `i` has met its prime. */
  lemma RoundComplete(marks: seq<bool>, i: int, ps: seq<int>)
    requires MarksAre(marks, i, ps)
    requires forall c :: 2 <= c < |marks| && IsComposite(c) && Cofactor(c) == i ==> Lpf(c) in ps
    ensures MarksAre(marks, i + 1, [])
  {
  }

  /** The prime that divides `i` is the last one that round `i` needs. */
  lemma BreakEndsRound(marks: seq<bool>, i: int, ps: seq<int>, j: int)
    requires 2 <= i && ps == PrimesBelow(i + 1) && 0 <= j < |ps| && MarksAre(marks, i, ps[..j + 1])
    requires ps[j] == Lpf(i)
    ensures MarksAre(marks, i + 1, [])
  {
    PrimesBelowIsSortedAndComplete(i + 1);
    forall c | 2 <= c < |marks| && IsComposite(c) && Cofactor(c) == i ensures Lpf(c) in ps[..j + 1] {
      CompositeSplits(c);
      LpfIsPrime(c);
      var k :| 0 <= k < |ps| && ps[k] == Lpf(c);
      assert ps[..j + 1][k] == Lpf(c);
    }
    RoundComplete(marks, i, ps[..j + 1]);
  }

  /** One pass of the inner loop, on the values it changes. */
  lemma StrikeStep(marks: seq<bool>, stores: seq<Store>, i: int, ps: seq<int>, j: int, p: int, cell: int)
    requires 2 <= i && ps == PrimesBelow(i + 1) && 0 <= j < |ps| && p == ps[j] && cell == i * p < |marks|
    requires NoneDivides(ps[..j], i) && MarksAre(marks, i, ps[..j]) && StoresAre(stores, marks)
    ensures 0 < p && 2 <= cell && !marks[cell]
    ensures MarksAre(marks[cell := true], i, ps[..j + 1])
    ensures StoresAre(stores + [Store(cell, i, p)], marks[cell := true])
    ensures if Divides(p, i) then MarksAre(marks[cell := true], i + 1, []) else NoneDivides(ps[..j + 1], i)
  {
    PrimeNotPastBreak(i, ps, j);
    LpfOfProduct(i, p);
    StrikeMarks(marks, i, ps[..j], cell);
    StrikeStores(marks, stores, cell);
    assert ps[..j + 1] == ps[..j] + [p];
    if Divides(p, i) {
      BreakEndsRound(marks[cell := true], i, ps, j);
    }
  }

  lemma ProductsPastBound(i: int, p: int, q: int, n: int)
    requires 0 <= i && i * p >= n && i * q < n
    ensures q < p
  {
  }

  /** A prime whose product with `i` is past the bound is one that round `i` can skip. */
  lemma BoundEndsRound(marks: seq<bool>, i: int, ps: seq<int>, j: int)
    requires 2 <= i && ps == PrimesBelow(i + 1) && 0 <= j < |ps| && MarksAre(marks, i, ps[..j])
    requires i * ps[j] >= |marks|
    ensures MarksAre(marks, i + 1, [])
  {
    PrimesBelowIsSortedAndComplete(i + 1);
    forall c | 2 <= c < |marks| && IsComposite(c) && Cofactor(c) == i ensures Lpf(c) in ps[..j] {
      CompositeSplits(c);
      LpfIsPrime(c);
      ProductsPastBound(i, ps[j], Lpf(c), |marks|);
      var k :| 0 <= k < |ps| && ps[k] == Lpf(c);
      assert ps[..j][k] == Lpf(c);
    }
    RoundComplete(marks, i, ps[..j]);
  }

  lemma CompositeSplitsIfAny(i: int)
    requires 2 <= i
    ensures IsComposite(i) ==> Cofactor(i) < i
  {
    if IsComposite(i) { CompositeSplits(i); }
  }

  /** At the start of round `i` the mark at `i` tells whether `i` is prime. */
  lemma RoundStart(marks: seq<bool>, i: int)
    requires 2 <= i < |marks| && MarksAre(marks, i, [])
    ensures PrimesBelow(i + 1) == PrimesBelow(i) + if marks[i] then [] else [i]
    ensures |PrimesBelow(i)| <= i - 2
  {
    CompositeSplitsIfAny(i);
    PrimesAndCompositesPartition(i);
  }

  /** After the last round every composite has been struck. */
  lemma AllSifted(marks: seq<bool>, i: int)
    requires i >= |marks| && MarksAre(marks, i, [])
    ensures Marked(marks) == CompositesBelow(|marks|)
    ensures forall c :: 2 <= c < |marks| ==> (marks[c] <==> IsComposite(c))
  {
    forall c | 2 <= c < |marks| ensures marks[c] <==> IsComposite(c) {
      CompositeSplitsIfAny(c);
    }
  }

  /** The sieve's file-level variables; `stores` records the stores of the inner loop. */
  class Sieve {
    var isComposite: array<bool>
    var primes: array<int>
    var primesSize: nat
    ghost var stores: seq<Store>

    /** After the rounds below `i`. */
    ghost predicate Sifted(n: int, i: int)
      reads this, isComposite, primes
    {
      && isComposite.Length == primes.Length == n && 2 <= i && primesSize <= n
      && primes[..primesSize] == PrimesBelow(i)
      && MarksAre(isComposite[..], i, [])
      && StoresAre(stores, isComposite[..])
    }

    constructor (n: nat)
      ensures fresh(isComposite) && fresh(primes) && Sifted(n, 2)
    {
      isComposite := new bool[n](_ => false);
      primes := new int[n];
      primesSize, stores := 0, [];
      new;
      assert Marked(isComposite[..]) == {};
      forall c | 2 <= c < n ensures !Struck(c, 2, []) {
        if IsComposite(c) { CompositeSplits(c); }
      }
    }

    /** Inside round `i`, with the primes up to `i` listed and the first `j` of them tried. */
    ghost predicate InRound(n: int, i: int, j: int)
      reads this, isComposite, primes
    {
      && 2 <= i < n && isComposite.Length == primes.Length == n && 0 <= j <= primesSize <= n
      && primes[..primesSize] == PrimesBelow(i + 1) && NoneDivides(PrimesBelow(i + 1)[..j], i)
      && MarksAre(isComposite[..], i, PrimesBelow(i + 1)[..j]) && StoresAre(stores, isComposite[..])
    }

    /** Line 94: every store of the inner loop is recorded with the pair that caused it. */
    method Mark(cell: int, i: int, p: int)
      requires 0 <= cell < isComposite.Length
      modifies isComposite, this`stores
      ensures isComposite[..] == old(isComposite[..])[cell := true] && stores == old(stores) + [Store(cell, i, p)]
    {
      isComposite[cell] := true;
      stores := stores + [Store(cell, i, p)];
    }

    /** Lines 93 to 100: the product of `i` and one prime is struck. */
    method Strike(n: int, i: int, j: int) returns (stop: bool)
      requires InRound(n, i, j) && j < primesSize && i * primes[j] < n
      modifies isComposite, this`stores
      ensures if stop then Sifted(n, i + 1) else InRound(n, i, j + 1)
    {
      ghost var marks := isComposite[..];
      ghost var ps := PrimesBelow(i + 1);
      var p := primes[j];
      assert p == ps[j];
      var cell := i * p;
      StrikeStep(marks, stores, i, ps, j, p, cell);
      Mark(cell, i, p);
      return i % p == 0;
    }

    /** Lines 92 to 101, the inner loop. */
    method StrikeRound(n: int, i: int)
      requires InRound(n, i, 0)
      modifies isComposite, this`stores
      ensures Sifted(n, i + 1)
    {
      var j := 0;
      while j < primesSize && i * primes[j] < n
        invariant InRound(n, i, j)
        decreases primesSize - j
      {
        var stop := Strike(n, i, j);
        if stop {
          return;
        }
        j := j + 1;
      }
      ghost var ps := PrimesBelow(i + 1);
      PrimeNotPastBreak(i, ps, j);
      assert primes[j] == ps[j];
      BoundEndsRound(isComposite[..], i, ps, j);
    }

    /** Lines 88 to 91: `i` joins the primes unless it is marked. */
    method ListIfPrime(n: int, i: int)
      requires Sifted(n, i) && i < n
      modifies primes, this`primesSize
      ensures InRound(n, i, 0)
    {
      RoundStart(isComposite[..], i);
      ghost var marks := isComposite[..];
      assert marks[i] == isComposite[i];
      if !isComposite[i] {
        primes[primesSize] := i;
        primesSize := primesSize + 1;
      }
      assert primes[..primesSize] == PrimesBelow(i + 1);
      assert PrimesBelow(i + 1)[..0] == [];
    }

    /** Lines 87 to 102: every composite below `n` is stored exactly once, as the
        product of its cofactor and its least prime factor. */
    method GetPrimes(n: int)
      requires Sifted(n, 2)
      modifies this, isComposite, primes
      ensures isComposite == old(isComposite) && primes == old(primes) && primesSize <= primes.Length
      ensures isComposite.Length == n && primes[..primesSize] == PrimesBelow(n)
      ensures forall c :: 2 <= c < n ==> (isComposite[c] <==> IsComposite(c))
      ensures StoresAre(stores, isComposite[..]) && Marked(isComposite[..]) == CompositesBelow(n)
    {
      var i := 2;
      while i < n
        invariant isComposite == old(isComposite) && primes == old(primes)
        invariant (i <= n || i == 2) && Sifted(n, i)
      {
        ListIfPrime(n, i);
        StrikeRound(n, i);
        i := i + 1;
      }
      AllSifted(isComposite[..], i);
      assert isComposite[..n] == isComposite[..];
    }
  }

  /** A faithful record holds the store of each composite once and of nothing else, so there
      are as many stores as composites. */
  lemma EachCompositeStoredOnce(stores: seq<Store>, marks: seq<bool>, c: int)
    requires StoresAre(stores, marks) && Marked(marks) == CompositesBelow(|marks|) && 2 <= c < |marks|
    ensures multiset(stores)[StoreOf(c)] == if c in CompositesBelow(|marks|) then 1 else 0
    ensures |stores| == |CompositesBelow(|marks|)|
    ensures forall e :: e in stores ==> e.cell == e.i * e.p && e.p == Lpf(e.cell)
  {
    OccursOnce(stores, StoreOf(c));
    forall e | e in stores ensures e.cell == e.i * e.p && e.p == Lpf(e.cell) {
      CompositeSplits(e.cell);
    }
  }

  /** Line 110: the count of primes below `n`. */
  method CountPrimes(n: int) returns (count: int)
    ensures count == |PrimesBelow(n)|
  {
    if n < 2 {
      return 0;
    }
    var sieve := new Sieve(n);
    sieve.GetPrimes(n);
    count := sieve.primesSize;
  }
}
