/** Facts about divisors and primes shared by the primality programs of
    course/algorithm/other.md and course/algorithm/src/other/twin-prime.c. */
module Primes {

  predicate Divides(d: int, n: int)
    requires d > 0
  {
    n % d == 0
  }

  predicate IsPrime(n: int) {
    2 <= n && forall d :: 2 <= d < n ==> !Divides(d, n)
  }

  predicate IsComposite(n: int) {
    2 <= n && !IsPrime(n)
  }

  /** The least divisor of `n` that is at least `d`. */
  ghost function LeastFrom(d: int, n: int): (p: int)
    requires 2 <= d <= n
    ensures d <= p <= n && Divides(p, n)
    ensures forall m :: d <= m < p ==> !Divides(m, n)
    decreases n - d
  {
    if Divides(d, n) then d else LeastFrom(d + 1, n)
  }

  /** The least prime factor of `n`. */
  ghost function Lpf(n: int): (p: int)
    requires 2 <= n
    ensures 2 <= p <= n && Divides(p, n)
    ensures forall m :: 2 <= m < p ==> !Divides(m, n)
  {
    LeastFrom(2, n)
  }

  /** What is left of `n` after dividing out its least prime factor. */
  ghost function Cofactor(n: int): int
    requires 2 <= n
  {
    n / Lpf(n)
  }

  lemma MultipleDivides(a: int, k: int)
    requires 0 < a
    ensures Divides(a, k * a) && Divides(a, a * k) && (k * a) / a == k
  {
  }

  lemma DividesTrans(a: int, b: int, c: int)
    requires 0 < a && 0 < b && Divides(a, b) && Divides(b, c)
    ensures Divides(a, c)
  {
    var k, m := b / a, c / b;
    assert c == m * (k * a) == (m * k) * a;
    MultipleDivides(a, m * k);
  }

  /** Division with remainder has only one answer. */
  lemma UniqueQuotient(n: int, d: int, q: int, r: int)
    requires 0 < d && n == q * d + r && 0 <= r < d
    ensures n / d == q && n % d == r
  {
    var q', r' := n / d, n % d;
    assert (q - q') * d == r' - r;
    assert q - q' >= 1 ==> (q - q') * d >= d;
    assert q - q' <= -1 ==> (q - q') * d <= -d;
  }

  lemma LpfIsPrime(n: int)
    requires 2 <= n
    ensures IsPrime(Lpf(n))
  {
    var p := Lpf(n);
    forall d | 2 <= d < p ensures !Divides(d, p) {
      if Divides(d, p) { DividesTrans(d, p, n); }
    }
  }

  lemma PrimeIffOwnLpf(n: int)
    requires 2 <= n
    ensures IsPrime(n) <==> Lpf(n) == n
  {
  }

  lemma MulAtMost(a: int, b: int, k: int)
    requires a <= b && 0 <= k
    ensures a * k <= b * k
  {
  }

  /** Cancelling a factor: a proper divisor at least 2 leaves a proper quotient. */
  lemma QuotientBounds(n: int, d: int)
    requires 2 <= d < n && Divides(d, n)
    ensures 2 <= n / d < n && n == (n / d) * d && Divides(n / d, n)
  {
    var q := n / d;
    if q <= 1 { MulAtMost(q, 1, d); }
    MulAtMost(2, d, n);
    if q >= n { MulAtMost(n, q, d); }
    MultipleDivides(q, d);
  }

  /** A composite is its cofactor times its least prime factor, and both the cofactor
      and every divisor of the cofactor are at least the least prime factor. */
  lemma {:induction false} CompositeSplits(n: int)
    requires IsComposite(n)
    ensures n == Cofactor(n) * Lpf(n)
    ensures Lpf(n) <= Lpf(Cofactor(n)) <= Cofactor(n) < n
    ensures Lpf(n) * Lpf(n) <= n
  {
    var p := Lpf(n);
    PrimeIffOwnLpf(n);
    QuotientBounds(n, p);
    var q := n / p;
    DividesTrans(Lpf(q), q, n);
    assert p <= Lpf(q);
    MulAtMost(p, q, p);
  }

  lemma SameSplitSameNumber(x: int, y: int)
    requires IsComposite(x) && IsComposite(y) && Lpf(x) == Lpf(y) && Cofactor(x) == Cofactor(y)
    ensures x == y
  {
  }

  /** The extended Euclidean algorithm. */
  lemma Gcd(a: int, b: int) returns (g: int, x: int, y: int)
    requires 0 < a && 0 < b
    ensures 0 < g <= a && Divides(g, a) && Divides(g, b) && g == x * a + y * b
    decreases a
  {
    var q, r := b / a, b % a;
    if r == 0 {
      g, x, y := a, 1, 0;
    } else {
      var u, v;
      g, u, v := Gcd(r, a);
      // g == u * (b - q * a) + v * a
      x, y := v - u * q, u;
      assert b == q * a + r;
      calc {
        x * a + y * b;
        v * a - u * q * a + u * b;
        v * a + u * (b - q * a);
        g;
      }
      var k, m := a / g, r / g;
      assert b == (q * k + m) * g by { assert a == k * g && r == m * g; }
      MultipleDivides(g, q * k + m);
    }
  }

  /** A prime and a larger prime are coprime, so some combination of them is 1. */
  lemma Bezout(l: int, p: int) returns (x: int, y: int)
    requires IsPrime(l) && IsPrime(p) && l < p
    ensures x * l + y * p == 1
  {
    var g;
    g, x, y := Gcd(l, p);
    if g != 1 { assert false; }
  }

  /** A prime that divides `i * p`, with `p` a larger prime, divides `i`. */
  lemma EuclidLemma(l: int, i: int, p: int)
    requires IsPrime(l) && IsPrime(p) && l < p && Divides(l, i * p)
    ensures Divides(l, i)
  {
    var x, y := Bezout(l, p);
    var k := (i * p) / l;
    calc {
      i;
      i * (x * l + y * p);
      (i * x) * l + y * (i * p);
      (i * x) * l + y * (k * l);
      (i * x + y * k) * l;
    }
    MultipleDivides(l, i * x + y * k);
  }

  lemma ProductIsComposite(i: int, p: int)
    requires 2 <= i && 2 <= p
    ensures p < i * p && Divides(p, i * p) && (i * p) / p == i
    ensures IsComposite(i * p)
  {
    MulAtMost(2, i, p);
    MultipleDivides(p, i);
  }

  /** The least prime factor of `i * p`, with `p` a prime not above any factor of `i`, is `p`. */
  lemma {:induction false} LpfOfProduct(i: int, p: int)
    requires 2 <= i && IsPrime(p) && p <= Lpf(i)
    ensures IsComposite(i * p) && Lpf(i * p) == p && Cofactor(i * p) == i
  {
    ProductIsComposite(i, p);
    LpfIsPrime(i * p);
    if Lpf(i * p) < p { EuclidLemma(Lpf(i * p), i, p); }
  }

  /** The increasing list of the primes below `n`. */
  ghost function PrimesBelow(n: int): seq<int> {
    if n <= 2 then [] else PrimesBelow(n - 1) + (if IsPrime(n - 1) then [n - 1] else [])
  }

  lemma PrimesBelowIsSortedAndComplete(n: int)
    ensures forall x :: x in PrimesBelow(n) <==> IsPrime(x) && x < n
    ensures forall a, b :: 0 <= a < b < |PrimesBelow(n)| ==> PrimesBelow(n)[a] < PrimesBelow(n)[b]
  {
    if n > 2 {
      PrimesBelowIsSortedAndComplete(n - 1);
      var ps := PrimesBelow(n - 1);
      forall a | 0 <= a < |ps| ensures ps[a] < n - 1 {
        assert ps[a] in ps;
      }
    }
  }

  ghost function CompositesBelow(n: int): set<int> {
    set c | 2 <= c < n && IsComposite(c)
  }

  /** Primes and composites share out the numbers from 2 up. */
  lemma {:induction false} PrimesAndCompositesPartition(n: int)
    requires 2 <= n
    ensures |CompositesBelow(n)| + |PrimesBelow(n)| == n - 2
  {
    if n == 2 {
      assert CompositesBelow(2) == {};
    } else {
      PrimesAndCompositesPartition(n - 1);
      if IsPrime(n - 1) {
        assert CompositesBelow(n) == CompositesBelow(n - 1);
      } else {
        assert CompositesBelow(n) == CompositesBelow(n - 1) + {n - 1};
      }
    }
  }
}
