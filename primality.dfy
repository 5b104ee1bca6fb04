/**
 * Reference number theory for the prime counter: divisibility, primality,
 * the least divisor of a number, the prime-counting function and the
 * integer square roots that stand in for the floating-point
 * `Math.sqrt`/`Math.ceil` calls of the counter.
 */
module Primality {

  /** d is a positive divisor of k. */
  predicate Divides(d: int, k: int)
  {
    d > 0 && k % d == 0
  }

  /** The reference definition: k is at least 2 and no d in [2, k) divides it. */
  predicate IsPrime(k: int)
  {
    k >= 2 && forall d :: 2 <= d < k ==> !Divides(d, k)
  }

  // ---------------------------------------------------------------------
  // Arithmetic helpers (Euclidean division on non-negative operands)
  // ---------------------------------------------------------------------

  /** A non-zero multiple of p is at least p away from zero. */
  lemma MultipleAtLeast(p: int, d: int)
    requires p > 0
    ensures d >= 1 ==> p * d >= p
    ensures d <= -1 ==> p * d <= -p
  {
  }

  /** Division of p * q + s by p, when 0 <= s < p, leaves quotient q and remainder s. */
  lemma DivModUnique(p: int, q: int, s: int)
    requires p > 0 && 0 <= s < p
    ensures (p * q + s) / p == q && (p * q + s) % p == s
  {
    var x := p * q + s;
    var q' := x / p;
    var s' := x % p;
    assert x == p * q' + s';
    assert p * (q - q') == s' - s;
    MultipleAtLeast(p, q - q');
  }

  /** Multiples of p, by the remainder. */
  lemma MultipleMod(p: int, q: int)
    requires p > 0
    ensures Divides(p, p * q)
  {
    DivModUnique(p, q, 0);
  }

  /** A multiple of p is p times its quotient. */
  lemma DividesQuotient(p: int, x: int)
    requires Divides(p, x)
    ensures x == p * (x / p)
  {
  }

  /** Two multiples of q with y in [x, x + q) are equal. */
  lemma MultiplesApart(q: int, x: int, y: int)
    requires Divides(q, x) && Divides(q, y) && x <= y < x + q
    ensures x == y
  {
    DividesQuotient(q, x);
    DividesQuotient(q, y);
    var a, b := x / q, y / q;
    assert q * (b - a) == y - x;
    MultipleAtLeast(q, b - a);
  }

  /** Divisibility is transitive. */
  lemma DividesTransitive(a: int, b: int, c: int)
    requires Divides(a, b) && Divides(b, c)
    ensures Divides(a, c)
  {
    DividesQuotient(a, b);
    DividesQuotient(b, c);
    assert c == a * ((b / a) * (c / b));
    MultipleMod(a, (b / a) * (c / b));
  }

  /** Sums and differences of multiples are multiples. */
  lemma DividesSum(d: int, x: int, y: int)
    requires Divides(d, x) && Divides(d, y)
    ensures Divides(d, x + y) && Divides(d, x - y)
  {
    DividesQuotient(d, x);
    DividesQuotient(d, y);
    assert x + y == d * (x / d + y / d);
    assert x - y == d * (x / d - y / d);
    MultipleMod(d, x / d + y / d);
    MultipleMod(d, x / d - y / d);
  }

  /** Multiplying by a non-negative factor keeps the order. */
  lemma MulMonotone(x: int, y: int, c: int)
    requires x <= y && c >= 0
    ensures x * c <= y * c
  {
    assert y * c - x * c == (y - x) * c;
  }

  /** For non-negative operands, a < b exactly when a * a < b * b. */
  lemma SquareMonotone(a: int, b: int)
    requires 0 <= a && 0 <= b
    ensures a < b <==> a * a < b * b
  {
    if a < b {
      assert a * a <= a * b;
      assert a * b < b * b;
    } else {
      assert b * b <= b * a;
      assert b * a <= a * a;
    }
  }

  // ---------------------------------------------------------------------
  // Least divisor
  // ---------------------------------------------------------------------

  /** The least divisor of k that is at least d. */
  function LeastDivisorFrom(k: int, d: int): (r: int)
    requires 2 <= d <= k
    ensures d <= r <= k && Divides(r, k)
    ensures forall e :: d <= e < r ==> !Divides(e, k)
    decreases k - d
  {
    if Divides(d, k) then d else LeastDivisorFrom(k, d + 1)
  }

  /** The least divisor of k above 1: the smallest prime factor of k. */
  function LeastDivisor(k: int): (r: int)
    requires k >= 2
  {
    LeastDivisorFrom(k, 2)
  }

  /** The least divisor of k is prime, and it is k exactly when k is prime. */
  lemma LeastDivisorIsPrime(k: int)
    requires k >= 2
    ensures IsPrime(LeastDivisor(k))
    ensures IsPrime(k) <==> LeastDivisor(k) == k
  {
    var r := LeastDivisor(k);
    forall e | 2 <= e < r
      ensures !Divides(e, r)
    {
      if Divides(e, r) {
        DividesTransitive(e, r, k);
      }
    }
  }

  /** A composite k has its least divisor at most the square root of k. */
  lemma LeastDivisorSquare(k: int)
    requires k >= 2 && !IsPrime(k)
    ensures LeastDivisor(k) * LeastDivisor(k) <= k
  {
    LeastDivisorIsPrime(k);
    var r := LeastDivisor(k);
    var q := k / r;
    DividesQuotient(r, k);
    assert k == q * r;
    MultipleMod(q, r);
    assert q >= 2;
    assert Divides(q, k);
    assert r <= q;
    assert r * r <= q * r;
  }

  /**
   * Classic sieve step: a k marked before sieving with the prime p (composite
   * with least divisor below p) or marked by p (a multiple of p from p * p on)
   * is exactly a composite whose least divisor is at most p.
   */
  lemma SieveStep(p: int, k: int)
    requires IsPrime(p) && k >= 2
    ensures ((!IsPrime(k) && LeastDivisor(k) < p) || (p * p <= k && Divides(p, k)))
            <==> (!IsPrime(k) && LeastDivisor(k) <= p)
  {
    LeastDivisorIsPrime(k);
    if p * p <= k && Divides(p, k) {
      assert p * p >= 2 * p;
      assert !IsPrime(k);
    }
    if !IsPrime(k) && LeastDivisor(k) == p {
      LeastDivisorSquare(k);
    }
  }

  /** An even number above 2 is not prime. */
  lemma EvenNotPrime(x: int)
    requires x > 2 && x % 2 == 0
    ensures !IsPrime(x)
  {
    assert Divides(2, x);
  }

  // ---------------------------------------------------------------------
  // Counting primes
  // ---------------------------------------------------------------------

  /** The number of primes in the interval (lo, hi]. */
  function PrimesIn(lo: int, hi: int): (r: nat)
    ensures r <= if hi <= lo then 0 else hi - lo
    decreases hi - lo
  {
    if hi <= lo then 0 else PrimesIn(lo, hi - 1) + (if IsPrime(hi) then 1 else 0)
  }

  /** The prime-counting function: the number of primes <= n. */
  function Pi(n: int): nat
  {
    PrimesIn(0, n)
  }

  /** Counting over adjacent intervals adds up. */
  lemma {:induction false} PrimesInSplit(a: int, b: int, c: int)
    requires a <= b <= c
    ensures PrimesIn(a, b) + PrimesIn(b, c) == PrimesIn(a, c)
    decreases c - b
  {
    if b < c {
      PrimesInSplit(a, b, c - 1);
    }
  }

  /** Pi is monotone. */
  lemma PiMonotone(n1: int, n2: int)
    requires n1 <= n2
    ensures Pi(n1) <= Pi(n2)
  {
    if 0 <= n1 {
      PrimesInSplit(0, n1, n2);
    } else {
      assert Pi(n1) == 0;
    }
  }

  /** Known values of the prime-counting function at the small bounds. */
  lemma SmallCounts()
    ensures Pi(0) == 0 && Pi(1) == 0 && Pi(2) == 1 && Pi(3) == 2 && Pi(10) == 4
  {
    assert IsPrime(2) && IsPrime(3) && IsPrime(5) && IsPrime(7);
    assert Divides(2, 4) && Divides(2, 6) && Divides(2, 8) && Divides(3, 9) && Divides(2, 10);
  }

  /** The primes <= n in increasing order. */
  function PrimesUpTo(n: int): seq<int>
    decreases n
  {
    if n < 2 then [] else PrimesUpTo(n - 1) + (if IsPrime(n) then [n] else [])
  }

  /** PrimesUpTo(n) holds exactly the primes <= n. */
  lemma {:induction false} PrimesUpToMembers(n: int)
    ensures forall x :: x in PrimesUpTo(n) <==> IsPrime(x) && x <= n
    decreases n
  {
    if n >= 2 {
      PrimesUpToMembers(n - 1);
    }
  }

  /** PrimesUpTo(n) is strictly increasing. */
  lemma {:induction false} PrimesUpToIncreasing(n: int)
    ensures forall i, j :: 0 <= i < j < |PrimesUpTo(n)| ==> PrimesUpTo(n)[i] < PrimesUpTo(n)[j]
    decreases n
  {
    if n >= 2 {
      PrimesUpToIncreasing(n - 1);
      PrimesUpToMembers(n - 1);
      var s := PrimesUpTo(n - 1);
      assert forall i :: 0 <= i < |s| ==> s[i] in s;
    }
  }

  /** PrimesUpTo(n) has Pi(n) elements. */
  lemma {:induction false} PrimesUpToLength(n: int)
    ensures |PrimesUpTo(n)| == Pi(n)
    decreases n
  {
    if n >= 2 {
      PrimesUpToLength(n - 1);
    } else if n >= 0 {
      assert !IsPrime(1) && !IsPrime(0);
      assert Pi(n) == 0;
    }
  }

  /** For n >= 2 the list starts with 2, the least prime. */
  lemma {:induction false} PrimesUpToStartsWithTwo(n: int)
    requires n >= 2
    ensures |PrimesUpTo(n)| >= 1 && PrimesUpTo(n)[0] == 2
    decreases n
  {
    if n == 2 {
      assert IsPrime(2);
      assert PrimesUpTo(1) == [];
    } else {
      PrimesUpToStartsWithTwo(n - 1);
    }
  }

  // ---------------------------------------------------------------------
  // Integer square roots
  // ---------------------------------------------------------------------

  /** The integer square root, rounded down: the value of (int) Math.sqrt(n). */
  function FloorSqrt(n: nat): (r: nat)
    ensures r * r <= n < (r + 1) * (r + 1)
  {
    if n < 2 then n
    else
      var h := FloorSqrt(n / 4);
      var s := 2 * h;
      FloorSqrtStep(n, h);
      if (s + 1) * (s + 1) <= n then s + 1 else s
  }

  /** Doubling the root of n / 4 brackets the root of n. */
  lemma FloorSqrtStep(n: nat, h: nat)
    requires h * h <= n / 4 < (h + 1) * (h + 1)
    ensures (2 * h) * (2 * h) <= n < (2 * h + 2) * (2 * h + 2)
  {
    var a, b := h * h, (h + 1) * (h + 1);
    assert (2 * h) * (2 * h) == 4 * a;
    assert (2 * h + 2) * (2 * h + 2) == 4 * b;
    assert n == 4 * (n / 4) + n % 4;
  }

  /** The root rounded down is at most n. */
  lemma FloorSqrtBelow(n: nat)
    ensures FloorSqrt(n) <= n
  {
    var r := FloorSqrt(n);
    if r >= 1 {
      MultipleAtLeast(r, r);
    }
  }

  /** The integer square root, rounded up: the value of (int) Math.ceil(Math.sqrt(n)). */
  function CeilSqrt(n: nat): (r: nat)
    ensures n >= 1 ==> (r - 1) * (r - 1) < n <= r * r
    ensures n >= 2 ==> 2 <= r <= n
  {
    var f := FloorSqrt(n);
    var r := if f * f == n then f else f + 1;
    CeilSqrtBounds(n, f, r);
    r
  }

  /** Rounding the floor root up when n is not a square brackets n from above. */
  lemma CeilSqrtBounds(n: nat, f: nat, r: nat)
    requires f * f <= n < (f + 1) * (f + 1)
    requires r == if f * f == n then f else f + 1
    ensures n >= 1 ==> (r - 1) * (r - 1) < n <= r * r
    ensures n >= 2 ==> 2 <= r <= n
  {
    var sq := f * f;
    assert (f - 1) * (f - 1) == sq - 2 * f + 1;
    assert (f + 1) * (f + 1) == sq + 2 * f + 1;
    if f <= 1 {
      assert sq == f;
    } else {
      MultipleAtLeast(f, f);
    }
  }
}
