/**
 * The arithmetic behind sieving one window (start, start + len] with the
 * odd base primes: where the first odd multiple of a prime lies, which
 * slots the 2p-stride visits, and why "divisible by an odd base prime"
 * means "composite" inside a window.
 */
module Segment {
  import opened Primality

  /** Slot k (k >= 1) of the window above start holds a multiple of p. */
  predicate MultipleSlot(start: int, p: int, k: int)
  {
    k >= 1 && Divides(p, start + k)
  }

  /** Slot k of the window above start holds an odd multiple of p. */
  predicate OddMultipleSlot(start: int, p: int, k: int)
  {
    MultipleSlot(start, p, k) && (start + k) % 2 == 1
  }

  /**
   * The first offset of the source, p - start % p: it lies in [1, p] and
   * start + offset is the least multiple of p strictly above start.
   */
  lemma FirstMultipleAbove(start: int, p: int)
    requires start >= 0 && p >= 1
    ensures 1 <= p - start % p <= p
    ensures MultipleSlot(start, p, p - start % p)
    ensures forall d :: 1 <= d < p - start % p ==> !MultipleSlot(start, p, d)
  {
    var q, r := start / p, start % p;
    assert start == p * q + r;
    assert start + (p - r) == p * (q + 1);
    MultipleMod(p, q + 1);
    forall d | 1 <= d < p - r
      ensures !MultipleSlot(start, p, d)
    {
      DivModUnique(p, q, r + d);
      assert start + d == p * q + (r + d);
    }
  }

  /** The offset after the parity fix of the source. */
  function OddOffset(start: int, p: int): int
    requires p >= 1
  {
    var o := p - start % p;
    if o % 2 == start % 2 then o + p else o
  }

  /**
   * For an odd p, OddOffset lands on the least odd multiple of p above
   * start, within [1, 2p].
   */
  lemma OddOffsetFacts(start: int, p: int)
    requires start >= 0 && p >= 3 && p % 2 == 1
    ensures 1 <= OddOffset(start, p) <= 2 * p
    ensures OddMultipleSlot(start, p, OddOffset(start, p))
    ensures forall k :: 1 <= k < OddOffset(start, p) ==> !OddMultipleSlot(start, p, k)
  {
    FirstMultipleAbove(start, p);
    ParityFix(start, p, p - start % p);
  }

  /** The parity fix, for any offset o of the least multiple of p above start. */
  lemma ParityFix(start: int, p: int, o: int)
    requires p >= 3 && p % 2 == 1 && 1 <= o <= p
    requires MultipleSlot(start, p, o)
    requires forall d :: 1 <= d < o ==> !MultipleSlot(start, p, d)
    ensures var o2 := if o % 2 == start % 2 then o + p else o;
      1 <= o2 <= 2 * p && OddMultipleSlot(start, p, o2) &&
      forall k :: 1 <= k < o2 ==> !OddMultipleSlot(start, p, k)
  {
    SumParity(start, o);
    if o % 2 == start % 2 {
      ParityFixShift(start, p, o);
    }
  }

  /** When start + o is even, the next multiple start + o + p is the least odd one. */
  lemma ParityFixShift(start: int, p: int, o: int)
    requires p >= 3 && p % 2 == 1 && 1 <= o <= p
    requires MultipleSlot(start, p, o) && (start + o) % 2 == 0
    requires forall d :: 1 <= d < o ==> !MultipleSlot(start, p, d)
    ensures OddMultipleSlot(start, p, o + p)
    ensures forall k :: 1 <= k < o + p ==> !OddMultipleSlot(start, p, k)
  {
    SumParity(start + o, p);
    MultipleMod(p, 1);
    DividesSum(p, start + o, p);
    assert start + (o + p) == (start + o) + p;
    forall k | 1 <= k < o + p
      ensures !OddMultipleSlot(start, p, k)
    {
      if o < k && MultipleSlot(start, p, k) {
        MultiplesApart(p, start + o, start + k);
      }
    }
  }

  /** The parity of a sum and of a difference. */
  lemma SumParity(a: int, b: int)
    ensures (a + b) % 2 == if a % 2 == b % 2 then 0 else 1
    ensures (a - b) % 2 == if a % 2 == b % 2 then 0 else 1
  {
    var qa, qb := a / 2, b / 2;
    assert a == 2 * qa + a % 2 && b == 2 * qb + b % 2;
    assert a + b == 2 * (qa + qb) + (a % 2 + b % 2);
    assert a - b == 2 * (qa - qb) + (a % 2 - b % 2);
  }

  /**
   * The odd multiples of an odd p above start are exactly the slots
   * OddOffset + 2p * m.
   */
  lemma OddMultipleSlots(start: int, p: int, k: int)
    requires start >= 0 && p >= 3 && p % 2 == 1
    ensures OddMultipleSlot(start, p, k) <==>
              k >= OddOffset(start, p) && Divides(2 * p, k - OddOffset(start, p))
  {
    OddOffsetFacts(start, p);
    StrideSlots(start, p, OddOffset(start, p), k);
  }

  /** From the least odd multiple slot o, the odd multiple slots step by 2p. */
  lemma StrideSlots(start: int, p: int, o: int, k: int)
    requires p >= 3 && p % 2 == 1 && o >= 1
    requires OddMultipleSlot(start, p, o)
    requires forall d :: 1 <= d < o ==> !OddMultipleSlot(start, p, d)
    ensures OddMultipleSlot(start, p, k) <==> k >= o && Divides(2 * p, k - o)
  {
    if OddMultipleSlot(start, p, k) {
      StrideSlotsOnly(start, p, o, k);
    }
    if k >= o && Divides(2 * p, k - o) {
      StrideSlotsAll(start, p, o, k);
    }
  }

  lemma StrideSlotsOnly(start: int, p: int, o: int, k: int)
    requires p >= 3 && p % 2 == 1 && o >= 1
    requires OddMultipleSlot(start, p, o) && OddMultipleSlot(start, p, k)
    requires forall d :: 1 <= d < o ==> !OddMultipleSlot(start, p, d)
    ensures k >= o && Divides(2 * p, k - o)
  {
    assert k >= o;
    DividesSum(p, start + k, start + o);
    assert (start + k) - (start + o) == k - o;
    SumParity(start + k, start + o);
    OddEvenMultiple(p, k - o);
  }

  lemma StrideSlotsAll(start: int, p: int, o: int, k: int)
    requires p >= 3 && p % 2 == 1 && o >= 1
    requires OddMultipleSlot(start, p, o)
    requires k >= o && Divides(2 * p, k - o)
    ensures OddMultipleSlot(start, p, k)
  {
    DividesQuotient(2 * p, k - o);
    var m := (k - o) / (2 * p);
    DoubleProduct(p, m);
    var pm := p * m;
    assert k - o == 2 * pm;
    MultipleMod(p, 2 * m);
    DividesSum(p, start + o, k - o);
    assert start + k == (start + o) + 2 * pm;
    SumParity(start + o, 2 * pm);
  }

  /** Regrouping the factor 2 of a product. */
  lemma DoubleProduct(p: int, m: int)
    ensures (2 * p) * m == 2 * (p * m) && p * (2 * m) == 2 * (p * m)
  {
  }

  /** An even multiple of an odd p is a multiple of 2p. */
  lemma OddEvenMultiple(p: int, d: int)
    requires p >= 1 && p % 2 == 1 && Divides(p, d) && d % 2 == 0
    ensures Divides(2 * p, d)
  {
    DividesQuotient(p, d);
    var m := d / p;
    OddFactorParity(p, m);
    assert d == (2 * p) * (m / 2);
    MultipleMod(2 * p, m / 2);
  }

  /** An odd factor keeps the parity of the other factor. */
  lemma OddFactorParity(p: int, m: int)
    requires p % 2 == 1
    ensures (p * m) % 2 == m % 2
    ensures (p * m) % 2 == 0 ==> m == 2 * (m / 2)
  {
    var h := p / 2;
    assert p == 2 * h + 1;
    assert p * m == 2 * (h * m) + m;
    DivModUnique(2, h * m + m / 2, m % 2);
  }

  /** Some base prime bp[t] with 1 <= t < j (so not bp[0] == 2) divides x. */
  predicate SievedBy(bp: seq<int>, j: int, x: int)
  {
    exists t :: 1 <= t < j && t < |bp| && Divides(bp[t], x)
  }

  /** Sieving with one more base prime. */
  lemma SievedByStep(bp: seq<int>, j: int, x: int)
    requires 1 <= j < |bp|
    ensures SievedBy(bp, j + 1, x) <==> SievedBy(bp, j, x) || Divides(bp[j], x)
  {
    if SievedBy(bp, j + 1, x) {
      var t :| 1 <= t < j + 1 && t < |bp| && Divides(bp[t], x);
      if t < j {
        assert SievedBy(bp, j, x);
      }
    }
  }

  /**
   * Inside a window above W and below W * W, an odd x is composite exactly
   * when one of the odd base primes (all of PrimesUpTo(W) but its first
   * element 2) divides it.
   */
  lemma WindowSieve(w: int, x: int)
    requires w >= 2 && w < x <= w * w && x % 2 == 1
    ensures SievedBy(PrimesUpTo(w), |PrimesUpTo(w)|, x) <==> !IsPrime(x)
  {
    var bp := PrimesUpTo(w);
    PrimesUpToMembers(w);
    PrimesUpToStartsWithTwo(w);
    if SievedBy(bp, |bp|, x) {
      var t :| 1 <= t < |bp| && Divides(bp[t], x);
      assert bp[t] in bp;
      assert 2 <= bp[t] <= w < x;
    }
    if !IsPrime(x) {
      var q := LeastDivisor(x);
      LeastDivisorIsPrime(x);
      LeastDivisorSquare(x);
      SquareMonotone(w, q);
      assert q in bp;
      var t :| 0 <= t < |bp| && bp[t] == q;
      if q == 2 {
        DividesQuotient(2, x);
      }
      assert t != 0;
      assert 1 <= t < |bp| && Divides(bp[t], x);
    }
  }
}
