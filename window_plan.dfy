/**
 * The plan that splits (0, n] into windows of size w: window 0 is (0, w]
 * (counted by the base sieve), window i is (i*w, i*w + w] for
 * 1 <= i < m with m = n / w, and the trailing window (m*w, n] is shorter.
 * Worker t of `step` workers takes windows t+1, t+1+step, ... below m,
 * and the worker whose stride lands exactly on m also takes the trailing
 * window. These ghost definitions give each worker's share of the count
 * and prove that the shares add up to the primes in (w, n].
 */
module WindowPlan {
  import opened Primality

  /** The windows the stride i, i+step, ... visits below m, in order. */
  function Windows(m: int, step: int, i: int): seq<int>
    requires step >= 1
    decreases m - i
  {
    if i >= m then [] else [i] + Windows(m, step, i + step)
  }

  /** The primes in the full windows listed in ws. */
  function SumWindows(w: int, ws: seq<int>): nat
  {
    if ws == [] then 0 else PrimesIn(ws[0] * w, ws[0] * w + w) + SumWindows(w, ws[1..])
  }

  /** The first index of the stride from i that is not below m. */
  function FinalIndex(m: int, step: int, i: int): int
    requires step >= 1
    decreases m - i
  {
    if i >= m then i else FinalIndex(m, step, i + step)
  }

  /** The primes of the trailing window, if the stride ends at a start below n. */
  function TrailCount(n: int, w: int, f: int): nat
  {
    if f * w < n then PrimesIn(f * w, n) else 0
  }

  /** What the worker whose stride starts at window a counts. */
  function WorkerShare(n: int, w: int, m: int, step: int, a: int): nat
    requires step >= 1
  {
    SumWindows(w, Windows(m, step, a)) + TrailCount(n, w, FinalIndex(m, step, a))
  }

  /** The shares of the k workers whose strides start at a, a+1, ..., a+k-1. */
  function SharesSum(n: int, w: int, m: int, step: int, a: int, k: int): nat
    requires step >= 1
    decreases k
  {
    if k <= 0 then 0 else SharesSum(n, w, m, step, a, k - 1) + WorkerShare(n, w, m, step, a + k - 1)
  }

  // ---------------------------------------------------------------------
  // Window arithmetic
  // ---------------------------------------------------------------------

  /** n lies in the last (possibly empty) stretch above m*w, m = n / w. */
  lemma FullWindows(n: int, w: int)
    requires n >= 0 && w >= 1
    ensures (n / w) * w <= n < (n / w) * w + w
  {
  }

  /** Window i (1 <= i < n / w) lies above w and inside (0, n]. */
  lemma WindowInRange(n: int, w: int, i: int)
    requires n >= 0 && w >= 1 && 1 <= i < n / w
    ensures w <= i * w && i * w + w <= n
  {
    FullWindows(n, w);
    MulMonotone(i + 1, n / w, w);
    MulMonotone(1, i, w);
    assert i * w + w == (i + 1) * w;
  }

  /** Beyond the trailing window every start is at least n. */
  lemma PastTheEnd(n: int, w: int, f: int)
    requires n >= 0 && w >= 1 && f > n / w
    ensures f * w >= n
  {
    FullWindows(n, w);
    MulMonotone(n / w + 1, f, w);
    assert (n / w + 1) * w == (n / w) * w + w;
  }

  // ---------------------------------------------------------------------
  // The round-robin assignment
  // ---------------------------------------------------------------------

  /** The stride from i visits exactly the indices in [i, m) congruent to i. */
  lemma {:induction false} WindowsMembers(m: int, step: int, i: int, x: int)
    requires step >= 1
    ensures x in Windows(m, step, i) <==> i <= x < m && Divides(step, x - i)
    decreases m - i
  {
    if i < m {
      WindowsMembers(m, step, i + step, x);
      if i + step <= x {
        DividesStepShift(step, x - i);
      } else if i <= x {
        if Divides(step, x - i) {
          MultiplesApart(step, 0, x - i);
        }
      }
    }
  }

  /** Subtracting step keeps divisibility by step. */
  lemma DividesStepShift(step: int, d: int)
    requires step >= 1
    ensures Divides(step, d) <==> Divides(step, d - step)
  {
    MultipleMod(step, 1);
    if Divides(step, d) {
      DividesSum(step, d, step);
    }
    if Divides(step, d - step) {
      DividesSum(step, d - step, step);
      assert (d - step) + step == d;
    }
  }

  /**
   * Every window 1 <= x < m belongs to exactly one of the workers
   * t = 0 .. step-1: the one with t == (x - 1) % step.
   */
  lemma WindowOwner(m: int, step: int, t: int, x: int)
    requires step >= 1 && 0 <= t < step && 1 <= x < m
    ensures x in Windows(m, step, t + 1) <==> t == (x - 1) % step
  {
    WindowsMembers(m, step, t + 1, x);
    var q, r := (x - 1) / step, (x - 1) % step;
    assert x - (t + 1) == step * q + (r - t);
    if Divides(step, x - (t + 1)) {
      DividesQuotient(step, x - (t + 1));
      DivModUnique(step, (x - (t + 1)) / step, 0);
      assert r - t == step * ((x - (t + 1)) / step - q);
      MultipleAtLeast(step, (x - (t + 1)) / step - q);
    }
    if t == r {
      assert x - (t + 1) == step * q;
      MultipleMod(step, q);
    }
  }

  /**
   * The stride from a (a < m + step) ends in [m, m + step), a whole
   * number of steps past a.
   */
  lemma {:induction false} FinalIndexFacts(m: int, step: int, a: int)
    requires step >= 1 && a < m + step
    ensures m <= FinalIndex(m, step, a) < m + step
    ensures FinalIndex(m, step, a) >= a && Divides(step, FinalIndex(m, step, a) - a)
    decreases m - a
  {
    if a < m {
      FinalIndexFacts(m, step, a + step);
      DividesStepShift(step, FinalIndex(m, step, a) - a);
      assert FinalIndex(m, step, a) - a - step == FinalIndex(m, step, a + step) - (a + step);
    } else {
      assert Divides(step, 0);
    }
  }

  /**
   * Worker t's stride ends exactly on m (so it is the one that may run
   * the trailing window) iff t == (m - 1) % step; every other worker's
   * stride ends beyond m.
   */
  lemma TrailingOwner(m: int, step: int, t: int)
    requires step >= 1 && 0 <= t < step && m >= 1
    ensures FinalIndex(m, step, t + 1) >= m
    ensures FinalIndex(m, step, t + 1) == m <==> t == (m - 1) % step
  {
    FinalIndexFacts(m, step, t + 1);
    var f := FinalIndex(m, step, t + 1);
    var q, r := (m - 1) / step, (m - 1) % step;
    assert m - 1 == step * q + r;
    if f == m {
      DividesQuotient(step, f - (t + 1));
      assert r - t == step * ((f - (t + 1)) / step - q);
      MultipleAtLeast(step, (f - (t + 1)) / step - q);
    }
    if t == r {
      assert f - m == (f - (t + 1)) - step * q;
      MultipleMod(step, q);
      DividesSum(step, f - (t + 1), step * q);
      assert 0 <= f - m < step;
      MultiplesApart(step, 0, f - m);
    }
  }

  // ---------------------------------------------------------------------
  // The shares add up
  // ---------------------------------------------------------------------

  /** Peeling the first worker off SharesSum. */
  lemma {:induction false} SharesSumHead(n: int, w: int, m: int, step: int, a: int, k: int)
    requires step >= 1 && k >= 1
    ensures SharesSum(n, w, m, step, a, k) == WorkerShare(n, w, m, step, a) + SharesSum(n, w, m, step, a + 1, k - 1)
    decreases k
  {
    if k > 1 {
      SharesSumHead(n, w, m, step, a, k - 1);
    }
  }

  /** A stride that starts below m counts its first window, then continues as the stride from a + step. */
  lemma WorkerShareStep(n: int, w: int, m: int, step: int, a: int)
    requires step >= 1 && a < m
    ensures WorkerShare(n, w, m, step, a) ==
            PrimesIn(a * w, a * w + w) + WorkerShare(n, w, m, step, a + step)
  {
    var ws := Windows(m, step, a);
    assert ws[0] == a && ws[1..] == Windows(m, step, a + step);
  }

  /** When every stride starts at m or beyond, only the trailing window of m is counted. */
  lemma {:induction false} SharesSumAtEnd(n: int, w: int, step: int, k: int)
    requires n >= 0 && w >= 1 && step >= 1 && k >= 1
    ensures SharesSum(n, w, n / w, step, n / w, k) == PrimesIn((n / w) * w, n)
    decreases k
  {
    var m := n / w;
    FullWindows(n, w);
    if k > 1 {
      SharesSumAtEnd(n, w, step, k - 1);
      PastTheEnd(n, w, m + k - 1);
    }
  }

  /**
   * The workers whose strides start at a, a+1, ..., a+step-1 together count
   * the primes in (a*w, n]: each full window from a on once, and the
   * trailing window once.
   */
  lemma {:induction false} SharesPartition(n: int, w: int, step: int, a: int)
    requires n >= 0 && w >= 1 && step >= 1 && 0 <= a <= n / w
    ensures SharesSum(n, w, n / w, step, a, step) == PrimesIn(a * w, n)
    decreases n / w - a
  {
    var m := n / w;
    FullWindows(n, w);
    if a == m {
      SharesSumAtEnd(n, w, step, step);
    } else {
      SharesPartition(n, w, step, a + 1);
      SharesSumHead(n, w, m, step, a, step);
      WorkerShareStep(n, w, m, step, a);
      assert (a + 1) * w == a * w + w;
      MulMonotone(a + 1, m, w);
      PrimesInSplit(a * w, a * w + w, n);
    }
  }

  /**
   * The base primes (window 0) and the shares of all step workers starting
   * at window 1 count exactly the primes <= n, whatever step is.
   */
  lemma AllWindowsCounted(n: int, w: int, step: int)
    requires 1 <= w <= n && step >= 1
    ensures Pi(w) + SharesSum(n, w, n / w, step, 1, step) == Pi(n)
  {
    assert n / w >= 1;
    SharesPartition(n, w, step, 1);
    PrimesInSplit(0, w, n);
  }
}
