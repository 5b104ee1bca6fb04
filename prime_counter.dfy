/**
 * The segmented, odd-only sieve of Eratosthenes that counts the primes
 * <= upperLimit: class PrimesLongFast (setup, base primes, fan-out over
 * the workers, cached result) and class Config (the state of one worker,
 * which sieves its windows on its own buffer).
 */
module PrimeCounter {
  import opened Primality
  import opened Segment
  import opened WindowPlan

  /** The state of one worker. */
  class Config {
    var upperLimit: int
    var startingIterationIndex: int
    var iterations: int
    var iterationStep: int
    var maxValueInIteration: int
    var notPrime: array<bool>
    var numBasePrimes: int
    var basePrimes: array<int>
    var primeCount: int

    /** A worker's state as the fan-out fills it in; its count starts at 0. */
    constructor (upperLimit: int, startingIterationIndex: int, iterations: int, iterationStep: int,
                 maxValueInIteration: int, notPrime: array<bool>, numBasePrimes: int, basePrimes: array<int>)
      ensures this.upperLimit == upperLimit && this.startingIterationIndex == startingIterationIndex
      ensures this.iterations == iterations && this.iterationStep == iterationStep
      ensures this.maxValueInIteration == maxValueInIteration && this.notPrime == notPrime
      ensures this.numBasePrimes == numBasePrimes && this.basePrimes == basePrimes
      ensures primeCount == 0
    {
      this.upperLimit := upperLimit;
      this.startingIterationIndex := startingIterationIndex;
      this.iterations := iterations;
      this.iterationStep := iterationStep;
      this.maxValueInIteration := maxValueInIteration;
      this.notPrime := notPrime;
      this.numBasePrimes := numBasePrimes;
      this.basePrimes := basePrimes;
      primeCount := 0;
    }

    /** The shared table holds the primes <= w, in increasing order. */
    ghost predicate HasBasePrimes(w: int)
      reads this`numBasePrimes, this`basePrimes, basePrimes
    {
      0 <= numBasePrimes <= basePrimes.Length && basePrimes[..numBasePrimes] == PrimesUpTo(w)
    }

    /**
     * The plan of this worker: window size W = maxValueInIteration, one
     * buffer slot per value of a window plus slot 0, W <= upperLimit <= W * W,
     * iterations = upperLimit / W full windows, and the base primes up to W.
     */
    ghost predicate Ready()
      reads this, basePrimes
    {
      && maxValueInIteration == notPrime.Length - 1
      && 2 <= maxValueInIteration <= upperLimit <= maxValueInIteration * maxValueInIteration
      && iterations == upperLimit / maxValueInIteration
      && iterationStep >= 1 && startingIterationIndex >= 1
      && HasBasePrimes(maxValueInIteration)
    }

    /**
     * Sieves the window (start, start + maxValueInIteration] on the buffer
     * and adds its primes to primeCount. Afterwards every odd-valued slot of
     * the window is marked exactly when its value is composite; slot 0, the
     * even-valued slots and the slots past the window keep what they held.
     */
    method PerformIteration(start: int)
      requires HasBasePrimes(notPrime.Length - 1)
      requires 2 <= notPrime.Length - 1 <= start
      requires 0 <= maxValueInIteration <= notPrime.Length - 1
      requires start + maxValueInIteration <= (notPrime.Length - 1) * (notPrime.Length - 1)
      modifies this`primeCount, notPrime
      ensures primeCount == old(primeCount) + PrimesIn(start, start + maxValueInIteration)
      ensures forall k :: 0 <= k < notPrime.Length ==>
                notPrime[k] == if 1 <= k <= maxValueInIteration && (start + k) % 2 == 1
                               then !IsPrime(start + k) else old(notPrime[k])
    {
      ghost var w := notPrime.Length - 1;
      var startMod2 := start % 2;
      ClearOddSlots(start, startMod2);
      SieveOddSlots(start, startMod2);
      forall i | 1 <= i <= maxValueInIteration && (start + i) % 2 == 1
        ensures notPrime[i] == !IsPrime(start + i)
      {
        WindowSieve(w, start + i);
      }
      CountOddSlots(start, startMod2);
    }

    /** Only odd values can be prime: clears the odd-valued slots of the window. */
    method ClearOddSlots(start: int, startMod2: int)
      requires start >= 0 && startMod2 == start % 2
      requires 0 <= maxValueInIteration < notPrime.Length
      modifies notPrime
      ensures forall i :: 0 <= i < notPrime.Length ==>
                notPrime[i] == if 1 <= i <= maxValueInIteration && (start + i) % 2 == 1 then false else old(notPrime[i])
    {
      var k := startMod2 + 1;
      while k <= maxValueInIteration
        invariant startMod2 + 1 <= k <= maxValueInIteration + 2
        invariant (start + k) % 2 == 1
        invariant forall i :: 0 <= i < notPrime.Length ==>
                    notPrime[i] == if 1 <= i < k && (start + i) % 2 == 1 then false else old(notPrime[i])
      {
        notPrime[k] := false;
        k := k + 2;
      }
    }

    /**
     * Marks the odd multiples of every base prime but 2: afterwards an
     * odd-valued slot of the window is marked exactly when an odd base prime
     * divides its value.
     */
    method SieveOddSlots(start: int, startMod2: int)
      requires HasBasePrimes(notPrime.Length - 1) && notPrime.Length >= 3
      requires start >= 0 && startMod2 == start % 2
      requires 0 <= maxValueInIteration < notPrime.Length
      requires forall i :: 1 <= i <= maxValueInIteration && (start + i) % 2 == 1 ==> !notPrime[i]
      modifies notPrime
      ensures forall i :: 0 <= i < notPrime.Length ==>
                notPrime[i] == if 1 <= i <= maxValueInIteration && (start + i) % 2 == 1
                               then SievedBy(basePrimes[..numBasePrimes], numBasePrimes, start + i)
                               else old(notPrime[i])
    {
      ghost var w := notPrime.Length - 1;
      ghost var bp := basePrimes[..numBasePrimes];
      PrimesUpToStartsWithTwo(w);
      PrimesUpToMembers(w);
      PrimesUpToIncreasing(w);
      var j := 1;
      while j < numBasePrimes
        invariant 1 <= j <= numBasePrimes
        invariant forall i :: 0 <= i < notPrime.Length ==>
                    notPrime[i] == if 1 <= i <= maxValueInIteration && (start + i) % 2 == 1
                                   then SievedBy(bp, j, start + i) else old(notPrime[i])
      {
        var p := basePrimes[j];
        OddBasePrime(bp, j);
        MarkOddMultiples(start, startMod2, p);
        forall i | 1 <= i <= maxValueInIteration && (start + i) % 2 == 1
          ensures notPrime[i] == SievedBy(bp, j + 1, start + i)
        {
          SievedByStep(bp, j, start + i);
        }
        j := j + 1;
      }
    }

    /** Every base prime after the first (2) is odd. */
    static lemma OddBasePrime(bp: seq<int>, j: int)
      requires 1 <= j < |bp| && |bp| >= 1 && bp[0] == 2
      requires forall x :: x in bp ==> IsPrime(x)
      requires forall a, b :: 0 <= a < b < |bp| ==> bp[a] < bp[b]
      ensures bp[j] >= 3 && bp[j] % 2 == 1
    {
      assert bp[j] in bp && bp[0] < bp[j];
      if bp[j] % 2 == 0 {
        EvenNotPrime(bp[j]);
      }
    }

    /**
     * Counts the unmarked odd-valued slots of a sieved window: these are the
     * primes of the window, as no even value above 2 is prime.
     */
    method CountOddSlots(start: int, startMod2: int)
      requires start >= 2 && startMod2 == start % 2
      requires 0 <= maxValueInIteration < notPrime.Length
      requires forall i :: 1 <= i <= maxValueInIteration && (start + i) % 2 == 1 ==> notPrime[i] == !IsPrime(start + i)
      modifies this`primeCount
      ensures primeCount == old(primeCount) + PrimesIn(start, start + maxValueInIteration)
    {
      var k := startMod2 + 1;
      CountFirstSlot(start);
      while k <= maxValueInIteration
        invariant startMod2 + 1 <= k <= maxValueInIteration + 2
        invariant (start + k) % 2 == 1
        invariant primeCount == old(primeCount) + PrimesIn(start, start + k - 1)
      {
        if notPrime[k] == false {
          primeCount := primeCount + 1;
        }
        CountTwoSlots(start, k);
        k := k + 2;
      }
      CountLastSlot(start, k, maxValueInIteration);
    }

    /** The count from the first odd-valued slot on misses no prime. */
    static lemma CountFirstSlot(start: int)
      requires start >= 2
      ensures (start + (start % 2 + 1)) % 2 == 1
      ensures PrimesIn(start, start + (start % 2 + 1) - 1) == 0
    {
      if start % 2 == 1 {
        EvenNotPrime(start + 1);
      }
    }

    /** A count that stopped one slot past the window missed no prime. */
    static lemma CountLastSlot(start: int, k: int, len: int)
      requires start >= 2 && 1 <= k && len + 1 <= k <= len + 2 && (start + k) % 2 == 1 && len >= 0
      ensures PrimesIn(start, start + k - 1) == PrimesIn(start, start + len)
    {
      if k == len + 2 {
        EvenNotPrime(start + k - 1);
      }
    }

    /**
     * Marks, for one odd base prime p, every slot of the window whose value
     * is an odd multiple of p, starting from the least one above start and
     * stepping by 2p; nothing else changes.
     */
    method MarkOddMultiples(start: int, startMod2: int, p: int)
      requires start >= 0 && startMod2 == start % 2
      requires p >= 3 && p % 2 == 1
      requires maxValueInIteration < notPrime.Length
      modifies notPrime
      ensures forall i :: 0 <= i < notPrime.Length ==>
                notPrime[i] == (old(notPrime[i]) || (i <= maxValueInIteration && OddMultipleSlot(start, p, i)))
    {
      var primeX2 := p * 2;
      var offset := p - start % p;
      if offset % 2 == startMod2 {
        offset := offset + p;
      }
      OddOffsetFacts(start, p);
      ghost var first := offset;
      assert Divides(primeX2, 0);
      while offset <= maxValueInIteration
        invariant first <= offset && Divides(primeX2, offset - first)
        invariant forall i :: 0 <= i < notPrime.Length ==>
                    notPrime[i] == (old(notPrime[i]) || (i < offset && i <= maxValueInIteration && OddMultipleSlot(start, p, i)))
        decreases maxValueInIteration - offset
      {
        MarkStride(start, p, first, offset);
        notPrime[offset] := true;
        offset := offset + primeX2;
      }
    }

    /** Two slots on from the odd value start + k, the even one adds no prime. */
    static lemma CountTwoSlots(start: int, k: int)
      requires start >= 2 && k >= 1 && (start + k) % 2 == 1
      ensures (start + (k + 2)) % 2 == 1
      ensures PrimesIn(start, start + (k + 2) - 1) == PrimesIn(start, start + k - 1) + (if IsPrime(start + k) then 1 else 0)
    {
      EvenNotPrime(start + k + 1);
    }

    /**
     * The step of the marking loop at `offset`: it is an odd multiple slot,
     * and no odd multiple slot lies strictly between it and offset + 2p.
     */
    static lemma MarkStride(start: int, p: int, first: int, offset: int)
      requires start >= 0 && p >= 3 && p % 2 == 1 && first == OddOffset(start, p)
      requires first <= offset && Divides(2 * p, offset - first)
      ensures OddMultipleSlot(start, p, offset)
      ensures forall i :: offset < i < offset + 2 * p ==> !OddMultipleSlot(start, p, i)
      ensures Divides(2 * p, offset + 2 * p - first)
    {
      OddMultipleSlots(start, p, offset);
      forall i | offset < i < offset + 2 * p
        ensures !OddMultipleSlot(start, p, i)
      {
        OddMultipleSlots(start, p, i);
        if i >= first && Divides(2 * p, i - first) {
          MultiplesApart(2 * p, offset - first, i - first);
        }
      }
      MultipleMod(2 * p, 1);
      DividesSum(2 * p, offset - first, 2 * p);
      assert offset + 2 * p - first == (offset - first) + 2 * p;
    }

    /**
     * The body of one worker thread: sieves the windows of its stride, then
     * the trailing window if its stride ends on it, which it runs with
     * maxValueInIteration cut down to the trailing window's length.
     */
    method Iterate()
      requires Ready()
      modifies this`primeCount, this`maxValueInIteration, notPrime
      ensures primeCount == old(primeCount) +
                WorkerShare(upperLimit, old(maxValueInIteration), iterations, iterationStep, startingIterationIndex)
      ensures var last := FinalIndex(iterations, iterationStep, startingIterationIndex) * old(maxValueInIteration);
                maxValueInIteration == if last < upperLimit then upperLimit - last else old(maxValueInIteration)
    {
      ghost var w, m, step := maxValueInIteration, iterations, iterationStep;
      var i := startingIterationIndex;
      while i < iterations
        invariant startingIterationIndex <= i
        invariant FinalIndex(m, step, i) == FinalIndex(m, step, startingIterationIndex)
        invariant primeCount + SumWindows(w, Windows(m, step, i)) ==
                  old(primeCount) + SumWindows(w, Windows(m, step, startingIterationIndex))
        modifies this`primeCount, notPrime
      {
        WindowInRange(upperLimit, w, i);
        StrideStep(w, m, step, i);
        PerformIteration(i * maxValueInIteration);
        i := i + iterationStep;
      }
      StrideEnd(m, step, i);
      // The final window, if it is needed, is shorter than the rest.
      var start := i * maxValueInIteration;
      TrailShare(upperLimit, w, i, start);
      if start < upperLimit {
        TrailingWindow(upperLimit, w, i);
        var newMaxValueInIteration := upperLimit - start;
        maxValueInIteration := newMaxValueInIteration;
        PerformIteration(start);
      }
    }

    /** One step of the stride: window i, then the stride from i + step. */
    static lemma StrideStep(w: int, m: int, step: int, i: int)
      requires step >= 1 && i < m
      ensures Windows(m, step, i) == [i] + Windows(m, step, i + step)
      ensures FinalIndex(m, step, i) == FinalIndex(m, step, i + step)
      ensures SumWindows(w, Windows(m, step, i)) == PrimesIn(i * w, i * w + w) + SumWindows(w, Windows(m, step, i + step))
    {
      var ws := Windows(m, step, i);
      assert ws[0] == i && ws[1..] == Windows(m, step, i + step);
    }

    /** The trailing window's count, for the start i * w computed by the source. */
    static lemma TrailShare(n: int, w: int, i: int, start: int)
      requires start == i * w
      ensures TrailCount(n, w, i) == if start < n then PrimesIn(start, n) else 0
    {
    }

    /** A stride at or past m has no windows left and ends where it is. */
    static lemma StrideEnd(m: int, step: int, i: int)
      requires step >= 1 && i >= m
      ensures Windows(m, step, i) == [] && FinalIndex(m, step, i) == i
    {
    }

    /**
     * A stride that ended at window i >= n / w with i * w < n is on the
     * trailing window: it starts above w and holds at most w values.
     */
    static lemma TrailingWindow(n: int, w: int, i: int)
      requires 1 <= w <= n && i >= 1 && i >= n / w && i * w < n
      ensures w <= i * w && 0 < n - i * w <= w
    {
      FullWindows(n, w);
      if i > n / w {
        PastTheEnd(n, w, i);
      }
      MulMonotone(1, i, w);
    }
  }

  /**
   * The counter: the range (0, upperLimit] is cut into windows of
   * W = ceil(sqrt(upperLimit)) values; the base primes <= W are sieved in
   * place on notPrime, the other windows are shared out round-robin among
   * numThreads workers, and the total is cached in cachedResult.
   */
  class PrimesLongFast {
    var upperLimit: int
    var numThreads: int
    var cachedResult: int
    var maxValueInIteration: int
    var iterations: int
    var numBasePrimes: int
    var basePrimes: array<int>
    var notPrime: array<bool>

    /** The plan fixed by the constructor for upperLimit >= 2. */
    ghost predicate Planned()
      reads this`upperLimit, this`numThreads, this`maxValueInIteration, this`iterations,
            this`notPrime, this`basePrimes
    {
      && upperLimit >= 2 && numThreads >= 1
      && maxValueInIteration == CeilSqrt(upperLimit)
      && iterations == upperLimit / maxValueInIteration
      && notPrime.Length == maxValueInIteration + 1
      && basePrimes.Length == maxValueInIteration + 1
    }

    /** The sieve buffer as the constructor leaves it: only 0 and 1 marked, no base primes yet. */
    ghost predicate Unsieved()
      reads this`numBasePrimes, this`notPrime, notPrime
    {
      && numBasePrimes == 0 && notPrime.Length >= 2
      && notPrime[0] && notPrime[1]
      && forall k :: 2 <= k < notPrime.Length ==> !notPrime[k]
    }

    /** After the base sieve: notPrime marks the non-primes <= W, basePrimes lists the primes <= W. */
    ghost predicate Sieved()
      reads this`maxValueInIteration, this`numBasePrimes, this`notPrime, this`basePrimes, notPrime, basePrimes
    {
      && (forall k :: 0 <= k < notPrime.Length ==> notPrime[k] == !IsPrime(k))
      && 0 <= numBasePrimes <= basePrimes.Length
      && basePrimes[..numBasePrimes] == PrimesUpTo(maxValueInIteration)
    }

    /**
     * The object invariant: nothing is set up below 2; otherwise the plan
     * holds and either nothing is counted yet or the cached count is Pi(upperLimit).
     */
    ghost predicate Valid()
      reads this, notPrime, basePrimes
    {
      if upperLimit < 2 then cachedResult == -1
      else Planned() && ((cachedResult == -1 && Unsieved()) || (cachedResult == Pi(upperLimit) && Sieved()))
    }

    /**
     * Sets up the plan: nothing for upperLimit < 2; otherwise at least one
     * thread, W = ceil(sqrt(upperLimit)), upperLimit / W full windows, a
     * sieve buffer for 0..W with 0 and 1 marked, and an empty table of base primes.
     */
    constructor (upperLimit: int, numThreads: int)
      ensures Valid() && this.upperLimit == upperLimit && cachedResult == -1
      ensures upperLimit < 2 ==>
                this.numThreads == 0 && maxValueInIteration == 0 && iterations == 0 &&
                numBasePrimes == 0 && notPrime.Length == 0 && basePrimes.Length == 0
      ensures upperLimit >= 2 ==>
                Planned() && Unsieved() && this.numThreads == (if numThreads < 1 then 1 else numThreads)
      ensures fresh(notPrime) && fresh(basePrimes)
    {
      this.upperLimit := upperLimit;
      cachedResult := -1;
      if upperLimit < 2 {
        this.numThreads := 0;
        maxValueInIteration := 0;
        iterations := 0;
        notPrime := new bool[0];
        basePrimes := new int[0];
      } else {
        var threads := if numThreads < 1 then 1 else numThreads;
        this.numThreads := threads;
        var w := CeilSqrt(upperLimit);
        maxValueInIteration := w;
        iterations := upperLimit / w;
        var buffer := new bool[w + 1](_ => false);
        buffer[0] := true;
        buffer[1] := true;
        notPrime := buffer;
        basePrimes := new int[w + 1];
      }
      numBasePrimes := 0;
    }

    /**
     * Sieves 0..W in place with the primes up to sqrt(W), starting each
     * prime's marks at its square, then lists the unmarked values >= 2 in
     * basePrimes: exactly the primes <= W, increasing, Pi(W) of them.
     */
    method CalculateBasePrimes()
      requires Planned() && Unsieved()
      modifies this`numBasePrimes, notPrime, basePrimes
      ensures Sieved()
      ensures numBasePrimes == Pi(maxValueInIteration)
      ensures forall x :: x in basePrimes[..numBasePrimes] <==> IsPrime(x) && x <= maxValueInIteration
      ensures forall a, b :: 0 <= a < b < numBasePrimes ==> basePrimes[a] < basePrimes[b]
    {
      var prime := 2;
      var upper := FloorSqrt(maxValueInIteration);
      FloorSqrtBelow(maxValueInIteration);
      while prime <= upper
        invariant 2 <= prime <= maxValueInIteration + 1
        invariant prime <= maxValueInIteration ==> IsPrime(prime)
        invariant notPrime[0] && notPrime[1]
        invariant forall k :: 2 <= k < notPrime.Length ==> notPrime[k] == (!IsPrime(k) && LeastDivisor(k) < prime)
        decreases maxValueInIteration - prime
        modifies notPrime
      {
        var p := prime;
        MarkMultiples(p);
        forall k | 2 <= k < notPrime.Length
          ensures notPrime[k] == (!IsPrime(k) && LeastDivisor(k) <= p)
        {
          SieveStep(p, k);
        }
        prime := NextPrime(p);
        forall k | 2 <= k < notPrime.Length
          ensures notPrime[k] == (!IsPrime(k) && LeastDivisor(k) < prime)
        {
          NoPrimeBetween(p, prime, k);
        }
      }
      forall k | 2 <= k < notPrime.Length
        ensures notPrime[k] == !IsPrime(k)
      {
        BelowRoot(k, maxValueInIteration, prime);
      }

      FillBasePrimes();
    }

    /** Lists the unmarked values 2..W of a finished sieve, in increasing order, in basePrimes. */
    method FillBasePrimes()
      requires maxValueInIteration >= 1
      requires notPrime.Length == maxValueInIteration + 1 && basePrimes.Length == maxValueInIteration + 1
      requires forall k :: 0 <= k < notPrime.Length ==> notPrime[k] == !IsPrime(k)
      modifies this`numBasePrimes, basePrimes
      ensures 0 <= numBasePrimes <= basePrimes.Length
      ensures basePrimes[..numBasePrimes] == PrimesUpTo(maxValueInIteration)
      ensures numBasePrimes == Pi(maxValueInIteration)
      ensures forall x :: x in basePrimes[..numBasePrimes] <==> IsPrime(x) && x <= maxValueInIteration
      ensures forall a, b :: 0 <= a < b < numBasePrimes ==> basePrimes[a] < basePrimes[b]
    {
      numBasePrimes := 0;
      for i := 2 to maxValueInIteration + 1
        invariant 0 <= numBasePrimes <= i - 1
        invariant basePrimes[..numBasePrimes] == PrimesUpTo(i - 1)
      {
        ghost var listed := basePrimes[..numBasePrimes];
        assert PrimesUpTo(i) == listed + (if IsPrime(i) then [i] else []);
        if notPrime[i] == false {
          basePrimes[numBasePrimes] := i;
          numBasePrimes := numBasePrimes + 1;
          assert basePrimes[..numBasePrimes] == listed + [i];
        }
      }
      ListFacts(basePrimes[..numBasePrimes], maxValueInIteration);
    }

    /** What the list of primes <= w is: Pi(w) long, exactly the primes <= w, increasing. */
    static lemma ListFacts(bp: seq<int>, w: int)
      requires bp == PrimesUpTo(w)
      ensures |bp| == Pi(w)
      ensures forall x :: x in bp <==> IsPrime(x) && x <= w
      ensures forall a, b :: 0 <= a < b < |bp| ==> bp[a] < bp[b]
    {
      PrimesUpToLength(w);
      PrimesUpToMembers(w);
      PrimesUpToIncreasing(w);
    }

    /**
     * The scan for the next prime once the composites with least divisor
     * <= p are marked: the next unmarked value after p is the next prime,
     * or W + 1 when no prime lies in (p, W].
     */
    method NextPrime(p: int) returns (prime: int)
      requires 2 <= p <= maxValueInIteration && notPrime.Length == maxValueInIteration + 1
      requires forall k :: 2 <= k < notPrime.Length ==> notPrime[k] == (!IsPrime(k) && LeastDivisor(k) <= p)
      ensures p < prime <= maxValueInIteration + 1
      ensures forall k :: p < k < prime ==> !IsPrime(k)
      ensures prime <= maxValueInIteration ==> IsPrime(prime)
    {
      prime := p + 1;
      while prime <= maxValueInIteration && notPrime[prime]
        invariant p < prime <= maxValueInIteration + 1
        invariant forall k :: p < k < prime ==> !IsPrime(k)
      {
        prime := prime + 1;
      }
      if prime <= maxValueInIteration {
        ScanStopsAtPrime(p, prime);
      }
    }

    /** Marks the multiples of p from p * p up to W; nothing else changes. */
    method MarkMultiples(p: int)
      requires 2 <= p && notPrime.Length == maxValueInIteration + 1
      modifies notPrime
      ensures forall k :: 0 <= k < notPrime.Length ==>
                notPrime[k] == (old(notPrime[k]) || (p * p <= k && Divides(p, k)))
    {
      var multiple := p * p;
      ghost var square := multiple;
      MultipleMod(p, p);
      while multiple <= maxValueInIteration
        invariant square <= multiple && Divides(p, multiple)
        invariant forall k :: 0 <= k < notPrime.Length ==>
                    notPrime[k] == (old(notPrime[k]) || (square <= k < multiple && Divides(p, k)))
        decreases maxValueInIteration - multiple
      {
        NextMultiple(p, multiple);
        notPrime[multiple] := true;
        multiple := multiple + p;
      }
    }

    /** From one multiple of p, the next one is p further on. */
    static lemma NextMultiple(p: int, multiple: int)
      requires p >= 1 && Divides(p, multiple)
      ensures Divides(p, multiple + p)
      ensures forall k :: multiple < k < multiple + p ==> !Divides(p, k)
    {
      MultipleMod(p, 1);
      DividesSum(p, multiple, p);
      forall k | multiple < k < multiple + p
        ensures !Divides(p, k)
      {
        if Divides(p, k) {
          MultiplesApart(p, multiple, k);
        }
      }
    }

    /**
     * The scan past p stops on a prime: its value is unmarked (not a
     * composite with least divisor <= p) and no value between p and it is prime.
     */
    static lemma ScanStopsAtPrime(p: int, q: int)
      requires 2 <= p < q
      requires forall k :: p < k < q ==> !IsPrime(k)
      requires !(!IsPrime(q) && LeastDivisor(q) <= p)
      ensures IsPrime(q)
    {
      LeastDivisorIsPrime(q);
    }

    /** With no prime strictly between p and q, a least divisor is <= p exactly when it is < q. */
    static lemma NoPrimeBetween(p: int, q: int, k: int)
      requires p < q && k >= 2
      requires forall j :: p < j < q ==> !IsPrime(j)
      ensures LeastDivisor(k) <= p <==> LeastDivisor(k) < q
    {
      LeastDivisorIsPrime(k);
    }

    /** A composite k <= W has its least divisor at most FloorSqrt(W). */
    static lemma BelowRoot(k: int, w: nat, prime: int)
      requires 2 <= k <= w && prime > FloorSqrt(w)
      ensures !IsPrime(k) ==> LeastDivisor(k) < prime
    {
      if !IsPrime(k) {
        var d, r := LeastDivisor(k), FloorSqrt(w);
        LeastDivisorSquare(k);
        assert d * d < (r + 1) * (r + 1);
        SquareMonotone(d, r + 1);
      }
    }

    /**
     * The fan-out: worker t (0 <= t < numThreads) gets its own buffer, the
     * shared base primes and the stride starting at window t + 1; the
     * workers run one after another and their counts are added to the
     * number of base primes. The total is Pi(upperLimit).
     */
    method CountOtherPrimes() returns (primeCount: int)
      requires Planned() && Sieved()
      ensures primeCount == Pi(upperLimit)
    {
      ghost var n, w, m, step := upperLimit, maxValueInIteration, iterations, numThreads;
      primeCount := numBasePrimes;
      var configs := new Config?[numThreads];
      var i := 0;
      while i < numThreads
        invariant 0 <= i <= numThreads
        invariant forall t :: 0 <= t < i ==> configs[t] != null && configs[t].primeCount == WorkerShare(n, w, m, step, t + 1)
      {
        var buffer := new bool[maxValueInIteration + 1];
        var c := new Config(upperLimit, i + 1, iterations, numThreads, maxValueInIteration,
                            buffer, numBasePrimes, basePrimes);
        configs[i] := c;
        c.Iterate();
        i := i + 1;
      }
      i := 0;
      while i < numThreads
        invariant 0 <= i <= numThreads
        invariant primeCount == numBasePrimes + SharesSum(n, w, m, step, 1, i)
      {
        primeCount := primeCount + configs[i].primeCount;
        i := i + 1;
      }
      AllWindowsCounted(n, w, step);
      PrimesUpToLength(w);
    }

    /**
     * The count of the primes <= upperLimit: 0 below 2, otherwise Pi(upperLimit),
     * computed once and then served from cachedResult.
     */
    method CountPrimes() returns (count: int)
      requires Valid()
      modifies this`cachedResult, this`numBasePrimes, notPrime, basePrimes
      ensures Valid()
      ensures count == if upperLimit < 2 then 0 else Pi(upperLimit)
      ensures cachedResult == if upperLimit < 2 then -1 else Pi(upperLimit)
      ensures old(cachedResult) >= 0 ==> unchanged(this, notPrime, basePrimes)
    {
      if cachedResult >= 0 {
        return cachedResult;
      }
      if upperLimit < 2 {
        return 0;
      }
      CalculateBasePrimes();
      cachedResult := CountOtherPrimes();
      return cachedResult;
    }
  }

  /** Sets up a counter for upperLimit with numThreads workers and counts. */
  method CountPrimesUpTo(upperLimit: int, numThreads: int) returns (count: int)
    ensures count == if upperLimit < 2 then 0 else Pi(upperLimit)
  {
    var counter := new PrimesLongFast(upperLimit, numThreads);
    count := counter.CountPrimes();
  }
}
