# PrimesLongFast in Dafny

A model of `PrimesLongFast`, a program that counts the primes up to and
including a bound N with a segmented, odd-only sieve of Eratosthenes, together
with proofs that it counts correctly.

The program cuts (0, N] into windows of W = ⌈√N⌉ values. It sieves the first
window (0, W] in place, which gives the *base primes* ≤ W. Window i, for
1 ≤ i < N / W, is (i·W, i·W + W]. A shorter *trailing window* (⌊N/W⌋·W, N]
covers what is left. The windows are dealt out round-robin to `numThreads`
workers. Each worker owns a `Config`: its own sieve buffer and its own count.
It resets the odd-valued slots of its buffer, marks the odd multiples of every
odd base prime, and counts the unmarked odd slots. The total is the number of
base primes plus the workers' counts, and it is cached.

The model is split into four modules:

- `Primality` (in `primality.dfy`) defines the reference functions:
  - `Divides` and `IsPrime`;
  - `LeastDivisor`;
  - `PrimesIn(lo, hi)`, the number of primes in (lo, hi], and `Pi(n) = PrimesIn(0, n)`;
  - `PrimesUpTo(n)`, the increasing list of the primes ≤ n;
  - the exact integer square roots `FloorSqrt` and `CeilSqrt`.
- `Segment` (in `segment.dfy`) holds the arithmetic of sieving one window:
  - where the first odd multiple of a prime lies;
  - which slots the 2p stride visits;
  - why "divisible by an odd base prime" means "composite" inside a window.
- `WindowPlan` (in `window_plan.dfy`) covers the round-robin plan:
  - the strides `Windows(m, step, i)` and the index `FinalIndex` where each stride stops;
  - each worker's share of the count;
  - the proof that the shares add up to Pi(N), whatever the thread count.
- `PrimeCounter` (in `prime_counter.dfy`) holds the two classes of the source. Their fields match the Java fields.
  - In `Config`, `PerformIteration` and `Iterate` update `notPrime`, `primeCount` and `maxValueInIteration` in place.
  - In `PrimesLongFast`:
    - the constructor sets up the plan;
    - `CalculateBasePrimes` sieves `notPrime` in place and fills `basePrimes`;
    - `CountOtherPrimes` builds one `Config` per worker and sums their counts;
    - `CountPrimes` caches the result in `cachedResult`.

Each method is proved against the reference functions. The main results are:

- after the base sieve, `notPrime[k]` is exactly `!IsPrime(k)`;
- `basePrimes` lists the primes ≤ W in increasing order, and there are Pi(W) of them;
- one window adds exactly `PrimesIn(start, start + len)` to a worker's count;
- the plan gives every full window to exactly one worker, and the trailing window to the one worker whose stride ends on it;
- `CountPrimes` returns 0 for N < 2 and Pi(N) otherwise, for every thread count, and a second call returns the cached value unchanged.

The loops of two Java methods are split out into helper methods of the same class, which are called in the source's order:

- In `performIteration`:
  - `ClearOddSlots` is the reset loop;
  - `SieveOddSlots` is the loop over the base primes;
  - `MarkOddMultiples` is the body of that loop for one prime;
  - `CountOddSlots` is the counting loop.
- In `calculateBasePrimes`:
  - `MarkMultiples` is the marking loop;
  - `NextPrime` is the next-prime scan;
  - `FillBasePrimes` is the loop that fills `basePrimes`.

## Model

| member | source | states |
|---|---|---|
| Primality.FloorSqrt | PrimesLongFast.java:118 | The bound `upper` of the base sieve is the integer square root of W rounded down: r·r ≤ W < (r+1)·(r+1). |
| Primality.CeilSqrt | PrimesLongFast.java:59-61 | The window size is ⌈√N⌉: (W−1)² < N ≤ W², and 2 ≤ W ≤ N once N ≥ 2. |
| Primality.SieveStep | PrimesLongFast.java:120-131 | Marking the multiples of a prime p from p² on turns the set "composite with least divisor < p" into exactly "composite with least divisor ≤ p". |
| Segment.FirstMultipleAbove | PrimesLongFast.java:250-254 | The first offset p − start % p lies in [1, p]; start + offset is a multiple of p; and no smaller slot above start holds one. |
| Segment.OddOffsetFacts | PrimesLongFast.java:256-261 | After the parity fix the offset lies in [1, 2p], start + offset is an odd multiple of p, and it is the least odd multiple above start. |
| Segment.OddMultipleSlots | PrimesLongFast.java:263-267 | A slot holds an odd multiple of p exactly when it is the fixed offset plus a multiple of 2p, so the 2p stride visits all the odd multiples and nothing else. |
| Segment.WindowSieve | PrimesLongFast.java:244-268 | For an odd value x with W < x ≤ W², some odd base prime divides x exactly when x is composite. |
| WindowPlan.WindowInRange | PrimesLongFast.java:203-204 | Each window 1 ≤ i < N / W of the loop lies above W and inside (0, N]. |
| WindowPlan.WindowsMembers | PrimesLongFast.java:203 | The stride from i with step T visits exactly the indices in [i, m) congruent to i modulo T. |
| WindowPlan.WindowOwner | PrimesLongFast.java:200-205 | Every window 1 ≤ x < iterations is visited by exactly one worker t < T, namely the one with t = (x − 1) mod T. |
| WindowPlan.FinalIndexFacts | PrimesLongFast.java:203-208 | A stride leaves the loop at an index in [iterations, iterations + T), a whole number of steps past its start. |
| WindowPlan.TrailingOwner | PrimesLongFast.java:203-210 | Exactly one worker's stride ends on `iterations`, the one with t = (iterations − 1) mod T; every other stride ends past it. |
| WindowPlan.SharesPartition | PrimesLongFast.java:154-222 | The workers whose strides start at a, a+1, …, a+T−1 together count exactly the primes in (a·W, N]. |
| WindowPlan.AllWindowsCounted | PrimesLongFast.java:154-191 | The primes ≤ W plus the shares of the T workers starting at windows 1..T are Pi(N), for every T ≥ 1. |
| PrimeCounter.Config.constructor | PrimesLongFast.java:160-168 | A worker's state holds the given plan, the given buffer and the shared base primes, and its count starts at 0. |
| PrimeCounter.Config.PerformIteration | PrimesLongFast.java:230-276 | Given the primes ≤ W, start ≥ W, len ≤ W and start + len ≤ W²: the count grows by PrimesIn(start, start + len), and each odd-valued window slot is marked exactly when its value is composite. The other slots are unchanged. |
| PrimeCounter.Config.ClearOddSlots | PrimesLongFast.java:232-242 | The odd-valued slots 1..len become unmarked; every other slot keeps its value. |
| PrimeCounter.Config.SieveOddSlots | PrimesLongFast.java:244-268 | Each odd-valued slot ends marked exactly when an odd base prime divides its value; the other slots are unchanged. |
| PrimeCounter.Config.MarkOddMultiples | PrimesLongFast.java:248-267 | For one odd base prime p, the marks become the old marks plus exactly the slots ≤ len that hold odd multiples of p. |
| PrimeCounter.Config.CountOddSlots | PrimesLongFast.java:270-275 | With the odd slots sieved, the count grows by the number of primes in the window. |
| PrimeCounter.Config.Iterate | PrimesLongFast.java:200-222 | The worker adds the primes of every full window of its stride, plus the trailing window when its stride ends below N. It leaves maxValueInIteration at N − start in that case and unchanged otherwise. |
| PrimeCounter.PrimesLongFast.constructor | PrimesLongFast.java:46-76 | Below 2 nothing is set up. Otherwise: at least one thread; W = ⌈√N⌉; iterations = N / W; notPrime has W+1 slots with only 0 and 1 marked; basePrimes is empty. |
| PrimeCounter.PrimesLongFast.CalculateBasePrimes | PrimesLongFast.java:110-146 | notPrime[k] becomes !IsPrime(k) for all 0 ≤ k ≤ W; basePrimes[0..numBasePrimes) is strictly increasing and holds exactly the primes ≤ W; numBasePrimes = Pi(W). |
| PrimeCounter.PrimesLongFast.MarkMultiples | PrimesLongFast.java:126-131 | The marks become the old marks plus exactly the multiples of p in [p², W]. |
| PrimeCounter.PrimesLongFast.NextPrime | PrimesLongFast.java:133-137 | Once the composites with least divisor ≤ p are marked, the scan stops at the next prime after p, skipping only non-primes. If no prime lies in (p, W], it stops at W + 1. |
| PrimeCounter.PrimesLongFast.ScanStopsAtPrime | PrimesLongFast.java:134-136 | An unmarked value reached by the scan is prime. |
| PrimeCounter.PrimesLongFast.BelowRoot | PrimesLongFast.java:118-120 | Once the loop has passed ⌊√W⌋, every composite ≤ W has its least divisor below the current prime, so it is marked. |
| PrimeCounter.PrimesLongFast.FillBasePrimes | PrimesLongFast.java:140-145 | Appending the unmarked values 2..W of a finished sieve lists the primes ≤ W in increasing order: Pi(W) of them. |
| PrimeCounter.PrimesLongFast.CountOtherPrimes | PrimesLongFast.java:154-192 | With one fresh buffer per worker and the shared base primes, numBasePrimes plus the workers' counts is Pi(N). |
| PrimeCounter.PrimesLongFast.CountPrimes | PrimesLongFast.java:83-104 | Returns 0 for N < 2 and leaves the cache at −1. Otherwise returns Pi(N) and caches it. Once cached, a call returns the cache and changes nothing. |
| PrimeCounter.CountPrimesUpTo | PrimesLongFast.java:322-323 | A fresh counter for N with any thread count returns 0 below 2 and Pi(N) otherwise, so the result does not depend on the thread count. |

## Left out

- PrimeCounter.PrimesLongFast.NextPrime: the scan also stops at W + 1. The source relies on a prime lying in (p, W] for every p ≤ ⌊√W⌋ (by Bertrand's postulate), and the model does not prove that postulate. With the guard, the scan is proved to stop exactly where the source's scan stops whenever such a prime exists.
- `findSize` (lines 284-289) computes the capacity of `basePrimes` from floating-point logarithms. The model allocates W + 1 slots instead, which always suffices, and does not prove the analytic bound.
- `Math.sqrt` and `Math.ceil` (lines 61 and 118) are replaced by the exact integer roots `FloorSqrt` and `CeilSqrt`. Floating-point rounding for very large N is not modelled.
- Threads, `start`, `join` and the `InterruptedException` handler (lines 156-189) are not modelled. The workers run one after another: the first loop builds each `Config` and runs `Iterate` on it at once, and the second loop sums the counts. This matches the source because each worker writes only its own `Config`, and `basePrimes` is only read.
- Java's 32- and 64-bit integer widths are not modelled; all integers are unbounded.
- For N < 2 the source leaves `notPrime` and `basePrimes` null. The model allocates empty arrays instead.
- PrimeCounter.Config.Iterate: its contract does not say what the buffer holds afterwards, because nothing reads that buffer later.
- The `DEBUG` print blocks (lines 94-99 and 214-218), the usage text, and `main` (lines 291-337) are not modelled: argument parsing, printing and timing are I/O.
