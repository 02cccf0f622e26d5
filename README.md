# nth-prime sieves, modelled in Dafny

This project models the prime-generation core of a small C# library. The library answers `NthPrime(n)`, the prime of 0-based rank n (rank 0 is 2), from a cache that grows on demand.

- `primes.dfy` (module `Primes`) holds the number theory the sieves are specified against:
  - divisibility and primality;
  - `PrimesUpTo(b)`, the increasing list of primes up to b;
  - `FirstPrimes(s)`, meaning s holds exactly the first |s| primes, so `s[n]` is the prime of rank n.
- `sieve_utils.dfy` (module `SieveUtils`) holds the shared pieces:
  - the input guard `ValidateN`;
  - the upper-bound estimator `GetUpperBound`;
  - the error values that stand for the exceptions the library throws.
- `odds_only_sieve.dfy` (module `OddsOnlySieve`) holds the odds-only sieve of Eratosthenes:
  - `FlagOddCompositeValues` is an in-place method on an array of flags. Index i stands for 2i+1.
  - `FindPrimes` fills an array with a running counter.
  - Both are proved against specification functions: the flags are exactly the odd composites, and the result is exactly the first `primeCount` primes.
- `sieve.dfy` (module `SieveBase`) holds the class `Sieve`, the growable cache:
  - On a miss it replaces its `primes` array with `FindPrimes(max(n + 1, 2 * length))`.
  - Its invariant is `FirstPrimes(primes[..])`. So every answer is the prime of rank n, and an answer already given never changes.
  - Lemmas prove that increasing queries regenerate only logarithmically often.
- `wheel_factorization_sieve.dfy` (module `WheelFactorization`) holds the class `WheelFactorizationSieve`:
  - It answers ranks below the basis length from the basis. The next ranks come from the lazily computed first turn of the wheel.
  - All later ranks go to an after-first-turn routine that always returns an empty array. So those ranks end with an index-out-of-range error.
  - `FindPrimesInFirstTurn` is proved to return `FirstTurn(basis)`: the values v with `basis[^1] < v <= product + 1` that no basis element has as a proper multiple.
  - Lemmas show that for an ascending basis these are exactly the values in that range that no basis element divides; for a basis of primes, these are the values coprime to the basis. For the default basis [2, 3, 5] they are 7, 11, 13, ..., 31, the next eight primes.
  - For the basis [2, 3, 5, 7] the first turn holds 121 = 11 * 11. `NthPrime` then returns that composite as a prime. This follows from the code: the first turn removes only multiples of the basis, and a composite can survive only above the square of the last basis element (`FirstTurnCompositeAboveSquare`).

The cache class carries its own copies of the estimator (`internal static`, csharp/Sieve/Sieve.cs:40-60) and of the guard (`private static`, csharp/Sieve/Sieve.cs:62-74), with the same code as csharp/Sieve/SieveUtils.cs; each is modelled once, in `SieveUtils`.

Exceptions become `Result`/`Outcome` values carrying an `Error`. Constructors that can throw become static `Create` methods that return a `Result`. A C# `long` is the subset type `Long`; every other integer is unbounded. One place where the C# code would wrap is excluded by a precondition: the product of the wheel basis (`2 * product + 2 <= long.MaxValue` on `FindPrimesInFirstTurn`). `Sieve.NthPrime` requires the doubled cache length to fit a `long` (`2 * primes.Length <= long.MaxValue`), a weaker bound than the source's 32-bit arithmetic needs. Three wraps are not modelled and are listed under "## Left out": the 32-bit `_primes.Length * 2` of `Sieve.NthPrime`, the 32-bit sum of lengths in `WheelFactorizationSieve.NthPrime`, and `maxValue + 1` in `FlagOddCompositeValues` at `maxValue == long.MaxValue`.

## Model

| member | source | states |
|---|---|---|
| SieveUtils.ValidateN | csharp/Sieve/SieveUtils.cs:29-41 | passes exactly for 0 <= n < long.MaxValue; otherwise fails with out-of-range |
| SieveUtils.GetUpperBound | csharp/Sieve/SieveUtils.cs:7-27 | 37 for every n < 12; from 12 on it overflows exactly when n + 1 or the estimate exceeds long.MaxValue, never returns a wrapped value, and otherwise returns the estimate at n + 1 |
| SieveUtils.SmallBoundCoversFirstTwelve | csharp/Sieve/SieveUtils.cs:9-12 | exactly twelve primes lie at or below 37, and they are the first twelve primes |
| SieveUtils.UpperBoundSound | csharp/Sieve/SieveUtils.cs:15-25 | if the estimate meets its assumed contract, every bound returned has more than n primes at or below it, i.e. it is at least the prime of rank n |
| OddsOnlySieve.FloorSqrt | csharp/Sieve/OddsOnlySieve.cs:49 | r * r <= n < (r + 1) * (r + 1), the truncated square root |
| OddsOnlySieve.FlagOddCompositeValues | csharp/Sieve/OddsOnlySieve.cs:46-71 | one flag per odd value up to maxValue; flag k is true exactly when 2k+1 is composite, so index 0 (the value 1) and every prime stay false |
| OddsOnlySieve.SmallFactorAbsorb | csharp/Sieve/OddsOnlySieve.cs:54-59 | skipping an already-flagged candidate loses nothing: everything it would mark already has a smaller factor |
| OddsOnlySieve.SmallFactorStep | csharp/Sieve/OddsOnlySieve.cs:61-67 | marking from the square of a candidate adds exactly the values whose factors now include it |
| OddsOnlySieve.SkipFlagged | csharp/Sieve/OddsOnlySieve.cs:54-59 | if the flags are exact for every candidate below a flagged 2i+1, they are exact up to and including it without any change |
| OddsOnlySieve.MarkOne | csharp/Sieve/OddsOnlySieve.cs:64-66 | setting the flag of an odd multiple of 2i+1 at or above its square moves the marking on by one step of 2i+1 indexes |
| OddsOnlySieve.MarkOddMultiples | csharp/Sieve/OddsOnlySieve.cs:61-67 | if the flags are exact for every candidate below 2i+1, marking the odd multiples of 2i+1 from its square on makes them exact up to and including 2i+1 |
| OddsOnlySieve.FlagsComplete | csharp/Sieve/OddsOnlySieve.cs:48-52 | once every candidate up to the index of the square root is processed, the flag array is exactly the odd-composite flags |
| OddsOnlySieve.NoOddMultipleBetween | csharp/Sieve/OddsOnlySieve.cs:64 | a step of 2i+1 indexes skips no odd multiple of 2i+1 |
| OddsOnlySieve.SieveComplete | csharp/Sieve/OddsOnlySieve.cs:50-52 | candidates up to the index of the square root suffice: an odd value is marked iff it is composite |
| OddsOnlySieve.FlagsUpToTen | csharp/Sieve.Tests/SieveTests.cs:60-68 | the flags for 9 and for 10 are both [false, false, false, false, true] |
| OddsOnlySieve.FindPrimes | csharp/Sieve/OddsOnlySieve.cs:7-40 | succeeds exactly when the specification does, with the same array contents or the same error |
| OddsOnlySieve.CollectOne | csharp/Sieve/OddsOnlySieve.cs:25-31 | one more index of the scan adds 2i+1 to the primes found exactly when its flag is false, and keeps them equal to the primes below 2i+2 |
| OddsOnlySieve.CollectedPrimes | csharp/Sieve/OddsOnlySieve.cs:25-37 | when the scan stops, primeCount primes were found iff at least that many primes lie at or below the bound, and then they are the first primeCount of them |
| OddsOnlySieve.FindPrimesSpecFirstPrimes | csharp/Sieve/OddsOnlySieve.cs:9-32 | a successful result has primeCount entries, starts with 2, is strictly increasing and holds exactly the first primes |
| OddsOnlySieve.FindPrimesNoInternalError | csharp/Sieve/OddsOnlySieve.cs:34-37 | the fewer-primes-than-required error cannot occur when the estimate meets its assumed contract |
| Primes.FirstPrimesUnique | csharp/Sieve/Sieve.cs:32 | of two lists of first primes the shorter is a prefix of the longer, so regenerating the cache keeps every cached value |
| Primes.RankOfFirstPrimes | csharp/Sieve/ISieve.cs:5-8 | element n of a list of first primes is prime and has exactly n + 1 primes at or below it |
| SieveBase.NextCacheLength | csharp/Sieve/Sieve.cs:27-30 | the new length exceeds n, stays the same on a hit, never shrinks, and on a miss at least doubles the old length |
| SieveBase.Sieve.constructor | csharp/Sieve/Sieve.cs:7-16 | the cache starts empty and valid |
| SieveBase.Sieve.Create | csharp/Sieve/Sieve.cs:10-21 | no maxN: an empty cache; an invalid maxN: out-of-range; otherwise the cache is FindPrimes(maxN + 1) with maxN + 1 entries, or FindPrimes' error |
| SieveBase.Sieve.NthPrime | csharp/Sieve/Sieve.cs:23-36 | invalid n: out-of-range, cache untouched; hit: the cached value, cache untouched; miss: the cache becomes FindPrimes(max(n + 1, 2 * length)) and element n is returned, or FindPrimes' error leaves the cache alone; every answer is the prime of rank n; the old cache is always a prefix of the new one |
| SieveBase.Regenerated | csharp/Sieve/Sieve.cs:30-32 | a regenerated cache holds exactly primeCount first primes and keeps the old cache as its prefix |
| SieveBase.SmallRanks | csharp/Sieve.Tests/SieveTests.cs:10-24 | ranks 0 to 11 are answered with 2, 3, 5, ..., 37 |
| SieveBase.LastRankOverflows | csharp/Sieve.Tests/SieveTests.cs:33 | rank long.MaxValue - 1 passes validation, misses, asks for long.MaxValue primes and ends in an overflow |
| SieveBase.RegenerationsDoubling | csharp/Sieve/Sieve.cs:29-30 | each regeneration at least doubles a non-empty cache, which never grows past max(len, 2 * (last + 1)) |
| SieveBase.RegenerationsLogarithmic | csharp/Sieve/Sieve.cs:29-30 | querying ranks 0 to N in order regenerates at most log2(N + 1) + 2 times |
| WheelFactorization.StruckMeans | csharp/Sieve/WheelFactorizationSieve.cs:92-99 | a value is flagged iff some basis element has it as a proper multiple |
| WheelFactorization.MarkStep | csharp/Sieve/WheelFactorizationSieve.cs:95-98 | one step of the marking loop of p flags exactly the next multiple of p |
| WheelFactorization.SurvivorsExact | csharp/Sieve/WheelFactorizationSieve.cs:101-108 | the collected values are strictly increasing and are exactly the unflagged values in the scanned range |
| WheelFactorization.FindPrimesInFirstTurn | csharp/Sieve/WheelFactorizationSieve.cs:83-111 | returns exactly FirstTurn(basis) |
| WheelFactorization.FirstTurnMembers | csharp/Sieve/WheelFactorizationSieve.cs:91-108 | v is in the first turn iff basis[^1] < v <= product + 1 and v is not flagged |
| WheelFactorization.FirstTurnIncreasing | csharp/Sieve/WheelFactorizationSieve.cs:101-108 | the first turn is strictly increasing |
| WheelFactorization.FirstTurnCoprime | csharp/Sieve/WheelFactorizationSieve.cs:83-111 | for an ascending basis, v is in the first turn iff basis[^1] < v <= product + 1 and no basis element divides v |
| WheelFactorization.FirstTurnLast | csharp/Sieve/WheelFactorizationSieve.cs:91-108 | the first turn is never empty and ends with product + 1 |
| WheelFactorization.FirstTurnCompositeAboveSquare | csharp/Sieve/WheelFactorizationSieve.cs:11-12 | with the first primes as basis, a composite in the first turn exceeds the square of the last basis element |
| WheelFactorization.FirstTurnPrimeFactor | csharp/Sieve/WheelFactorizationSieve.cs:11-12 | with the first primes as basis, every prime factor of a first-turn value lies above the basis |
| WheelFactorization.FirstTurnMayHoldComposite | csharp/Sieve/WheelFactorizationSieve.cs:65-69 | for the basis [2, 3, 5, 7] the first turn contains 121, which is not prime |
| WheelFactorization.DefaultBasisValid | csharp/Sieve/WheelFactorizationSieve.cs:8 | the default basis [2, 3, 5] is ascending, has product 30, and fits the first-turn computation |
| WheelFactorization.DefaultFirstTurn | csharp/Sieve/WheelFactorizationSieve.cs:83-111 | the first turn of [2, 3, 5] is [7, 11, 13, 17, 19, 23, 29, 31] |
| WheelFactorization.DefaultRanksArePrimes | csharp/Sieve/WheelFactorizationSieve.cs:51-69 | with the default basis, the basis followed by its first turn is exactly the first eleven primes |
| WheelFactorization.FindPrimesAfterFirstTurn | csharp/Sieve/WheelFactorizationSieve.cs:113-116 | always returns an empty array |
| WheelFactorization.WheelFactorizationSieve.constructor | csharp/Sieve/WheelFactorizationSieve.cs:10-14 | the given basis with an empty first turn and an empty after-first-turn array |
| WheelFactorization.WheelFactorizationSieve.Create | csharp/Sieve/WheelFactorizationSieve.cs:18-49 | an empty basis is rejected; no basis means [2, 3, 5]; a negative maxN changes nothing; an invalid maxN is out-of-range; the first turn is computed iff maxN reaches past the basis; maxN + 1 primes are requested after the first turn iff maxN reaches past it too |
| WheelFactorization.WheelFactorizationSieve.NthPrime | csharp/Sieve/WheelFactorizationSieve.cs:51-81 | invalid n: out-of-range; ranks below the basis length: the basis element, nothing computed; later ranks: the first turn is computed once and served; past it, max(n + 1, 2 * known count) primes are requested and the rank ends in index-out-of-range |

## Left out

- The floating-point formula of `GetUpperBound` (the logarithms and the double-to-long cast) is the parameter `estimate`, its value at n + 1. That it bounds the n-th prime is the predicate `SoundEstimate`, taken as a hypothesis and not proved.
- `Math.Sqrt` followed by the cast to `long` is the integer floor square root `FloorSqrt`.
- Runtime failures are not modelled: allocating huge arrays and running out of memory. In the model, the overflow for rank long.MaxValue - 1 comes from the checked increment in `GetUpperBound`.
- SieveBase.Sieve.NthPrime: requires `2 * primes.Length <= long.MaxValue`. The 32-bit product `_primes.Length * 2` of the source is not modelled.
- OddsOnlySieve.FlagOddCompositeValues: requires `maxValue >= 0`. `FindPrimes` passes the result of `GetUpperBound`, which is at least 37; the tests pass 9 and 10. The source's behaviour on negative sizes and a NaN square root is not modelled.
- OddsOnlySieve.FlagOddCompositeValues: at `maxValue == long.MaxValue` the source's `maxValue + 1` wraps to long.MinValue, so the array length is negative and the allocation throws. The model computes the length with unbounded integers and returns the flags instead.
- OddsOnlySieve.FindPrimes: requires `primeCount >= 1`. Every caller passes at least n + 1 with n >= 0. The failure of `primes[0] = 2` on an empty array is not modelled.
- WheelFactorization.FindPrimesInFirstTurn: requires a non-empty basis with every element at least 2 and `2 * product + 2 <= long.MaxValue`. With an element below 1, the source throws OverflowException at the allocation of WheelFactorizationSieve.cs:91 when the product is below -2. It indexes out of range when a marking loop starts below 0, as the loop of any negative element does. It loops forever at WheelFactorizationSieve.cs:95 on a zero element that no earlier element pre-empts. A larger product makes the unchecked `long` arithmetic wrap. None of these is modelled.
- WheelFactorization.WheelFactorizationSieve.Create: requires the same of every non-empty basis it is given, even when `maxN < basis.Length` and the source never computes the first turn. The source builds such an object without complaint and answers the basis ranks. A basis element equal to 1 is excluded too, although the source handles it: the marking loop of 1 flags every value from 2 on. The class invariant `Valid` requires the same, so `NthPrime` inherits the restriction.
- WheelFactorization.WheelFactorizationSieve.Create: a missing basis gets a new [2, 3, 5] array for each instance. The source shares one static array, which no code writes to.
- WheelFactorization.WheelFactorizationSieve.NthPrime: the requested prime count is recorded in the ghost field `requested` with mathematical integers. The after-first-turn routine ignores it, and its 32-bit sum of lengths is not modelled.
- The sieve after the first turn of the wheel does not exist in the source. Its routine is modelled as the stub that returns no primes.
- The text of exception messages is not modelled, including the `primeIndex + 1` in the fewer-primes message. Only the error conditions are.
- The abstract `Sieve` class and its `FindPrimes` override in `OddsOnlySieve` are flattened: class `Sieve` calls the odds-only `FindPrimes` directly.
- The plain sieve `FlagCompositeValues` and the `SieveImplementation` type of the tests are not part of this model.
