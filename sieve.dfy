/**
 * The growable prime cache (Sieve.cs), with the odds-only FindPrimes
 * (OddsOnlySieve.cs) as its one concrete strategy. The cache is one array
 * field that a miss replaces wholesale by a regenerated, larger array.
 */
module SieveBase {
  import opened Primes
  import opened SieveUtils
  import OddsOnlySieve

  /** The cache length after a successful query for rank n against a cache of length len. */
  function NextCacheLength(len: nat, n: nat): (r: nat)
    ensures n < r
    ensures n < len ==> r == len
    ensures len <= r
    ensures len <= n ==> 2 * len <= r
    ensures r == len || r == n + 1 || r == 2 * len
  {
    if n < len then len else Max(n + 1, 2 * len)
  }

  class Sieve {
    /** The floating-point part of the upper-bound estimator. */
    const estimate: int -> nat
    /** The cached primes, `_primes` in the source. */
    var primes: array<int>

    /** The cache always holds the first primes in order. */
    ghost predicate Valid()
      reads this, primes
    {
      FirstPrimes(primes[..])
    }

    /** The cache starts empty and is populated on first use. */
    constructor (estimate: int -> nat)
      ensures Valid() && this.estimate == estimate && primes.Length == 0
    {
      this.estimate := estimate;
      primes := new int[0];
    }

    /**
     * Construction with an optional largest expected rank maxN
     * (Sieve.cs:10-21): without it the cache stays empty; with it maxN is
     * validated and the cache is populated with maxN + 1 primes.
     */
    static method Create(maxN: Option<Long>, estimate: int -> nat) returns (r: Result<Sieve>)
      ensures r.Ok? ==> fresh(r.value) && r.value.Valid() && r.value.estimate == estimate
      ensures maxN.None? ==> r.Ok? && r.value.primes.Length == 0
      ensures maxN.Some? && ValidateN(maxN.value).Fail? ==> r == Err(OutOfRange)
      ensures maxN.Some? && ValidateN(maxN.value).Pass? ==>
        var spec := OddsOnlySieve.FindPrimesSpec(maxN.value + 1, estimate);
        (r.Ok? <==> spec.Ok?) &&
        (r.Ok? ==> r.value.primes[..] == spec.value && r.value.primes.Length == maxN.value + 1) &&
        (r.Err? ==> r.error == spec.error)
    {
      var sieve := new Sieve(estimate);
      if maxN.None? {
        // Wait until first use to populate primes.
        return Ok(sieve);
      }
      var valid := ValidateN(maxN.value);
      if valid.Fail? {
        return Err(valid.error);
      }
      var found := OddsOnlySieve.FindPrimes(maxN.value + 1, estimate);
      if found.Err? {
        return Err(found.error);
      }
      OddsOnlySieve.FindPrimesSpecFirstPrimes(maxN.value + 1, estimate);
      sieve.primes := found.value;
      return Ok(sieve);
    }

    /**
     * The prime of 0-based rank n (Sieve.cs:23-36). A hit answers from the
     * cache and leaves it alone; a miss regenerates the cache with
     * max(n + 1, 2 * length) primes and then answers from it.
     */
    method NthPrime(n: Long) returns (r: Result<int>)
      requires Valid()
      requires 2 * primes.Length <= MaxLong
      modifies this
      ensures Valid()
      ensures ValidateN(n).Fail? ==> r == Err(OutOfRange) && primes == old(primes)
      ensures ValidateN(n).Pass? && n < old(primes.Length) ==>
        r == Ok(old(primes[n])) && primes == old(primes)
      ensures ValidateN(n).Pass? && n >= old(primes.Length) ==>
        var spec := OddsOnlySieve.FindPrimesSpec(NextCacheLength(old(primes.Length), n), estimate);
        (spec.Ok? ==> primes[..] == spec.value && r == Ok(primes[n])) &&
        (spec.Err? ==> r == Err(spec.error) && primes == old(primes))
      ensures r.Ok? ==> 0 <= n < primes.Length && r.value == primes[n]
      ensures r.Ok? ==> IsPrime(r.value) && |PrimesUpTo(r.value)| == n + 1
      ensures r.Ok? ==> primes.Length == NextCacheLength(old(primes.Length), n)
      ensures old(primes[..]) <= primes[..]
    {
      var valid := ValidateN(n);
      if valid.Fail? {
        return Err(valid.error);
      }
      if n < primes.Length {
        RankOfFirstPrimes(primes[..], n);
        return Ok(primes[n]);
      }
      // Double the known count so that increasing consecutive ranks
      // regenerate only logarithmically often.
      var primeCount := Max(n + 1, primes.Length * 2);
      assert primeCount == NextCacheLength(primes.Length, n);
      var found := OddsOnlySieve.FindPrimes(primeCount, estimate);
      if found.Err? {
        return Err(found.error);
      }
      Regenerated(primes[..], primeCount, estimate);
      primes := found.value;
      RankOfFirstPrimes(primes[..], n);
      return Ok(primes[n]);
    }
  }

  /** A regenerated cache holds the first primes, as many as requested, and extends the old one. */
  lemma Regenerated(cache: seq<int>, primeCount: Long, estimate: int -> nat)
    requires FirstPrimes(cache) && 1 <= primeCount && |cache| <= primeCount
    requires OddsOnlySieve.FindPrimesSpec(primeCount, estimate).Ok?
    ensures var found := OddsOnlySieve.FindPrimesSpec(primeCount, estimate).value;
      FirstPrimes(found) && |found| == primeCount && cache <= found
  {
    OddsOnlySieve.FindPrimesSpecFirstPrimes(primeCount, estimate);
    FirstPrimesUnique(cache, OddsOnlySieve.FindPrimesSpec(primeCount, estimate).value);
  }

  /**
   * Ranks 0 to 11 are answered with the first twelve primes, 2 to 37, on
   * every valid cache that holds them.
   */
  lemma SmallRanks(cache: seq<int>, n: nat)
    requires FirstPrimes(cache) && n < |cache| && n < SmallRankLimit
    ensures cache[n] == [2, 3, 5, 7, 11, 13, 17, 19, 23, 29, 31, 37][n]
  {
    SmallBoundCoversFirstTwelve();
    PrimesUpTo37();
    FirstPrimesAgree(cache, PrimesUpTo(37), n);
  }

  /**
   * The largest valid rank, long.MaxValue - 1, misses every cache NthPrime
   * can hold, asks for long.MaxValue primes and so ends in the estimator's
   * overflow.
   */
  lemma LastRankOverflows(len: nat, estimate: int -> nat)
    requires 2 * len <= MaxLong
    ensures ValidateN(MaxLong - 1).Pass? && MaxLong - 1 >= len
    ensures NextCacheLength(len, MaxLong - 1) == MaxLong
    ensures OddsOnlySieve.FindPrimesSpec(MaxLong, estimate) == Err(Overflow)
  {
  }

  /**
   * The number of regenerations when the ranks n, n+1, ..., last are queried
   * in order against a cache of length len, following NthPrime's growth rule.
   */
  function Regenerations(len: nat, n: nat, last: nat): nat
    decreases last + 1 - n
  {
    if n > last then 0
    else if n < len then Regenerations(len, n + 1, last)
    else 1 + Regenerations(NextCacheLength(len, n), n + 1, last)
  }

  function Pow2(k: nat): (r: nat)
    ensures r >= 1
  {
    if k == 0 then 1 else 2 * Pow2(k - 1)
  }

  /** Every regeneration at least doubles the cache, which never outgrows twice the last rank plus one. */
  lemma {:induction false} RegenerationsDoubling(len: nat, n: nat, last: nat)
    requires len >= 1
    ensures Pow2(Regenerations(len, n, last)) * len <= Max(len, 2 * (last + 1))
    decreases last + 1 - n
  {
    if n > last {
    } else if n < len {
      RegenerationsDoubling(len, n + 1, last);
    } else {
      var next := NextCacheLength(len, n);
      RegenerationsDoubling(next, n + 1, last);
      var k := Regenerations(next, n + 1, last);
      assert Regenerations(len, n, last) == k + 1;
      assert next <= 2 * (last + 1);
      DoublingStep(k, len, next, 2 * (last + 1));
    }
  }

  /** One more doubling fits under the bound when the doubled length does. */
  lemma DoublingStep(k: nat, len: nat, next: nat, bound: int)
    requires 2 * len <= next && Pow2(k) * next <= bound
    ensures Pow2(k + 1) * len <= bound
  {
    MulMonotone(2 * len, next, Pow2(k));
    assert Pow2(k + 1) * len == Pow2(k) * (2 * len);
  }

  /**
   * Querying ranks 0, 1, ..., last in order on an empty cache regenerates it
   * at most log2(last + 1) + 2 times: 2^regenerations <= 4 (last + 1).
   */
  lemma RegenerationsLogarithmic(last: nat)
    ensures Pow2(Regenerations(0, 0, last)) <= 4 * (last + 1)
  {
    assert Regenerations(0, 0, last) == 1 + Regenerations(1, 1, last);
    RegenerationsDoubling(1, 1, last);
  }
}
