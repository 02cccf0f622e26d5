/**
 * Input validation and the upper-bound estimator shared by the sieves
 * (SieveUtils.cs; Sieve.cs carries an identical copy of both, the guard
 * private and the estimator internal).
 */
module SieveUtils {
  import opened Primes

  const MaxLong: int := 0x7FFF_FFFF_FFFF_FFFF
  const MinLong: int := -0x8000_0000_0000_0000

  /** The values of a C# `long`. */
  type Long = x: int | MinLong <= x <= MaxLong

  /** The exceptions the core raises. */
  datatype Error =
    | OutOfRange              // ArgumentOutOfRangeException
    | Overflow                // OverflowException from checked arithmetic
    | InternalInconsistency   // Exception: fewer primes found than requested
    | EmptyBasis              // ArgumentException for an empty wheel basis
    | IndexOutOfRange         // IndexOutOfRangeException on an array access

  datatype Option<T> = None | Some(value: T)

  datatype Result<T> = Ok(value: T) | Err(error: Error)

  /** The outcome of a void operation that may throw. */
  datatype Outcome = Pass | Fail(error: Error)

  function Max(a: int, b: int): int
  {
    if a < b then b else a
  }

  /** A rank is valid when it is non-negative and not the reserved maximum. */
  function ValidateN(n: Long): (r: Outcome)
    ensures r.Pass? <==> 0 <= n < MaxLong
    ensures r.Fail? ==> r.error == OutOfRange
  {
    if n < 0 then Fail(OutOfRange)
    else if n == MaxLong then Fail(OutOfRange)
    else Pass
  }

  /** The prime count below which the fixed bound 37 is used. */
  const SmallRankLimit: int := 12

  /**
   * An upper bound for the prime of (0-based) rank n. `estimate(m)` stands for
   * the floating-point value floor(m (ln m + ln ln m - 1 + 1.8 ln ln m / ln m)),
   * here taken at m = n + 1; only its non-negativity is known to the model.
   * The increment of n and the conversion to `long` are checked.
   */
  function GetUpperBound(n: Long, estimate: int -> nat): (r: Result<int>)
    ensures n < SmallRankLimit ==> r == Ok(37)
    ensures r.Err? <==> n >= SmallRankLimit && (n == MaxLong || estimate(n + 1) > MaxLong)
    ensures r.Err? ==> r.error == Overflow
    ensures r.Ok? ==> 0 <= r.value <= MaxLong
    ensures n >= SmallRankLimit && r.Ok? ==> r.value == estimate(n + 1)
  {
    if n < SmallRankLimit then Ok(37)
    else if n + 1 > MaxLong then Err(Overflow)
    else
      var bound := estimate(n + 1);
      if bound > MaxLong then Err(Overflow) else Ok(bound)
  }

  /**
   * The assumed contract of the estimate: for every m >= 13 it is at least the
   * m-th prime (1-based), i.e. at least m primes lie at or below it.
   */
  ghost predicate SoundEstimate(estimate: int -> nat)
  {
    forall m :: m > SmallRankLimit ==> |PrimesUpTo(estimate(m))| >= m
  }

  /** 37 bounds the prime of every rank below 12: the first 12 primes all lie at or below it. */
  lemma SmallBoundCoversFirstTwelve()
    ensures |PrimesUpTo(37)| == SmallRankLimit
    ensures FirstPrimes(PrimesUpTo(37))
  {
    PrimesUpTo37();
    PrefixOfPrimesUpTo(37, 12);
    assert PrimesUpTo(37)[..12] == PrimesUpTo(37);
  }

  /**
   * Under the assumed contract of the estimate, a bound that is returned is
   * at least the prime of rank n: at least n + 1 primes lie at or below it.
   */
  lemma UpperBoundSound(n: Long, estimate: int -> nat)
    requires 0 <= n && SoundEstimate(estimate)
    requires GetUpperBound(n, estimate).Ok?
    ensures |PrimesUpTo(GetUpperBound(n, estimate).value)| > n
  {
    if n < SmallRankLimit {
      SmallBoundCoversFirstTwelve();
    }
  }
}
