/**
 * The odds-only sieve of Eratosthenes (OddsOnlySieve.cs). Index i of the flag
 * array stands for the odd value 2i+1; a prime candidate at index i marks
 * composites starting at the index of its square and stepping by the value
 * itself, which is a step of twice the value in the integers.
 */
module OddsOnlySieve {
  import opened Primes
  import opened SieveUtils

  // ---------------------------------------------------------------------
  // Integer square root (stands in for the truncated Math.Sqrt)

  function FloorSqrtFrom(n: nat, r: nat): (s: nat)
    requires r * r <= n
    ensures s * s <= n < (s + 1) * (s + 1)
    decreases n - r
  {
    if n < (r + 1) * (r + 1) then r
    else
      assert r + 1 <= (r + 1) * (r + 1);
      FloorSqrtFrom(n, r + 1)
  }

  /** The largest r with r * r <= n. */
  function FloorSqrt(n: nat): (r: nat)
    ensures r * r <= n < (r + 1) * (r + 1)
  {
    FloorSqrtFrom(n, 0)
  }

  // ---------------------------------------------------------------------
  // Specification of the flag array

  /**
   * The flags FlagOddCompositeValues(maxValue) promises: one per odd value
   * 2j+1 <= maxValue, true exactly for the composite ones; index 0 (the value
   * 1) is false.
   */
  ghost function OddCompositeFlags(maxValue: int): seq<bool>
    requires maxValue >= 0
  {
    seq((maxValue + 1) / 2, j => j > 0 && !IsPrime(2 * j + 1))
  }

  /**
   * What the sieve has marked for v once every candidate value below lim has
   * been processed: v has a factor d with 3 <= d < lim and d * d <= v.
   */
  ghost predicate HasSmallFactor(v: int, lim: int)
  {
    exists d :: 3 <= d < lim && d * d <= v && Divides(d, v)
  }

  // ---------------------------------------------------------------------
  // The index arithmetic

  /** For odd v, the index v*v/2 represents v*v. */
  lemma OddSquareIndex(v: int)
    requires v % 2 == 1
    ensures 2 * (v * v / 2) + 1 == v * v
  {
    var a := v / 2;
    assert v == 2 * a + 1;
    assert v * v == (2 * a * a + 2 * a) * 2 + 1;
    DivModUnique(v * v, 2, 2 * a * a + 2 * a, 1);
  }

  /** Stepping the index by v steps the represented value by 2v: the next odd multiple. */
  lemma NextOddMultiple(v: int, j: int)
    requires Divides(v, 2 * j + 1)
    ensures Divides(v, 2 * (j + v) + 1)
  {
    var q := (2 * j + 1) / v;
    assert 2 * j + 1 == q * v;
    assert 2 * (j + v) + 1 == (q + 2) * v;
    MultipleDivides(v, q + 2);
  }

  /** No index strictly between two steps represents a multiple of v. */
  lemma NoOddMultipleBetween(v: int, j: int, k: int)
    requires v % 2 == 1 && Divides(v, 2 * j + 1) && j < k < j + v
    ensures !Divides(v, 2 * k + 1)
  {
    var q := (2 * j + 1) / v;
    var g := 2 * (k - j);
    assert 2 * j + 1 == q * v;
    assert 2 * k + 1 == q * v + g;
    assert g != v;
    if g < v {
      DivModUnique(2 * k + 1, v, q, g);
    } else {
      assert 2 * k + 1 == (q + 1) * v + (g - v);
      DivModUnique(2 * k + 1, v, q + 1, g - v);
    }
  }

  /** The odd candidate w marks v: v is a multiple of w no smaller than w * w. */
  ghost predicate MarkedFrom(w: int, v: int)
  {
    w * w <= v && Divides(w, v)
  }

  /** Processing odd candidate 2i+1 adds exactly the odd multiples of it from its square on. */
  lemma SmallFactorStep(k: int, i: int)
    requires k >= 0 && i >= 1
    ensures HasSmallFactor(2 * k + 1, 2 * i + 3) <==>
            HasSmallFactor(2 * k + 1, 2 * i + 1) || MarkedFrom(2 * i + 1, 2 * k + 1)
  {
    var v := 2 * k + 1;
    OddNotDivisibleByEven(2 * i + 2, v);
    if HasSmallFactor(v, 2 * i + 3) {
      var d :| 3 <= d < 2 * i + 3 && d * d <= v && Divides(d, v);
      assert d < 2 * i + 1 || d == 2 * i + 1;
    }
  }

  /**
   * One step of the inner loop: with the index j representing a multiple of
   * the candidate w from its square on, the next step of w indexes marks j
   * and nothing else.
   */
  lemma MarkedFromStep(w: int, j: int, k: int)
    requires w % 2 == 1 && MarkedFrom(w, 2 * j + 1)
    ensures (k < j + w && MarkedFrom(w, 2 * k + 1)) <==> (k < j && MarkedFrom(w, 2 * k + 1)) || k == j
  {
    if j < k < j + w {
      NoOddMultipleBetween(w, j, k);
    }
  }

  /**
   * A composite candidate adds nothing: every odd multiple of it from its
   * square on was already marked by one of its own smaller factors.
   */
  lemma SmallFactorAbsorb(k: int, i: int)
    requires k >= 0 && i >= 1 && HasSmallFactor(2 * i + 1, 2 * i + 1)
    ensures HasSmallFactor(2 * k + 1, 2 * i + 3) <==> HasSmallFactor(2 * k + 1, 2 * i + 1)
  {
    SmallFactorStep(k, i);
    var v := 2 * k + 1;
    var w := 2 * i + 1;
    if MarkedFrom(w, v) {
      var d :| 3 <= d < w && d * d <= w && Divides(d, w);
      DividesTransitive(d, w, v);
      MulMonotone(1, w, w);
      assert 3 <= d < w && d * d <= v && Divides(d, v);
    }
  }

  /** A factor whose square is at most x <= maxValue is at most the root. */
  lemma FactorBelowRoot(d: int, s: int, x: int)
    requires 0 <= s && 0 <= d && d * d <= x < (s + 1) * (s + 1)
    ensures d <= s
  {
    MulMonotone(s + 1, d, d);
    MulMonotone(s + 1, d, s + 1);
  }

  lemma MarkedIsComposite(x: int, lim: int)
    requires HasSmallFactor(x, lim)
    ensures x >= 3 && !IsPrime(x)
  {
    var d :| 3 <= d < lim && d * d <= x && Divides(d, x);
    MulMonotone(3, d, d);
    SmallFactorNotPrime(x, d);
  }

  lemma CompositeIsMarked(x: int, s: int, maxValue: int)
    requires 0 <= s && s * s <= maxValue < (s + 1) * (s + 1)
    requires x % 2 == 1 && 3 <= x <= maxValue && !IsPrime(x)
    ensures HasSmallFactor(x, 2 * (s / 2) + 3)
  {
    CompositeHasSmallFactor(x);
    var d :| 2 <= d && d * d <= x && Divides(d, x);
    OddNotDivisibleByEven(2, x);
    FactorBelowRoot(d, s, x);
    assert 3 <= d < 2 * (s / 2) + 3 && d * d <= x && Divides(d, x);
  }

  /** Once every candidate up to the root is processed, the marks are exactly the odd composites. */
  lemma SieveComplete(x: int, s: int, maxValue: int)
    requires 0 <= s && s * s <= maxValue < (s + 1) * (s + 1)
    requires x % 2 == 1 && 1 <= x <= maxValue
    ensures HasSmallFactor(x, 2 * (s / 2) + 3) <==> x >= 3 && !IsPrime(x)
  {
    if HasSmallFactor(x, 2 * (s / 2) + 3) {
      MarkedIsComposite(x, 2 * (s / 2) + 3);
    }
    if x >= 3 && !IsPrime(x) {
      CompositeIsMarked(x, s, maxValue);
    }
  }

  /** The last candidate index the outer loop reads lies inside the array. */
  lemma RootIndexInRange(maxValue: int, s: int)
    requires 2 <= s && s * s <= maxValue
    ensures s / 2 < (maxValue + 1) / 2
  {
    MulMonotone(2, s, s);
  }

  // ---------------------------------------------------------------------
  // The sieve

  /** The flags once every candidate value below lim has been processed. */
  ghost predicate ProcessedBelow(f: seq<bool>, lim: int)
  {
    forall k :: 0 <= k < |f| ==> (f[k] <==> HasSmallFactor(2 * k + 1, lim))
  }

  /** The flags while candidate 2i+1 marks its multiples, up to the index j. */
  ghost predicate MarkingUpTo(f: seq<bool>, i: int, j: int)
  {
    forall k :: 0 <= k < |f| ==>
      (f[k] <==> HasSmallFactor(2 * k + 1, 2 * i + 1) || (k < j && MarkedFrom(2 * i + 1, 2 * k + 1)))
  }

  /** A flagged candidate is skipped without losing anything. */
  lemma SkipFlagged(f: seq<bool>, i: int)
    requires 1 <= i < |f| && f[i] && ProcessedBelow(f, 2 * i + 1)
    ensures ProcessedBelow(f, 2 * i + 3)
  {
    forall k | 0 <= k < |f|
      ensures f[k] <==> HasSmallFactor(2 * k + 1, 2 * i + 3)
    {
      SmallFactorAbsorb(k, i);
    }
  }

  /** Setting the flag at j moves the marking on by one step of 2i+1 indexes. */
  lemma MarkOne(f: seq<bool>, i: int, j: int)
    requires i >= 1 && 0 <= j < |f| && MarkingUpTo(f, i, j) && MarkedFrom(2 * i + 1, 2 * j + 1)
    ensures MarkingUpTo(f[j := true], i, j + 2 * i + 1)
  {
    var g := f[j := true];
    forall k | 0 <= k < |g|
      ensures g[k] <==> HasSmallFactor(2 * k + 1, 2 * i + 1) || (k < j + 2 * i + 1 && MarkedFrom(2 * i + 1, 2 * k + 1))
    {
      if k == j {
        assert g[k];
      } else {
        assert g[k] == f[k];
        MarkedFromStep(2 * i + 1, j, k);
      }
    }
  }

  /** Marking past the end of the array completes candidate 2i+1. */
  lemma MarkingDone(f: seq<bool>, i: int, j: int)
    requires i >= 1 && j >= |f| && MarkingUpTo(f, i, j)
    ensures ProcessedBelow(f, 2 * i + 3)
  {
    forall k | 0 <= k < |f|
      ensures f[k] <==> HasSmallFactor(2 * k + 1, 2 * i + 3)
    {
      SmallFactorStep(k, i);
    }
  }

  /** Once every candidate up to the root is processed, the flags are the specified ones. */
  lemma FlagsComplete(f: seq<bool>, s: int, maxValue: int)
    requires 0 <= s && s * s <= maxValue < (s + 1) * (s + 1)
    requires |f| == (maxValue + 1) / 2 && ProcessedBelow(f, 2 * (s / 2) + 3)
    ensures f == OddCompositeFlags(maxValue)
  {
    var spec := OddCompositeFlags(maxValue);
    forall k | 0 <= k < |f|
      ensures f[k] == spec[k]
    {
      OddIndexInRange(k, maxValue);
      SieveComplete(2 * k + 1, s, maxValue);
    }
  }

  /** Index k of the flag array represents an odd value in [1, maxValue]. */
  lemma OddIndexInRange(k: int, maxValue: int)
    requires 0 <= k < (maxValue + 1) / 2
    ensures (2 * k + 1) % 2 == 1 && 1 <= 2 * k + 1 <= maxValue
  {
    DivModUnique(2 * k + 1, 2, k, 1);
  }

  /**
   * Flags the odd composite values up to maxValue (OddsOnlySieve.cs:46-71);
   * the result has one entry per odd value 2j+1 <= maxValue.
   */
  method FlagOddCompositeValues(maxValue: int) returns (compositeFlags: array<bool>)
    requires 0 <= maxValue <= MaxLong
    ensures compositeFlags.Length == (maxValue + 1) / 2
    ensures compositeFlags[..] == OddCompositeFlags(maxValue)
  {
    compositeFlags := new bool[(maxValue + 1) / 2](_ => false);
    var sqrtMaxValue := FloorSqrt(maxValue);
    var indexOfSqrtMaxValue := sqrtMaxValue / 2;

    for i := 1 to indexOfSqrtMaxValue + 1
      invariant ProcessedBelow(compositeFlags[..], 2 * i + 1)
    {
      if sqrtMaxValue >= 2 {
        RootIndexInRange(maxValue, sqrtMaxValue);
      }
      if compositeFlags[i] {
        // Everything this candidate could mark is marked already.
        SkipFlagged(compositeFlags[..], i);
        continue;
      }
      MarkOddMultiples(compositeFlags, i);
    }

    FlagsComplete(compositeFlags[..], sqrtMaxValue, maxValue);
  }

  /**
   * The inner loop of FlagOddCompositeValues (OddsOnlySieve.cs:63-67): the
   * unflagged candidate 2i+1 flags its odd multiples from its square on.
   */
  method MarkOddMultiples(compositeFlags: array<bool>, i: int)
    requires i >= 1 && ProcessedBelow(compositeFlags[..], 2 * i + 1)
    modifies compositeFlags
    ensures ProcessedBelow(compositeFlags[..], 2 * i + 3)
  {
    // Start at the index of the square of this value.
    var value := 2 * i + 1;
    var j := value * value / 2;
    OddSquareIndex(value);
    MultipleDivides(value, value);
    while j < compositeFlags.Length
      invariant MarkedFrom(value, 2 * j + 1)
      invariant MarkingUpTo(compositeFlags[..], i, j)
      decreases compositeFlags.Length - j
    {
      MarkOne(compositeFlags[..], i, j);
      compositeFlags[j] := true;
      NextOddMultiple(value, j);
      j := j + value;
    }
    MarkingDone(compositeFlags[..], i, j);
  }

  /** The flag array of the unit test: both 9 and 10 give [1, 3, 5, 7 unmarked; 9 marked]. */
  lemma FlagsUpToTen()
    ensures OddCompositeFlags(9) == [false, false, false, false, true]
    ensures OddCompositeFlags(10) == [false, false, false, false, true]
  {
    PrimeTest(3);
    PrimeTest(5);
    PrimeTest(7);
    NotPrimeWitness(9, 3);
  }

  // ---------------------------------------------------------------------
  // Collecting the primes

  /**
   * What FindPrimes(primeCount) returns: the first primeCount primes when the
   * estimated bound holds that many, the overflow of the estimator, or the
   * internal-consistency error when the bound holds too few.
   */
  ghost function FindPrimesSpec(primeCount: Long, estimate: int -> nat): Result<seq<int>>
    requires 1 <= primeCount
  {
    if primeCount == 1 then Ok([2])
    else
      match GetUpperBound(primeCount, estimate)
      case Err(e) => Err(e)
      case Ok(bound) =>
        var found := PrimesUpTo(Max(bound, 2));
        if |found| >= primeCount then Ok(found[..primeCount]) else Err(InternalInconsistency)
  }

  /** A successful result holds exactly primeCount entries: the first primes, starting with 2. */
  lemma FindPrimesSpecFirstPrimes(primeCount: Long, estimate: int -> nat)
    requires 1 <= primeCount
    requires FindPrimesSpec(primeCount, estimate).Ok?
    ensures |FindPrimesSpec(primeCount, estimate).value| == primeCount
    ensures FirstPrimes(FindPrimesSpec(primeCount, estimate).value)
    ensures FindPrimesSpec(primeCount, estimate).value[0] == 2
  {
    PrimesUpToPrefix(1, 2);
    if primeCount == 1 {
      PrefixOfPrimesUpTo(2, 1);
    } else {
      var bound := GetUpperBound(primeCount, estimate).value;
      PrefixOfPrimesUpTo(Max(bound, 2), primeCount);
      PrimesUpToPrefix(2, Max(bound, 2));
    }
  }

  /** The internal error cannot occur when the estimate meets its assumed contract. */
  lemma FindPrimesNoInternalError(primeCount: Long, estimate: int -> nat)
    requires 1 <= primeCount && SoundEstimate(estimate)
    ensures FindPrimesSpec(primeCount, estimate) != Err(InternalInconsistency)
  {
    if primeCount > 1 && GetUpperBound(primeCount, estimate).Ok? {
      var bound := GetUpperBound(primeCount, estimate).value;
      UpperBoundSound(primeCount, estimate);
      PrimesUpToPrefix(bound, Max(bound, 2));
    }
  }

  /** The flags cover exactly the primes up to max(bound, 2). */
  lemma SieveLimit(bound: int)
    requires bound >= 0
    ensures PrimesUpTo(2 * Max(1, (bound + 1) / 2)) == PrimesUpTo(Max(bound, 2))
  {
    if bound >= 3 && bound % 2 == 1 {
      EvenNotPrime(bound + 1);
      PrimesUpToSkip(bound);
    }
  }

  /** Moving the scan one index on adds 2i+1 exactly when it is not flagged composite. */
  lemma CollectOne(found: seq<int>, i: int, composite: bool)
    requires i >= 1 && found == PrimesUpTo(2 * i) && composite == !IsPrime(2 * i + 1)
    ensures PrimesUpTo(2 * (i + 1)) == if composite then found else found + [2 * i + 1]
  {
    EvenNotPrime(2 * i + 2);
    PrimesUpToSkip(2 * i + 1);
  }

  /**
   * When the scan stops, the primes collected are all primes up to the
   * bound, or the first primeCount of them if the bound holds that many.
   */
  lemma CollectedPrimes(found: seq<int>, i: int, bound: int, primeCount: int)
    requires bound >= 0 && 1 <= i <= Max(1, (bound + 1) / 2)
    requires found == PrimesUpTo(2 * i) && |found| <= primeCount
    requires i >= (bound + 1) / 2 || |found| == primeCount
    ensures |found| == primeCount <==> |PrimesUpTo(Max(bound, 2))| >= primeCount
    ensures |found| == primeCount ==> found == PrimesUpTo(Max(bound, 2))[..primeCount]
  {
    SieveLimit(bound);
    PrimesUpToPrefix(2 * i, 2 * Max(1, (bound + 1) / 2));
  }

  /**
   * Collects the first primeCount primes (OddsOnlySieve.cs:7-40): 2, then the
   * unmarked odd values in increasing order until primeCount entries are filled.
   */
  method FindPrimes(primeCount: Long, estimate: int -> nat) returns (r: Result<array<int>>)
    requires 1 <= primeCount
    ensures r.Ok? <==> FindPrimesSpec(primeCount, estimate).Ok?
    ensures r.Ok? ==> r.value[..] == FindPrimesSpec(primeCount, estimate).value
    ensures r.Err? ==> r.error == FindPrimesSpec(primeCount, estimate).error
  {
    var primes := new int[primeCount];
    // The first prime is special: the sieve only holds odd values.
    primes[0] := 2;
    if primeCount == 1 {
      assert primes[..] == [2];
      return Ok(primes);
    }

    var upperBound := GetUpperBound(primeCount, estimate);
    if upperBound.Err? {
      return Err(upperBound.error);
    }
    var compositeFlags := FlagOddCompositeValues(upperBound.value);
    ghost var flags := OddCompositeFlags(upperBound.value);
    var primeIndex := 1;
    // Skip index 0, which stands for 1.
    var i := 1;
    PrimesUpToPrefix(1, 2);
    assert primes[..primeIndex] == [2] == PrimesUpTo(2 * i);
    while i < compositeFlags.Length && primeIndex < primeCount
      invariant 1 <= i <= Max(1, compositeFlags.Length)
      invariant compositeFlags[..] == flags
      invariant 1 <= primeIndex <= primeCount
      invariant primes[..primeIndex] == PrimesUpTo(2 * i)
    {
      assert compositeFlags[i] == flags[i];
      CollectOne(primes[..primeIndex], i, compositeFlags[i]);
      ghost var before := primes[..primeIndex];
      if !compositeFlags[i] {
        primes[primeIndex] := 2 * i + 1;
        assert primes[..primeIndex + 1] == before + [2 * i + 1];
        primeIndex := primeIndex + 1;
      }
      i := i + 1;
    }

    CollectedPrimes(primes[..primeIndex], i, upperBound.value, primeCount);
    if primeIndex != primeCount {
      return Err(InternalInconsistency);
    }
    assert primes[..] == primes[..primeIndex];
    return Ok(primes);
  }
}
