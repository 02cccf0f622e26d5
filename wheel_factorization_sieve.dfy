/**
 * The wheel-factorization sieve (WheelFactorizationSieve.cs): ranks below the
 * basis length are answered from the basis, the next ones from the "first
 * turn" of the wheel, computed lazily, and the rest from an array that the
 * unfinished after-first-turn routine always leaves empty.
 */
module WheelFactorization {
  import opened Primes
  import opened SieveUtils

  /** The product of the basis elements, accumulated left to right. */
  function Product(s: seq<int>): int
    decreases |s|
  {
    if |s| == 0 then 1 else Product(s[..|s| - 1]) * s[|s| - 1]
  }

  /**
   * A basis the first-turn computation handles: non-empty, every element at
   * least 2, and the product small enough that the flag array size and every
   * marking step stay within a `long`.
   */
  ghost predicate ValidBasis(s: seq<int>)
  {
    |s| > 0 &&
    (forall i :: 0 <= i < |s| ==> s[i] >= 2) &&
    2 * Product(s) + 2 <= MaxLong
  }

  /** k is a multiple of p other than p itself: what the marking loop of p flags. */
  predicate IsProperMultiple(k: int, p: int)
  {
    p > 0 && k >= 2 * p && k % p == 0
  }

  /** k is flagged once every element of s has been used for marking. */
  predicate Struck(s: seq<int>, k: int)
    decreases |s|
  {
    |s| > 0 && (Struck(s[..|s| - 1], k) || IsProperMultiple(k, s[|s| - 1]))
  }

  /** The unflagged values v with lo <= v < hi, in increasing order. */
  function Survivors(s: seq<int>, lo: int, hi: int): seq<int>
    decreases hi - lo
  {
    if hi <= lo then []
    else Survivors(s, lo, hi - 1) + (if Struck(s, hi - 1) then [] else [hi - 1])
  }

  /** The first turn: the unflagged values above the last basis element, up to product + 1. */
  function FirstTurn(s: seq<int>): seq<int>
    requires |s| > 0
  {
    Survivors(s, s[|s| - 1] + 1, Product(s) + 2)
  }

  // ---------------------------------------------------------------------
  // The product of the basis

  lemma {:induction false} ProductPositive(s: seq<int>)
    requires forall i :: 0 <= i < |s| ==> s[i] >= 1
    ensures Product(s) >= 1
    decreases |s|
  {
    if |s| > 0 {
      ProductPositive(s[..|s| - 1]);
      MulMonotone(1, Product(s[..|s| - 1]), s[|s| - 1]);
    }
  }

  /** Every basis element divides the product and is at most the product. */
  lemma {:induction false} ElementDividesProduct(s: seq<int>, i: int)
    requires forall k :: 0 <= k < |s| ==> s[k] >= 1
    requires 0 <= i < |s|
    ensures Divides(s[i], Product(s)) && s[i] <= Product(s)
    decreases |s|
  {
    var init := s[..|s| - 1];
    var last := s[|s| - 1];
    ProductPositive(init);
    assert Product(s) == Product(init) * last;
    if i == |s| - 1 {
      MultipleDivides(last, Product(init));
      MulMonotone(1, Product(init), last);
    } else {
      assert s[i] == init[i];
      ElementDividesProduct(init, i);
      MultipleDivides(Product(init), last);
      assert Product(init) * last == last * Product(init);
      DividesTransitive(s[i], Product(init), Product(s));
      MulMonotone(1, last, Product(init));
    }
  }

  // ---------------------------------------------------------------------
  // Flags and survivors

  /** The flag of k is set exactly when some basis element has k as a proper multiple. */
  lemma {:induction false} StruckMeans(s: seq<int>, k: int)
    ensures Struck(s, k) <==> exists i :: 0 <= i < |s| && IsProperMultiple(k, s[i])
    decreases |s|
  {
    if |s| > 0 {
      var init := s[..|s| - 1];
      StruckMeans(init, k);
      if exists i :: 0 <= i < |init| && IsProperMultiple(k, init[i]) {
        var i :| 0 <= i < |init| && IsProperMultiple(k, init[i]);
        assert s[i] == init[i];
      }
      if exists i :: 0 <= i < |s| && IsProperMultiple(k, s[i]) {
        var i :| 0 <= i < |s| && IsProperMultiple(k, s[i]);
        if i < |s| - 1 {
          assert init[i] == s[i];
        }
      }
    }
  }

  lemma {:induction false} SurvivorsExact(s: seq<int>, lo: int, hi: int)
    ensures StrictlyIncreasing(Survivors(s, lo, hi))
    ensures forall v :: v in Survivors(s, lo, hi) <==> lo <= v < hi && !Struck(s, v)
    decreases hi - lo
  {
    if hi > lo {
      SurvivorsExact(s, lo, hi - 1);
      var t := Survivors(s, lo, hi - 1);
      forall i | 0 <= i < |t|
        ensures t[i] < hi - 1
      {
        assert t[i] in t;
      }
      var u := t + (if Struck(s, hi - 1) then [] else [hi - 1]);
      assert Survivors(s, lo, hi) == u;
      forall i, j | 0 <= i < j < |u|
        ensures u[i] < u[j]
      {
        assert u[i] == t[i];
      }
      forall v
        ensures v in u <==> lo <= v < hi && !Struck(s, v)
      {
        assert v in u <==> v in t || (!Struck(s, hi - 1) && v == hi - 1);
      }
    }
  }

  /** A proper multiple of p above p is just a multiple of p. */
  lemma ProperMultipleAbove(k: int, p: int)
    requires 0 < p < k
    ensures IsProperMultiple(k, p) <==> Divides(p, k)
  {
    if Divides(p, k) {
      var q := k / p;
      assert k == q * p;
      MulMonotone(q, 1, p);
      MulMonotone(2, q, p);
    }
  }

  /** A value lies in the first turn iff it is in range and no basis element has it as a proper multiple. */
  lemma FirstTurnMembers(s: seq<int>, v: int)
    requires |s| > 0
    ensures v in FirstTurn(s) <==> s[|s| - 1] < v <= Product(s) + 1 && !Struck(s, v)
  {
    SurvivorsExact(s, s[|s| - 1] + 1, Product(s) + 2);
  }

  /** The first turn is in strictly increasing order. */
  lemma FirstTurnIncreasing(s: seq<int>)
    requires |s| > 0
    ensures StrictlyIncreasing(FirstTurn(s))
  {
    SurvivorsExact(s, s[|s| - 1] + 1, Product(s) + 2);
  }

  /**
   * For an ascending basis the first turn holds exactly the values v with
   * basis[^1] < v <= product + 1 that no basis element divides.
   */
  lemma FirstTurnCoprime(s: seq<int>, v: int)
    requires ValidBasis(s) && StrictlyIncreasing(s)
    ensures v in FirstTurn(s) <==>
      s[|s| - 1] < v <= Product(s) + 1 && forall i :: 0 <= i < |s| ==> !Divides(s[i], v)
  {
    FirstTurnMembers(s, v);
    StruckMeans(s, v);
    if s[|s| - 1] < v {
      forall i | 0 <= i < |s|
        ensures IsProperMultiple(v, s[i]) <==> Divides(s[i], v)
      {
        assert i < |s| - 1 ==> s[i] < s[|s| - 1];
        ProperMultipleAbove(v, s[i]);
      }
    }
  }

  /** product + 1 is never flagged, so it is the last element of the first turn. */
  lemma FirstTurnLast(s: seq<int>)
    requires ValidBasis(s)
    ensures |FirstTurn(s)| > 0 && FirstTurn(s)[|FirstTurn(s)| - 1] == Product(s) + 1
  {
    ElementDividesProduct(s, |s| - 1);
    ProductSuccessorNotStruck(s);
    SurvivorsLast(s, s[|s| - 1] + 1, Product(s) + 2);
  }

  lemma ProductSuccessorNotStruck(s: seq<int>)
    requires ValidBasis(s)
    ensures !Struck(s, Product(s) + 1)
  {
    var p := Product(s);
    StruckMeans(s, p + 1);
    forall i | 0 <= i < |s|
      ensures !IsProperMultiple(p + 1, s[i])
    {
      ElementDividesProduct(s, i);
      SuccessorNotMultiple(p, s[i]);
    }
  }

  /** The successor of a multiple of d >= 2 is not a multiple of d. */
  lemma SuccessorNotMultiple(p: int, d: int)
    requires d >= 2 && Divides(d, p)
    ensures (p + 1) % d != 0
  {
    DivModUnique(p + 1, d, p / d, 1);
  }

  /** An unflagged upper end is the last survivor. */
  lemma SurvivorsLast(s: seq<int>, lo: int, hi: int)
    requires lo < hi && !Struck(s, hi - 1)
    ensures Survivors(s, lo, hi) == Survivors(s, lo, hi - 1) + [hi - 1]
  {
  }

  /**
   * When the basis is exactly the first primes, a composite in the first
   * turn has no prime factor in the basis, so it exceeds the square of the
   * last basis element.
   */
  lemma FirstTurnCompositeAboveSquare(s: seq<int>, v: int)
    requires ValidBasis(s) && FirstPrimes(s)
    requires v in FirstTurn(s) && !IsPrime(v)
    ensures v > s[|s| - 1] * s[|s| - 1]
  {
    var last := s[|s| - 1];
    FirstTurnMembers(s, v);
    CompositeHasSmallFactor(v);
    var d :| 2 <= d && d * d <= v && Divides(d, v);
    var p := PrimeFactor(d);
    DividesTransitive(p, d, v);
    FirstTurnPrimeFactor(s, v, p);
    SquareBelow(last, d, v);
  }

  lemma SquareBelow(a: int, d: int, v: int)
    requires 0 <= a < d && d * d <= v
    ensures v > a * a
  {
    MulMonotone(a, d, a);
    MulMonotone(a, d, d);
  }

  /** A prime factor of a first-turn value lies above the basis when the basis is the first primes. */
  lemma FirstTurnPrimeFactor(s: seq<int>, v: int, p: int)
    requires FirstPrimes(s) && |s| > 0
    requires s[|s| - 1] < v && !Struck(s, v)
    requires IsPrime(p) && Divides(p, v)
    ensures p > s[|s| - 1]
  {
    if p <= s[|s| - 1] {
      assert p in s;
      var i :| 0 <= i < |s| && s[i] == p;
      ProperMultipleAbove(v, p);
      StruckMeans(s, v);
    }
  }

  /** Every integer above 1 has a prime factor. */
  lemma PrimeFactor(d: int) returns (p: int)
    requires d >= 2
    ensures IsPrime(p) && p <= d && Divides(p, d)
    decreases d
  {
    if IsPrime(d) {
      p := d;
      assert d % d == 0;
    } else {
      var e :| 2 <= e < d && Divides(e, d);
      p := PrimeFactor(e);
      DividesTransitive(p, e, d);
    }
  }

  // ---------------------------------------------------------------------
  // Concrete bases

  const DefaultBasis: seq<int> := [2, 3, 5]

  lemma DefaultBasisValid()
    ensures Product(DefaultBasis) == 30
    ensures ValidBasis(DefaultBasis) && StrictlyIncreasing(DefaultBasis)
  {
    assert DefaultBasis[..2] == [2, 3];
    assert [2, 3][..1] == [2];
    assert [2][..0] == [];
  }

  /** The flags of the default basis are its three marking loops. */
  lemma DefaultStruck(k: int)
    ensures Struck(DefaultBasis, k) <==>
      IsProperMultiple(k, 2) || IsProperMultiple(k, 3) || IsProperMultiple(k, 5)
  {
    assert DefaultBasis[..2] == [2, 3];
    assert [2, 3][..1] == [2];
    assert [2][..0] == [];
  }

  /** The first turn of the default basis [2, 3, 5]. */
  lemma DefaultFirstTurn()
    ensures FirstTurn(DefaultBasis) == [7, 11, 13, 17, 19, 23, 29, 31]
  {
    DefaultBasisValid();
    DefaultSurvivorsBelow20();
    var s := DefaultBasis;
    forall k | 20 <= k < 32
      ensures Struck(s, k) <==> k % 2 == 0 || k % 3 == 0 || k % 5 == 0
    {
      DefaultStruck(k);
    }
    assert Survivors(s, 6, 22) == [7, 11, 13, 17, 19];
    assert Survivors(s, 6, 24) == [7, 11, 13, 17, 19, 23];
    assert Survivors(s, 6, 26) == [7, 11, 13, 17, 19, 23];
    assert Survivors(s, 6, 28) == [7, 11, 13, 17, 19, 23];
    assert Survivors(s, 6, 30) == [7, 11, 13, 17, 19, 23, 29];
    assert Survivors(s, 6, 32) == [7, 11, 13, 17, 19, 23, 29, 31];
  }

  lemma DefaultSurvivorsBelow20()
    ensures Survivors(DefaultBasis, 6, 20) == [7, 11, 13, 17, 19]
  {
    var s := DefaultBasis;
    forall k | 6 <= k < 20
      ensures Struck(s, k) <==> k % 2 == 0 || k % 3 == 0 || k % 5 == 0
    {
      DefaultStruck(k);
    }
    assert Survivors(s, 6, 6) == [];
    assert Survivors(s, 6, 8) == [7];
    assert Survivors(s, 6, 10) == [7];
    assert Survivors(s, 6, 12) == [7, 11];
    assert Survivors(s, 6, 14) == [7, 11, 13];
    assert Survivors(s, 6, 16) == [7, 11, 13];
    assert Survivors(s, 6, 18) == [7, 11, 13, 17];
    assert Survivors(s, 6, 20) == [7, 11, 13, 17, 19];
  }

  /** With the default basis, ranks 0 to 10 are served with the first eleven primes. */
  lemma DefaultRanksArePrimes()
    ensures FirstPrimes(DefaultBasis + FirstTurn(DefaultBasis))
  {
    DefaultFirstTurn();
    PrimesUpTo37();
    PrefixOfPrimesUpTo(37, 11);
    assert PrimesUpTo(37)[..11] == DefaultBasis + FirstTurn(DefaultBasis);
  }

  /**
   * For the basis [2, 3, 5, 7] the first turn holds the composite 121 = 11 * 11,
   * which the rank dispatch would then serve as a prime.
   */
  lemma FirstTurnMayHoldComposite()
    ensures ValidBasis([2, 3, 5, 7])
    ensures 121 in FirstTurn([2, 3, 5, 7]) && !IsPrime(121)
  {
    var s := [2, 3, 5, 7];
    assert s[..3] == [2, 3, 5];
    DefaultBasisValid();
    assert Product(s) == 210;
    FirstTurnCoprime(s, 121);
    NotPrimeWitness(121, 11);
  }

  // ---------------------------------------------------------------------
  // The computation

  /** Stepping from the multiple m * p to the next one flags exactly m * p. */
  lemma MarkStep(k: int, p: int, m: int)
    requires p > 0 && m >= 2
    ensures (IsProperMultiple(k, p) && k < m * p + p) <==>
      ((IsProperMultiple(k, p) && k < m * p) || k == m * p)
  {
    MulMonotone(2, m, p);
    MultipleDivides(p, m);
    if IsProperMultiple(k, p) && m * p <= k < m * p + p {
      DivModUnique(k, p, m, k - m * p);
    }
  }

  /**
   * The first turn of the given basis (WheelFactorizationSieve.cs:83-111):
   * multiply the basis, flag the proper multiples of every basis element
   * in [0, product + 1], and collect the unflagged values above the last
   * basis element.
   */
  method FindPrimesInFirstTurn(basis: array<int>) returns (primesFirstTurn: array<int>)
    requires ValidBasis(basis[..])
    ensures primesFirstTurn[..] == FirstTurn(basis[..])
  {
    var basisLeastCommonMultiple := basis[0];
    assert basis[..1][..0] == [];
    for i := 1 to basis.Length
      invariant basisLeastCommonMultiple == Product(basis[..i])
    {
      assert basis[..i + 1][..i] == basis[..i];
      basisLeastCommonMultiple := basisLeastCommonMultiple * basis[i];
    }
    assert basis[..basis.Length] == basis[..];
    ProductPositive(basis[..]);

    var compositeFlags := new bool[basisLeastCommonMultiple + 2](_ => false);
    for i := 0 to basis.Length
      invariant forall k :: 0 <= k < compositeFlags.Length ==> compositeFlags[k] == Struck(basis[..i], k)
    {
      var prime := basis[i];
      var j := prime * 2;
      ghost var m := 2;
      while j < compositeFlags.Length
        invariant m >= 2 && j == m * prime
        invariant forall k :: 0 <= k < compositeFlags.Length ==>
          compositeFlags[k] == (Struck(basis[..i], k) || (IsProperMultiple(k, prime) && k < j))
        decreases compositeFlags.Length - j
      {
        compositeFlags[j] := true;
        forall k | 0 <= k < compositeFlags.Length {
          MarkStep(k, prime, m);
        }
        j := j + prime;
        m := m + 1;
      }
      assert basis[..i + 1][..i] == basis[..i];
    }

    var found: seq<int> := [];
    var lo := basis[basis.Length - 1] + 1;
    var v := lo;
    while v < compositeFlags.Length
      invariant lo <= v <= Max(lo, compositeFlags.Length)
      invariant found == Survivors(basis[..], lo, v)
      decreases compositeFlags.Length - v
    {
      if !compositeFlags[v] {
        found := found + [v];
      }
      v := v + 1;
    }
    primesFirstTurn := new int[|found|](k => if 0 <= k < |found| then found[k] else 0);
  }

  /** The unfinished routine for the ranks after the first turn: it returns no primes. */
  method FindPrimesAfterFirstTurn(primeCount: int) returns (primes: array<int>)
    ensures primes.Length == 0
  {
    primes := new int[0];
  }

  class WheelFactorizationSieve {
    const basis: array<int>
    /** The first turn, empty until it is computed. */
    var primesFirstTurn: array<int>
    /** The primes after the first turn, as far as they are known. */
    var primesAfterFirstTurn: array<int>
    /** The prime counts requested from the after-first-turn routine so far. */
    ghost var requested: seq<int>

    ghost predicate Valid()
      reads this, basis, primesFirstTurn, primesAfterFirstTurn
    {
      ValidBasis(basis[..]) &&
      (primesFirstTurn.Length == 0 || primesFirstTurn[..] == FirstTurn(basis[..])) &&
      primesAfterFirstTurn.Length == 0
    }

    constructor (basis: array<int>)
      requires ValidBasis(basis[..])
      ensures Valid() && this.basis == basis
      ensures primesFirstTurn.Length == 0 && requested == []
    {
      this.basis := basis;
      primesFirstTurn := new int[0];
      primesAfterFirstTurn := new int[0];
      requested := [];
    }

    /**
     * Construction with an optional basis, [2, 3, 5] by default, and a largest
     * expected rank maxN, negative for none (WheelFactorizationSieve.cs:18-49).
     * An empty basis is rejected; a non-negative maxN is validated, then the
     * first turn is computed if maxN reaches past the basis and the
     * after-first-turn routine is asked for maxN + 1 primes if maxN reaches
     * past the first turn too.
     */
    static method Create(basis: Option<array<int>>, maxN: Long) returns (r: Result<WheelFactorizationSieve>)
      requires basis.Some? ==> basis.value.Length == 0 || ValidBasis(basis.value[..])
      ensures basis.Some? && basis.value.Length == 0 ==> r == Err(EmptyBasis)
      ensures basis.Some? && basis.value.Length > 0 && r.Ok? ==> r.value.basis == basis.value
      ensures basis.None? && r.Ok? ==> r.value.basis[..] == DefaultBasis
      ensures !(basis.Some? && basis.value.Length == 0) ==>
        (r.Ok? <==> maxN < 0 || ValidateN(maxN).Pass?) &&
        (r.Err? ==> r.error == OutOfRange)
      ensures r.Ok? ==> fresh(r.value) && r.value.Valid()
      ensures r.Ok? ==>
        var w := r.value;
        var ft := FirstTurn(w.basis[..]);
        (maxN < w.basis.Length ==> w.primesFirstTurn.Length == 0) &&
        (maxN >= w.basis.Length ==> w.primesFirstTurn[..] == ft) &&
        w.requested == (if maxN >= w.basis.Length + |ft| then [maxN + 1] else [])
    {
      if basis.Some? && basis.value.Length == 0 {
        return Err(EmptyBasis);
      }
      var b: array<int>;
      if basis.Some? {
        b := basis.value;
      } else {
        b := new int[] [2, 3, 5];
        DefaultBasisValid();
        assert b[..] == DefaultBasis;
      }
      var w := new WheelFactorizationSieve(b);
      if maxN < 0 {
        // Wait until first use to populate primes.
        return Ok(w);
      }
      var valid := ValidateN(maxN);
      if valid.Fail? {
        return Err(valid.error);
      }
      if maxN < w.basis.Length {
        return Ok(w);
      }
      w.primesFirstTurn := FindPrimesInFirstTurn(w.basis);
      if maxN < w.basis.Length + w.primesFirstTurn.Length {
        return Ok(w);
      }
      w.primesAfterFirstTurn := FindPrimesAfterFirstTurn(maxN + 1);
      w.requested := [maxN + 1];
      return Ok(w);
    }

    /**
     * The prime of 0-based rank n (WheelFactorizationSieve.cs:51-81): from
     * the basis, then from the first turn (computed on first need), and
     * otherwise from the after-first-turn array, which is always empty, so
     * that such ranks end in an index-out-of-range error.
     */
    method NthPrime(n: Long) returns (r: Result<int>)
      requires Valid()
      modifies this
      ensures Valid()
      ensures old(primesFirstTurn.Length) > 0 ==> primesFirstTurn == old(primesFirstTurn)
      ensures ValidateN(n).Fail? ==> r == Err(OutOfRange) && unchanged(this)
      ensures ValidateN(n).Pass? && n < basis.Length ==> r == Ok(basis[n]) && unchanged(this)
      ensures ValidateN(n).Pass? && n >= basis.Length ==>
        var ft := FirstTurn(basis[..]);
        primesFirstTurn[..] == ft &&
        (n - basis.Length < |ft| ==> r == Ok(ft[n - basis.Length]) && requested == old(requested)) &&
        (n - basis.Length >= |ft| ==>
          r == Err(IndexOutOfRange) &&
          requested == old(requested) + [Max(n + 1, 2 * (basis.Length + |ft|))])
    {
      var valid := ValidateN(n);
      if valid.Fail? {
        return Err(valid.error);
      }
      if n < basis.Length {
        return Ok(basis[n]);
      }
      if primesFirstTurn.Length == 0 {
        primesFirstTurn := FindPrimesInFirstTurn(basis);
      }
      var adjustedN := n - basis.Length;
      if adjustedN < primesFirstTurn.Length {
        return Ok(primesFirstTurn[adjustedN]);
      }
      adjustedN := adjustedN - primesFirstTurn.Length;
      if adjustedN >= primesAfterFirstTurn.Length {
        // Double the known count so that increasing consecutive ranks
        // regenerate only logarithmically often.
        var primeCount := Max(n + 1, (basis.Length + primesFirstTurn.Length + primesAfterFirstTurn.Length) * 2);
        primesAfterFirstTurn := FindPrimesAfterFirstTurn(primeCount);
        requested := requested + [primeCount];
      }
      // The after-first-turn array is empty, so every such rank is out of range.
      return Err(IndexOutOfRange);
    }
  }
}
