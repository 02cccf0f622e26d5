/**
 * The number theory the sieves are specified against: divisibility,
 * primality, the increasing list of primes up to a bound, and the notion of a
 * sequence holding exactly the first primes in order (the prime at 0-based
 * rank n is then its element n).
 */
module Primes {

  /** d is a positive divisor of v. */
  predicate Divides(d: int, v: int)
  {
    d > 0 && v % d == 0
  }

  ghost predicate IsPrime(p: int)
  {
    p >= 2 && forall d :: 2 <= d < p ==> !Divides(d, p)
  }

  /** A checkable primality test: no divisor e of p with d <= e and e * e <= p. */
  predicate NoDivisorUpToRoot(p: int, d: int)
    requires d >= 1
    decreases p - d
  {
    assert d * d <= p ==> d <= p;
    d * d > p || (!Divides(d, p) && NoDivisorUpToRoot(p, d + 1))
  }

  predicate StrictlyIncreasing(s: seq<int>)
  {
    forall i, j :: 0 <= i < j < |s| ==> s[i] < s[j]
  }

  /** The primes p with 2 <= p <= b, in increasing order. */
  ghost function PrimesUpTo(b: int): seq<int>
    decreases b
  {
    if b < 2 then [] else PrimesUpTo(b - 1) + (if IsPrime(b) then [b] else [])
  }

  /** s holds the first |s| primes in increasing order, so s[n] is the prime of rank n. */
  ghost predicate FirstPrimes(s: seq<int>)
  {
    StrictlyIncreasing(s) &&
    (forall i :: 0 <= i < |s| ==> IsPrime(s[i])) &&
    (forall p :: IsPrime(p) && |s| > 0 && p <= s[|s| - 1] ==> p in s)
  }

  // ---------------------------------------------------------------------
  // Arithmetic helpers

  /** Euclidean division is determined by quotient and remainder. */
  lemma DivModUnique(x: int, p: int, q: int, r: int)
    requires p > 0 && 0 <= r < p && x == q * p + r
    ensures x / p == q && x % p == r
  {
    var k := q - x / p;
    assert k * p == x % p - r;
    assert k >= 1 ==> k * p >= p;
    assert k <= -1 ==> k * p <= -p;
  }

  lemma MultipleDivides(d: int, q: int)
    requires d > 0
    ensures Divides(d, q * d)
  {
    DivModUnique(q * d, d, q, 0);
  }

  lemma DividesTransitive(d: int, w: int, v: int)
    requires Divides(d, w) && Divides(w, v)
    ensures Divides(d, v)
  {
    var a, b := v / w, w / d;
    assert v == a * w;
    assert w == b * d;
    assert v == (a * b) * d;
    MultipleDivides(d, a * b);
  }

  lemma OddNotDivisibleByEven(e: int, v: int)
    requires v % 2 == 1 && e > 0 && e % 2 == 0
    ensures !Divides(e, v)
  {
    if Divides(e, v) {
      var q, h := v / e, e / 2;
      assert e == 2 * h;
      assert v == q * e;
      assert v == (q * h) * 2;
      DivModUnique(v, 2, q * h, 0);
      assert false;
    }
  }

  // ---------------------------------------------------------------------
  // Primality

  lemma {:induction false} NoDivisorUpToRootMeans(p: int, d: int)
    requires d >= 1
    ensures NoDivisorUpToRoot(p, d) <==> forall e :: d <= e && e * e <= p ==> !Divides(e, p)
    decreases p - d
  {
    assert d * d <= p ==> d <= p;
    assert forall e :: d < e ==> d * d < e * e;
    if d * d <= p {
      NoDivisorUpToRootMeans(p, d + 1);
    }
  }

  lemma MulMonotone(a: int, b: int, c: int)
    requires c >= 0
    ensures a <= b ==> a * c <= b * c
  {
    assert b * c - a * c == (b - a) * c;
  }

  /** A number above 1 that is not prime has a divisor d >= 2 with d * d <= x. */
  lemma CompositeHasSmallFactor(x: int)
    requires x >= 2 && !IsPrime(x)
    ensures exists d :: 2 <= d && d * d <= x && Divides(d, x)
  {
    var e :| 2 <= e < x && Divides(e, x);
    var f := x / e;
    assert x == f * e;
    MulMonotone(f, 1, e);
    assert f >= 2;
    MultipleDivides(f, e);
    assert Divides(f, x);
    if e <= f {
      MulMonotone(e, f, e);
      assert 2 <= e && e * e <= x && Divides(e, x);
    } else {
      MulMonotone(f, e, f);
      assert 2 <= f && f * f <= x && Divides(f, x);
    }
  }

  /** A divisor d >= 2 with d * d <= x shows that x is not prime. */
  lemma SmallFactorNotPrime(x: int, d: int)
    requires 2 <= d && d * d <= x && Divides(d, x)
    ensures !IsPrime(x)
  {
    assert d < d * d;
  }

  /** The checkable test decides primality. */
  lemma PrimeTest(p: int)
    ensures IsPrime(p) <==> p >= 2 && NoDivisorUpToRoot(p, 2)
  {
    NoDivisorUpToRootMeans(p, 2);
    if p >= 2 && !IsPrime(p) {
      CompositeHasSmallFactor(p);
    }
    if p >= 2 && !NoDivisorUpToRoot(p, 2) {
      var d :| 2 <= d && d * d <= p && Divides(d, p);
      SmallFactorNotPrime(p, d);
    }
  }

  lemma NotPrimeWitness(p: int, d: int)
    requires 2 <= d < p && Divides(d, p)
    ensures !IsPrime(p)
  {
  }

  /** An even number above 2 is not prime. */
  lemma EvenNotPrime(v: int)
    requires v >= 4 && v % 2 == 0
    ensures !IsPrime(v)
  {
    assert Divides(2, v);
  }

  // ---------------------------------------------------------------------
  // The list of primes up to a bound

  lemma {:induction false} PrimesUpToExact(b: int)
    ensures StrictlyIncreasing(PrimesUpTo(b))
    ensures forall p :: p in PrimesUpTo(b) <==> IsPrime(p) && p <= b
    decreases b
  {
    if b >= 2 {
      PrimesUpToExact(b - 1);
      var s := PrimesUpTo(b - 1);
      forall i | 0 <= i < |s|
        ensures s[i] < b
      {
        assert s[i] in s;
      }
      var t := s + (if IsPrime(b) then [b] else []);
      assert PrimesUpTo(b) == t;
      forall i, j | 0 <= i < j < |t|
        ensures t[i] < t[j]
      {
        assert t[i] == s[i];
      }
      forall p
        ensures p in t <==> IsPrime(p) && p <= b
      {
        assert p in t <==> p in s || (IsPrime(b) && p == b);
      }
    }
  }

  lemma {:induction false} PrimesUpToPrefix(a: int, c: int)
    requires a <= c
    ensures PrimesUpTo(a) <= PrimesUpTo(c)
    decreases c - a
  {
    if a < c {
      PrimesUpToPrefix(a, c - 1);
    }
  }

  /** Stretching the bound across a non-prime adds nothing. */
  lemma PrimesUpToSkip(b: int)
    requires !IsPrime(b + 1)
    ensures PrimesUpTo(b + 1) == PrimesUpTo(b)
  {
  }

  /** Every prefix of the primes up to a bound lists the first primes. */
  lemma PrefixOfPrimesUpTo(b: int, k: nat)
    requires k <= |PrimesUpTo(b)|
    ensures FirstPrimes(PrimesUpTo(b)[..k])
  {
    var s := PrimesUpTo(b);
    var t := s[..k];
    PrimesUpToExact(b);
    forall i | 0 <= i < |t|
      ensures IsPrime(t[i])
    {
      assert t[i] == s[i] && s[i] in s;
    }
    forall p | IsPrime(p) && |t| > 0 && p <= t[|t| - 1]
      ensures p in t
    {
      assert t[|t| - 1] in s;
      assert p in s;
      var u :| 0 <= u < |s| && s[u] == p;
      assert forall w :: k <= w < |s| ==> s[k - 1] < s[w];
      assert t[u] == p;
    }
  }

  lemma FirstPrimesAgreeAt(s: seq<int>, t: seq<int>, i: nat)
    requires FirstPrimes(s) && FirstPrimes(t) && i < |s| <= |t|
    requires forall j :: 0 <= j < i ==> s[j] == t[j]
    ensures s[i] == t[i]
  {
    assert forall u :: 0 <= u < i ==> s[u] < s[i] && t[u] < t[i];
    if t[i] <= s[|s| - 1] {
      assert t[i] in s;
      var u :| 0 <= u < |s| && s[u] == t[i];
      assert s[i] <= s[u];
    }
    assert s[i] <= t[i] <= t[|t| - 1];
    assert s[i] in t;
    var u :| 0 <= u < |t| && t[u] == s[i];
    assert t[i] <= t[u];
  }

  lemma {:induction false} FirstPrimesAgreeBelow(s: seq<int>, t: seq<int>, i: nat)
    requires FirstPrimes(s) && FirstPrimes(t) && i <= |s| <= |t|
    ensures forall j :: 0 <= j < i ==> s[j] == t[j]
  {
    if i > 0 {
      FirstPrimesAgreeBelow(s, t, i - 1);
      FirstPrimesAgreeAt(s, t, i - 1);
    }
  }

  /**
   * The first primes are unique: of two such lists the shorter is a prefix of
   * the longer, so the value at a rank does not depend on which list holds it.
   */
  lemma FirstPrimesUnique(s: seq<int>, t: seq<int>)
    requires FirstPrimes(s) && FirstPrimes(t) && |s| <= |t|
    ensures s == t[..|s|]
  {
    FirstPrimesAgreeBelow(s, t, |s|);
  }

  /** A prefix of the first primes lists the first primes. */
  lemma FirstPrimesPrefix(s: seq<int>, k: nat)
    requires FirstPrimes(s) && k <= |s|
    ensures FirstPrimes(s[..k])
  {
    var t := s[..k];
    forall p | IsPrime(p) && |t| > 0 && p <= t[|t| - 1]
      ensures p in t
    {
      assert p in s;
      var u :| 0 <= u < |s| && s[u] == p;
      assert forall w :: k <= w < |s| ==> s[k - 1] < s[w];
      assert t[u] == p;
    }
  }

  /**
   * Element n of a list of first primes is the prime of rank n: it is prime
   * and exactly n + 1 primes lie at or below it.
   */
  lemma RankOfFirstPrimes(s: seq<int>, n: nat)
    requires FirstPrimes(s) && n < |s|
    ensures IsPrime(s[n]) && |PrimesUpTo(s[n])| == n + 1
  {
    var t := PrimesUpTo(s[n]);
    var u := s[..n + 1];
    FirstPrimesPrefix(s, n + 1);
    PrefixOfPrimesUpTo(s[n], |t|);
    assert t[..|t|] == t;
    assert t[|t| - 1] == u[n];
    forall i | 0 <= i < |t| && i < |u|
      ensures t[i] == u[i]
    {
      FirstPrimesAgree(t, u, i);
    }
  }

  /** Two lists of first primes agree at every rank both hold. */
  lemma FirstPrimesAgree(s: seq<int>, t: seq<int>, n: nat)
    requires FirstPrimes(s) && FirstPrimes(t) && n < |s| && n < |t|
    ensures s[n] == t[n]
  {
    if |s| <= |t| {
      FirstPrimesUnique(s, t);
    } else {
      FirstPrimesUnique(t, s);
    }
  }

  lemma PrimesUpTo11()
    ensures PrimesUpTo(11) == [2, 3, 5, 7, 11]
  {
    PrimeTest(2);
    PrimeTest(3);
    NotPrimeWitness(4, 2);
    PrimeTest(5);
    NotPrimeWitness(6, 2);
    PrimeTest(7);
    NotPrimeWitness(8, 2);
    NotPrimeWitness(9, 3);
    NotPrimeWitness(10, 2);
    PrimeTest(11);
  }

  lemma PrimesUpTo23()
    ensures PrimesUpTo(23) == [2, 3, 5, 7, 11, 13, 17, 19, 23]
  {
    PrimesUpTo11();
    NotPrimeWitness(12, 2);
    PrimeTest(13);
    NotPrimeWitness(14, 2);
    NotPrimeWitness(15, 3);
    NotPrimeWitness(16, 2);
    PrimeTest(17);
    NotPrimeWitness(18, 2);
    PrimeTest(19);
    NotPrimeWitness(20, 2);
    NotPrimeWitness(21, 3);
    NotPrimeWitness(22, 2);
    PrimeTest(23);
  }

  lemma PrimesUpTo29()
    ensures PrimesUpTo(29) == [2, 3, 5, 7, 11, 13, 17, 19, 23, 29]
  {
    PrimesUpTo23();
    NotPrimeWitness(24, 2);
    NotPrimeWitness(25, 5);
    NotPrimeWitness(26, 2);
    NotPrimeWitness(27, 3);
    NotPrimeWitness(28, 2);
    PrimeTest(29);
  }

  /** The first twelve primes are exactly the primes up to 37. */
  lemma PrimesUpTo37()
    ensures PrimesUpTo(37) == [2, 3, 5, 7, 11, 13, 17, 19, 23, 29, 31, 37]
  {
    PrimesUpTo29();
    NotPrimeWitness(30, 2);
    PrimeTest(31);
    NotPrimeWitness(32, 2);
    NotPrimeWitness(33, 3);
    NotPrimeWitness(34, 2);
    NotPrimeWitness(35, 5);
    NotPrimeWitness(36, 2);
    PrimeTest(37);
  }
}
