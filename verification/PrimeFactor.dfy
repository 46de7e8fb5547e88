/** The largest prime factor of a 32-bit word by trial division, wrap-around of i * i included. */
module PrimeFactor {
  import opened Arithmetic
  import opened Words

  predicate Divides(d: nat, n: nat) { d != 0 && n % d == 0 }

  ghost predicate IsPrime(p: nat) { 2 <= p && forall d: nat :: 2 <= d < p ==> !Divides(d, p) }

  /** p is the largest prime factor of n; 1 stands for "none" and belongs to n == 1. */
  ghost predicate IsLargestPrimeFactor(p: nat, n: nat) {
    if n == 1 then p == 1
    else IsPrime(p) && Divides(p, n) && forall q: nat :: IsPrime(q) && Divides(q, n) ==> q <= p
  }

  // ----- divisibility -----

  lemma DividesProduct(d: nat, k: nat)
    requires d > 0
    ensures Divides(d, d * k) && d * k / d == k
  {
  }

  lemma DividesWitness(d: nat, n: nat)
    requires Divides(d, n)
    ensures n == d * (n / d)
  {
  }

  lemma DividesTransitive(a: nat, b: nat, c: nat)
    requires Divides(a, b) && Divides(b, c)
    ensures Divides(a, c)
  {
    var k, m := b / a, c / b;
    assert c == b * m == a * k * m == a * (k * m);
    DividesProduct(a, k * m);
  }

  lemma DividesBound(d: nat, n: nat)
    requires Divides(d, n) && n > 0
    ensures d <= n && 1 <= n / d <= n && (d >= 2 ==> n / d < n)
  {
    DividesWitness(d, n);
    var k := n / d;
    assert k != 0;
    MulMonotone(1, k, d);
    MulMonotone(1, d, k);
    if d >= 2 {
      MulMonotone(2, d, k);
    }
  }

  lemma DividesSum(d: nat, a: nat, b: nat)
    requires Divides(d, a) && Divides(d, b)
    ensures Divides(d, a + b)
  {
    DividesWitness(d, a);
    DividesWitness(d, b);
    assert a + b == d * (a / d + b / d);
    DividesProduct(d, a / d + b / d);
  }

  lemma DividesDifference(d: nat, a: nat, b: nat)
    requires Divides(d, a) && Divides(d, b) && b <= a
    ensures Divides(d, a - b)
  {
    DividesWitness(d, a);
    DividesWitness(d, b);
    var j, k := a / d, b / d;
    if j < k {
      MulMonotone(j + 1, k, d);
    }
    assert a - b == d * (j - k);
    DividesProduct(d, j - k);
  }

  /** A prime that divides a product divides a factor. */
  lemma {:induction false} Euclid(p: nat, a: nat, b: nat)
    requires IsPrime(p) && Divides(p, a * b)
    ensures Divides(p, a) || Divides(p, b)
    decreases a
  {
    if a >= p {
      SubtractFactor(p, a, b);
      Euclid(p, a - p, b);
      if Divides(p, a - p) {
        DividesProduct(p, 1);
        DividesSum(p, a - p, p);
      }
    } else if a >= 2 {
      TakeRemainder(p, a, b);
      Euclid(p, p % a, b);
      if Divides(p, p % a) {
        DividesBound(p, p % a);
      }
    } else if a == 0 {
      assert Divides(p, 0);
    }
  }

  lemma SubtractFactor(p: nat, a: nat, b: nat)
    requires p > 0 && a >= p && Divides(p, a * b)
    ensures Divides(p, (a - p) * b)
  {
    assert (a - p) * b == a * b - p * b;
    DividesProduct(p, b);
    MulMonotone(p, a, b);
    DividesDifference(p, a * b, p * b);
  }

  lemma TakeRemainder(p: nat, a: nat, b: nat)
    requires IsPrime(p) && 2 <= a < p && Divides(p, a * b)
    ensures 0 < p % a < a && Divides(p, (p % a) * b)
  {
    var k, r := p / a, p % a;
    assert !Divides(a, p);
    assert p == a * k + r;
    assert r * b == p * b - (a * b) * k by {
      assert p * b == (a * k) * b + r * b;
      assert (a * k) * b == (a * b) * k;
    }
    DividesProduct(p, b);
    if a * b > 0 {
      DividesProduct(a * b, k);
      DividesTransitive(p, a * b, (a * b) * k);
    } else {
      assert (a * b) * k == 0;
    }
    DividesDifference(p, p * b, (a * b) * k);
  }

  /** A number without a divisor below i is 1 or prime when it is below i * i. */
  lemma NoSmallDivisor(n: nat, i: nat)
    requires 2 <= i && 1 <= n < i * i
    requires forall d: nat :: 2 <= d < i ==> !Divides(d, n)
    ensures n == 1 || IsPrime(n)
  {
    if n != 1 && !IsPrime(n) {
      var d :| 2 <= d < n && Divides(d, n);
      var e := n / d;
      DividesWitness(d, n);
      DividesBound(d, n);
      assert e != 1;
      assert n == e * d;
      DividesProduct(e, d);
      assert d >= i && e >= i;
      MulMonotone(i, d, i);
      MulMonotone(i, e, d);
    }
  }

  // ----- the loop -----

  /** The trial divisor i is prime when it divides what is left. */
  lemma SmallestDivisorIsPrime(n: nat, i: nat)
    requires 2 <= i && Divides(i, n)
    requires forall d: nat :: 2 <= d < i ==> !Divides(d, n)
    ensures IsPrime(i)
  {
    forall d: nat | 2 <= d < i
      ensures !Divides(d, i)
    {
      if Divides(d, i) {
        DividesTransitive(d, i, n);
      }
    }
  }

  /** n and the factors seen so far still account for every prime factor of whole. */
  ghost predicate Accounts(whole: nat, n: nat, seen: nat) {
    forall q: nat :: IsPrime(q) && Divides(q, whole) ==> q <= seen || Divides(q, n)
  }

  lemma AccountsAfterDivision(whole: nat, n: nat, i: nat)
    requires n > 0 && IsPrime(i) && Divides(i, n) && Accounts(whole, n, i)
    ensures 1 <= n / i < n && Divides(n / i, n) && Accounts(whole, n / i, i)
  {
    DividesWitness(i, n);
    DividesBound(i, n);
    forall q: nat | IsPrime(q) && Divides(q, whole)
      ensures q <= i || Divides(q, n / i)
    {
      if q > i {
        Euclid(q, i, n / i);
        if Divides(q, i) {
          DividesBound(q, i);
        }
      }
    }
    assert n == (n / i) * i;
    DividesProduct(n / i, i);
  }

  /** Dividing out a prime keeps the account. */
  method DivideOut(n0: nat, i: nat, ghost whole: nat, ghost seen: nat) returns (n: nat)
    requires n0 > 0 && IsPrime(i) && Divides(i, n0) && seen < i
    requires Accounts(whole, n0, seen)
    ensures 1 <= n < n0 && Divides(n, n0) && !Divides(i, n) && Accounts(whole, n, i)
  {
    n := n0;
    DividesProduct(n0, 1);
    assert Accounts(whole, n, i);
    while n % i == 0
      invariant 1 <= n <= n0 && Divides(n, n0) && (n == n0 || n < n0)
      invariant Accounts(whole, n, i)
      invariant n < n0 || n % i == 0
      decreases n
    {
      hide Accounts, IsPrime;
      AccountsAfterDivision(whole, n, i);
      DividesTransitive(n / i, n, n0);
      n := n / i;
    }
  }

  /** i * i in 32 bits: above 0xFFFF it wraps, and the loop test means little. */
  function SquareWrapped(i: nat): nat { i * i % 0x1_0000_0000 }

  /** A trial divisor whose wrapped square, 2^32 - 7, is nearly the largest word. */
  const PEAK: nat := 479772853

  lemma PeakSquare()
    ensures SquareWrapped(PEAK) == 0xFFFF_FFF9 && SquareWrapped(0xFFFF) == 0xFFFE_0001
  {
    assert PEAK * PEAK == 53593420 * 0x1_0000_0000 + 0xFFFF_FFF9;
  }

  lemma SquareBounds(i: nat)
    ensures i <= 0xFFFF ==> SquareWrapped(i) == i * i <= 0xFFFE_0001
    ensures i >= 0x1_0000 ==> i * i >= 0x1_0000_0000
  {
    if i <= 0xFFFF {
      MulMonotone(i, 0xFFFF, i);
      MulMonotone(i, 0xFFFF, 0xFFFF);
    } else {
      MulMonotone(0x1_0000, i, i);
      MulMonotone(0x1_0000, i, 0x1_0000);
    }
  }

  /** Near the top of the word the wrapped square counts down from 36 to 0. */
  lemma TopSquares(i: nat)
    requires 0xFFFF_FFFA <= i <= 0xFFFF_FFFE
    ensures SquareWrapped(i) > 1
  {
    var k := 0x1_0000_0000 - i;
    assert i * i == (0x1_0000_0000 - 2 * k) * 0x1_0000_0000 + k * k;
    assert k == 2 || k == 3 || k == 4 || k == 5 || k == 6;
  }

  /** No divisor of n lies in [2, i). */
  ghost predicate Sifted(n: nat, i: nat) { forall d: nat :: 2 <= d < i ==> !Divides(d, n) }

  /** What trial division by everything below i has established about the uint32 `whole`. */
  ghost predicate Trial(whole: nat, n: nat, seen: nat, i: nat) {
    && 2 <= i && 1 <= n <= whole <= 0xFFFF_FFFF && Divides(n, whole)
    && Sifted(n, i)
    && 1 <= seen < i && (seen == 1 || (IsPrime(seen) && Divides(seen, whole)))
    && Accounts(whole, n, seen)
    && (n == 1 ==> SquareWrapped(i) > 1)
    && (n > 1 ==> i <= n && (i > 0xFFFF ==> n >= 0xFFFE_0001) && (i > PEAK ==> n >= 0xFFFF_FFF9))
  }

  lemma TrialStart(whole: nat)
    requires 1 <= whole <= 0xFFFF_FFFF
    ensures Trial(whole, whole, 1, 2)
  {
    DividesProduct(whole, 1);
    assert SquareWrapped(2) == 4;
  }

  /** The divisor i leaves n alone: go on with i + 1. */
  lemma TrialMiss(whole: nat, n: nat, seen: nat, i: nat)
    requires Trial(whole, n, seen, i) && SquareWrapped(i) <= n && !Divides(i, n)
    ensures i < 0xFFFF_FFFF && Trial(whole, n, seen, i + 1)
  {
    PeakSquare();
    DividesProduct(n, 1);
    assert i != n;
  }

  /** The divisor i divides n and is divided out, leaving m. */
  lemma TrialHit(whole: nat, n: nat, seen: nat, i: nat, m: nat)
    requires Trial(whole, n, seen, i) && SquareWrapped(i) <= n && Divides(i, n)
    requires 1 <= m < n && Divides(m, n) && !Divides(i, m) && Divides(i, whole) && IsPrime(i) && Accounts(whole, m, i)
    ensures i < 0xFFFF_FFFF && Trial(whole, m, i, i + 1)
  {
    DividesTransitive(m, n, whole);
    SiftedDivisor(n, m, i);
    if m > 1 {
      DividesProduct(m, 1);
      assert m >= i + 1;
    }
    if i < 0xFFFF {
      SquareBounds(i + 1);
      MulMonotone(2, i + 1, i + 1);
    } else {
      LargeHit(n, i, m);
      SmallFactors(n, i);
      PeakSquare();
      if i < 0xFFFF_FFFF {
        TopSquares(i + 1);
      }
    }
  }

  lemma SiftedDivisor(n: nat, m: nat, i: nat)
    requires Sifted(n, i) && Divides(m, n) && m > 0 && !Divides(i, m)
    ensures Sifted(m, i + 1)
  {
    forall d: nat | 2 <= d < i + 1
      ensures !Divides(d, m)
    {
      if d < i && Divides(d, m) {
        DividesTransitive(d, m, n);
      }
    }
  }

  /** From 0xFFFF on, only n itself can still divide n. */
  lemma LargeHit(n: nat, i: nat, m: nat)
    requires 0xFFFF <= i && 2 <= n <= 0xFFFF_FFFF && Sifted(n, i) && Divides(i, n)
    requires 1 <= m < n && Divides(m, n) && !Divides(i, m)
    ensures i >= 0x1_0000 && n == i && m == 1
  {
    if i == 0xFFFF {
      assert Divides(3, 0xFFFF);
      DividesTransitive(3, 0xFFFF, n);
    }
    var e := n / i;
    DividesWitness(i, n);
    DividesBound(i, n);
    if e >= 2 {
      assert n == e * i;
      DividesProduct(e, i);
      MulMonotone(i, e, i);
      SquareBounds(i);
    }
    assert n == i * 1;
    assert !(2 <= m < i);
  }

  /** The two words right below 2^32 have small factors. */
  lemma SmallFactors(n: nat, i: nat)
    requires 4 <= i && Sifted(n, i)
    ensures n != 0xFFFF_FFFF && n != 0xFFFF_FFFE
  {
    assert !Divides(3, n) && !Divides(2, n);
    assert Divides(3, 0xFFFF_FFFF) && Divides(2, 0xFFFF_FFFE);
  }

  /** When the loop test fails, wrapped or not, what is left is 1 or prime. */
  lemma TrialEnd(whole: nat, n: nat, seen: nat, i: nat)
    requires Trial(whole, n, seen, i) && SquareWrapped(i) > n
    ensures n == 1 || (IsPrime(n) && n > seen)
    ensures IsLargestPrimeFactor(if n == 1 then seen else n, whole)
  {
    SquareBounds(i);
    NoSmallDivisor(n, i);
    if n == 1 {
      forall q: nat | IsPrime(q) && Divides(q, whole)
        ensures q <= seen
      {
        if Divides(q, 1) {
          DividesBound(q, 1);
        }
      }
      if seen == 1 && whole > 1 {
        HasPrimeFactor(whole);
      }
      if seen != 1 {
        DividesBound(seen, whole);
      }
    } else {
      forall q: nat | IsPrime(q) && Divides(q, whole)
        ensures q <= n
      {
        if Divides(q, n) {
          DividesBound(q, n);
        }
      }
      DividesBound(n, whole);
    }
  }

  lemma {:induction false} HasPrimeFactor(n: nat)
    requires n >= 2
    ensures exists q: nat :: IsPrime(q) && Divides(q, n)
  {
    if IsPrime(n) {
      DividesProduct(n, 1);
    } else {
      var d: nat :| 2 <= d < n && Divides(d, n);
      HasPrimeFactor(d);
      var q: nat :| IsPrime(q) && Divides(q, d);
      DividesTransitive(q, d, n);
    }
  }

  /** find_max_prime_factor, for every 32-bit word: the wrapped loop test costs time, never the answer. */
  method FindMaxPrimeFactor(whole: uint32) returns (maxPrimeFactor: uint32)
    ensures whole > 0 ==> IsLargestPrimeFactor(maxPrimeFactor, whole)
    ensures whole == 0 ==> maxPrimeFactor == 1
  {
    var n: nat := whole;
    maxPrimeFactor := 1;
    var i: nat := 2;
    if whole > 0 {
      TrialStart(whole);
    }
    while i * i % 0x1_0000_0000 <= n
      invariant whole == 0 ==> n == 0 && i == 2 && maxPrimeFactor == 1
      invariant whole > 0 ==> i <= 0xFFFF_FFFF && Trial(whole, n, maxPrimeFactor, i)
      decreases 0x1_0000_0000 - i
    {
      assert SquareWrapped(i) <= n;
      if n % i == 0 {
        SmallestDivisorIsPrime(n, i);
        DividesTransitive(i, n, whole);
        ghost var n0 := n;
        n := DivideOut(n, i, whole, maxPrimeFactor);
        TrialHit(whole, n0, maxPrimeFactor, i, n);
        if i > maxPrimeFactor {
          maxPrimeFactor := i;
        }
      } else {
        TrialMiss(whole, n, maxPrimeFactor, i);
      }
      i := i + 1;
    }
    if whole > 0 {
      assert SquareWrapped(i) > n;
      TrialEnd(whole, n, maxPrimeFactor, i);
    }
    if n != 1 && n > maxPrimeFactor {
      maxPrimeFactor := n;
    }
  }
}
