/** The primality oracle: a trial-division test and the mathematical
    definition it is proved against. */
module Primality {

  /** The definition: `n` is prime when it is at least 2 and nothing in
      [2, n-1] divides it. */
  predicate IsPrime(n: int)
  {
    n >= 2 && forall d :: 2 <= d < n ==> n % d != 0
  }

  /** Integer square root: the largest `r` with `r * r <= n`. Halving the
      argument twice per step keeps the recursion logarithmic. */
  function Isqrt(n: nat): (r: nat)
    ensures r * r <= n < (r + 1) * (r + 1)
    decreases n
  {
    if n < 4 then
      (if n == 0 then 0 else 1)
    else
      var h := Isqrt(n / 4);
      IsqrtStep(n, h);
      if (2 * h + 1) * (2 * h + 1) <= n then 2 * h + 1 else 2 * h
  }

  /** From the root of n/4, the root of n is 2h or 2h + 1. */
  lemma IsqrtStep(n: nat, h: nat)
    requires h * h <= n / 4 < (h + 1) * (h + 1)
    ensures (2 * h) * (2 * h) <= n < (2 * h + 2) * (2 * h + 2)
  {
    var q := n / 4;
    assert n == 4 * q + n % 4;
    assert (2 * h) * (2 * h) == 4 * (h * h);
    assert (2 * h + 2) * (2 * h + 2) == 4 * ((h + 1) * (h + 1));
    assert q + 1 <= (h + 1) * (h + 1);
  }

  /** Below n for every n >= 2, so the trial divisors stay proper. */
  lemma IsqrtBelow(n: int)
    requires n >= 2
    ensures Isqrt(n) < n
  {
    var r := Isqrt(n);
    if r >= 2 {
      MulMono(2, r, r, r);
    }
  }

  lemma MulMono(a: int, b: int, c: int, e: int)
    requires 0 <= a <= c && 0 <= b <= e
    ensures a * b <= c * e
  {
    assert a * b <= c * b;
    assert c * b <= c * e;
  }

  /** A nonzero multiple of q is at least q in magnitude. */
  lemma MulAwayFromZero(q: int, t: int)
    requires q > 0
    ensures t >= 1 ==> q * t >= q
    ensures t <= -1 ==> q * t <= -q
  {
    if t >= 1 {
      MulMono(q, 1, q, t);
    }
    if t <= -1 {
      MulMono(q, 1, q, -t);
    }
  }

  /** Euclidean division is determined by quotient and remainder. */
  lemma DivModUnique(m: int, q: int, k: int, r: int)
    requires q > 0 && m == q * k + r && 0 <= r < q
    ensures m / q == k && m % q == r
  {
    var t := k - m / q;
    assert q * t == m % q - r;
    MulAwayFromZero(q, t);
  }

  /** An even divisor of n makes n even. */
  lemma EvenDivisor(n: int, d: int)
    requires d > 0 && d % 2 == 0
    ensures n % d == 0 ==> n % 2 == 0
  {
    if n % d == 0 {
      var k := n / d;
      assert n == 2 * ((d / 2) * k);
    }
  }

  /** Two factors that both reach c have a product that reaches c * c. */
  lemma ProductReaches(a: int, b: int, c: int)
    requires c >= 0
    ensures a >= c && b >= c ==> a * b >= c * c
  {
    if a >= c && b >= c {
      MulMono(c, c, a, b);
    }
  }

  /** The partner `n / d` of a proper divisor `d` is itself a proper
      divisor, and it is at most the integer square root when `d` is not. */
  lemma Cofactor(n: int, d: int) returns (q: int)
    requires n >= 2 && 2 <= d < n && n % d == 0
    ensures q == n / d && 2 <= q && n % q == 0
    ensures d > Isqrt(n) ==> q <= Isqrt(n)
  {
    var r := Isqrt(n);
    q := n / d;
    assert n == d * q;
    MulAwayFromZero(d, 1 - q);
    assert q >= 2;
    ProductReaches(d, q, r + 1);
    DivModUnique(n, q, d, 0);
  }

  /** A proper divisor of `n` has a partner `n / d`, and one of the two is at
      most the integer square root of `n`; this returns that one. */
  lemma {:induction false} DivisorBelowRoot(n: int, d: int) returns (e: int)
    requires n >= 2 && 2 <= d < n && n % d == 0
    ensures 2 <= e <= Isqrt(n) && n % e == 0
  {
    var q := Cofactor(n, d);
    if d <= Isqrt(n) {
      e := d;
    } else {
      e := q;
    }
  }

  /** Trial division up to the integer square root decides primality:
      `n` is prime iff n >= 2 and nothing in [2, Isqrt(n)] divides it. */
  lemma PrimeIffNoDivisorUpToRoot(n: int)
    ensures IsPrime(n) <==> n >= 2 && forall e :: 2 <= e <= Isqrt(n) ==> n % e != 0
  {
    if n >= 2 {
      IsqrtBelow(n);
      if !IsPrime(n) {
        var d :| 2 <= d < n && n % d == 0;
        var e := DivisorBelowRoot(n, d);
        assert 2 <= e <= Isqrt(n) && n % e == 0;
      }
    }
  }

  /** Below 2 nothing is prime, 2 is, and no other even number is. */
  lemma EvenAndSmallCases(n: int)
    ensures n < 2 ==> !IsPrime(n)
    ensures n == 2 ==> IsPrime(n)
    ensures n > 2 && n % 2 == 0 ==> !IsPrime(n)
  {
  }

  /** No candidate in [2, k) divides n. */
  predicate NoDivisorBelow(n: int, k: int)
  {
    forall d :: 2 <= d < k ==> n % d != 0
  }

  /** One step of the odd-candidate loop: when the odd candidate i does not
      divide the odd n, neither does anything below i + 2. */
  lemma {:induction false} NoDivisorStep(n: int, i: int)
    requires n % 2 == 1 && i >= 3 && i % 2 == 1
    requires NoDivisorBelow(n, i) && n % i != 0
    ensures NoDivisorBelow(n, i + 2)
  {
    EvenDivisor(n, i + 1);
  }

  /** The source's trial-division test: reject below 2, accept 2, reject
      other even numbers, then try the odd candidates 3, 5, ... up to the
      integer square root and reject at the first one that divides. */
  method IsPrimeTrial(n: int) returns (b: bool)
    ensures b <==> IsPrime(n)
  {
    if n < 2 {
      return false;
    }
    if n == 2 {
      return true;
    }
    if n % 2 == 0 {
      assert !IsPrime(n) by { assert n % 2 == 0; }
      return false;
    }
    var r := Isqrt(n);
    IsqrtBelow(n);
    var i := 3;
    while i <= r
      invariant 3 <= i <= r + 2 && i % 2 == 1
      invariant NoDivisorBelow(n, i)
      decreases r + 2 - i
    {
      if n % i == 0 {
        assert 2 <= i < n;
        return false;
      }
      NoDivisorStep(n, i);
      i := i + 2;
    }
    assert NoDivisorBelow(n, r + 1);
    PrimeIffNoDivisorUpToRoot(n);
    return true;
  }
}
