/** Elementary number theory the sieve relies on: divisibility, primality,
    the integer square root, and the fact that a composite number has a
    prime factor no larger than its square root. */
module Numbers {

  /** d divides k (d is never zero here). */
  predicate Divides(d: int, k: int) {
    d != 0 && k % d == 0
  }

  /** No d in [lo, hi) divides k. */
  predicate NoDivisorIn(k: int, lo: int, hi: int) {
    forall d :: lo <= d < hi ==> !Divides(d, k)
  }

  /** k is a prime number: at least 2, with no divisor strictly between 1 and k. */
  predicate IsPrimeNumber(k: int) {
    k >= 2 && NoDivisorIn(k, 2, k)
  }

  lemma MultipleIsDivisible(d: int, c: int)
    requires d > 0
    ensures Divides(d, d * c)
  {
    var x := d * c;
    var q, r := x / d, x % d;
    assert x == d * q + r && 0 <= r < d;
    DistributeSub(d, c, q);
    assert d * (c - q) == r;
    if c - q > 0 {
      MulMonotone(1, c - q, d);
    } else if c - q < 0 {
      MulMonotone(1, q - c, d);
      DistributeSub(d, q, c);
    }
  }

  lemma DistributeSub(d: int, a: int, b: int)
    ensures d * (a - b) == d * a - d * b
  {
  }

  lemma {:induction false} DividesTransitive(d: int, p: int, k: int)
    requires d > 0 && p > 0
    requires Divides(d, p) && Divides(p, k)
    ensures Divides(d, k)
  {
    var a, b := k / p, p / d;
    assert k == p * a;
    assert p == d * b;
    assert k == d * (b * a);
    MultipleIsDivisible(d, b * a);
  }

  lemma MulMonotone(a: int, b: int, c: int)
    requires 0 <= a <= b && 0 <= c
    ensures a * c <= b * c
  {
  }

  /** The integer square root: the largest r with r * r <= n (IsqrtSpec). */
  function Isqrt(n: nat): nat {
    IsqrtFrom(n, 0)
  }

  /** The search for the integer square root, upwards from r. */
  function IsqrtFrom(n: nat, r: nat): nat
    requires r * r <= n
    decreases n - r
  {
    if (r + 1) * (r + 1) <= n then
      MulMonotone(1, r + 1, r + 1);
      IsqrtFrom(n, r + 1)
    else
      r
  }

  lemma {:induction false} IsqrtFromSpec(n: nat, r: nat)
    requires r * r <= n
    ensures r <= IsqrtFrom(n, r)
    ensures IsqrtFrom(n, r) * IsqrtFrom(n, r) <= n < (IsqrtFrom(n, r) + 1) * (IsqrtFrom(n, r) + 1)
    decreases n - r
  {
    if (r + 1) * (r + 1) <= n {
      MulMonotone(1, r + 1, r + 1);
      IsqrtFromSpec(n, r + 1);
    }
  }

  /** Isqrt(n) is the integer square root: its square is at most n and the
      square of its successor exceeds n. */
  lemma IsqrtSpec(n: nat)
    ensures Isqrt(n) * Isqrt(n) <= n < (Isqrt(n) + 1) * (Isqrt(n) + 1)
  {
    IsqrtFromSpec(n, 0);
  }

  /** Squaring is monotone on the naturals. */
  lemma SquareMonotone(a: int, b: int)
    requires 0 <= a
    ensures a <= b ==> a * a <= b * b
  {
    if a <= b {
      MulMonotone(a, b, a);
      MulMonotone(a, b, b);
    }
  }

  /** The integer square root is the only r with r * r <= n < (r + 1) * (r + 1). */
  lemma IsqrtUnique(n: nat, r: nat)
    requires r * r <= n < (r + 1) * (r + 1)
    ensures Isqrt(n) == r
  {
    IsqrtSpec(n);
    var q := Isqrt(n);
    SquareMonotone(q + 1, r);
    SquareMonotone(r + 1, q);
  }

  /** The integer square root of n >= 1 lies in [1, n]. */
  lemma IsqrtRange(n: nat)
    requires n >= 1
    ensures 1 <= Isqrt(n) <= n
  {
    IsqrtSpec(n);
    var r := Isqrt(n);
    MulMonotone(1, r, r);
  }

  /** Every composite k >= 2 has a prime factor p with p * p <= k. */
  lemma {:induction false} SmallPrimeFactor(k: int)
    requires k >= 2 && !IsPrimeNumber(k)
    ensures exists p :: IsPrimeNumber(p) && Divides(p, k) && p * p <= k
    decreases k
  {
    var d :| 2 <= d < k && Divides(d, k);
    var q := k / d;
    assert k == d * q;
    if q <= 1 {
      MulMonotone(q, 1, d);
      assert false;
    }
    MulMonotone(2, d, q);
    assert q < k;
    MultipleIsDivisible(q, d);
    assert Divides(q, k);
    var e := if d <= q then d else q;
    assert Divides(e, k);
    MulMonotone(e, d, e);
    MulMonotone(e, q, d);
    assert e * e <= k;
    if IsPrimeNumber(e) {
    } else {
      SmallPrimeFactor(e);
      var p :| IsPrimeNumber(p) && Divides(p, e) && p * p <= e;
      DividesTransitive(p, e, k);
      MulMonotone(1, e, e);
      assert IsPrimeNumber(p) && Divides(p, k) && p * p <= k;
    }
  }

  /** For r the integer square root of n and r < k <= n: k is composite exactly
      when some prime p <= r divides it. */
  lemma CompositeAboveRoot(k: int, n: int, r: nat)
    requires r * r <= n < (r + 1) * (r + 1)
    requires 2 <= k && r < k <= n
    ensures !IsPrimeNumber(k) <==> exists p :: 2 <= p <= r && IsPrimeNumber(p) && Divides(p, k)
  {
    if !IsPrimeNumber(k) {
      SmallPrimeFactor(k);
      var p :| IsPrimeNumber(p) && Divides(p, k) && p * p <= k;
      SquareMonotone(r + 1, p);
      assert 2 <= p <= r;
    }
    if exists p :: 2 <= p <= r && IsPrimeNumber(p) && Divides(p, k) {
      var p :| 2 <= p <= r && IsPrimeNumber(p) && Divides(p, k);
      assert !NoDivisorIn(k, 2, k);
    }
  }
}
