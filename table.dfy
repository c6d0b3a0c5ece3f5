/** The number table as a value: a sequence of records, the record of number k
    at index k - 2. The functions here describe, step for step, what the
    in-place loops of the table class do to it; the lemmas say what that
    amounts to. */
module Table {
  import opened Numbers

  /** The first number the table holds. */
  const BeginPrimeNumber: int := 2
  /** The sentinel value of a record whose number is known to be composite. */
  const NotPrimeNumberValue: int := -1

  /** One record: the number itself (or the sentinel) and the base-prime flag. */
  datatype PrimeNumber = PrimeNumber(value: int, isBase: bool) {
    predicate IsPrime() {
      value != NotPrimeNumberValue
    }
  }

  /** A record built from a bare value, as every write through the indexer
      does: the base flag is cleared. */
  function FromValue(value: int): PrimeNumber {
    PrimeNumber(value, false)
  }

  /** Number k is a valid index of a table of |s| records. */
  predicate InTable(s: seq<PrimeNumber>, k: int) {
    BeginPrimeNumber <= k <= |s| + 1
  }

  /** The record of number k carries the base flag. */
  predicate BaseAt(s: seq<PrimeNumber>, k: int) {
    InTable(s, k) && s[k - 2].isBase
  }

  /** The table right after initialisation: every number holds itself, unflagged. */
  function Fresh(n: int): seq<PrimeNumber>
    requires n >= 1
  {
    seq(n - 1, i => FromValue(i + 2))
  }

  /** One marking pass by prime p over (b, u]: a record still prime is
      rewritten to its own number, or to the sentinel when p divides it. */
  function Checked(s: seq<PrimeNumber>, p: int, b: int, u: int): seq<PrimeNumber>
    requires p != 0
  {
    seq(|s|, i requires 0 <= i < |s| =>
      if b < i + 2 <= u && s[i].IsPrime() then
        FromValue(if (i + 2) % p != 0 then i + 2 else NotPrimeNumberValue)
      else s[i])
  }

  /** Flags the record of number k as a base prime. */
  function MarkBase(s: seq<PrimeNumber>, k: int): seq<PrimeNumber>
    requires InTable(s, k)
  {
    s[k - 2 := s[k - 2].(isBase := true)]
  }

  /** The sequential sieve from p to u: each p still prime marks (p, u] and is flagged base. */
  function Sieved(s: seq<PrimeNumber>, p: int, u: int): (t: seq<PrimeNumber>)
    requires BeginPrimeNumber <= p && u <= |s| + 1
    ensures |t| == |s|
    decreases u - p + 1
  {
    if p > u then s
    else Sieved(if s[p - 2].IsPrime() then MarkBase(Checked(s, p, p, u), p) else s, p + 1, u)
  }

  /** The decomposition loop from p to pe: each p flagged base marks (ob, oe]. */
  function Decomposed(s: seq<PrimeNumber>, p: int, pe: int, ob: int, oe: int): (t: seq<PrimeNumber>)
    requires p <= pe ==> BeginPrimeNumber <= p && pe <= |s| + 1
    ensures |t| == |s|
    decreases pe - p + 1
  {
    if p > pe then s
    else Decomposed(if s[p - 2].isBase then Checked(s, p, ob, oe) else s, p + 1, pe, ob, oe)
  }

  /** A sieved prefix: numbers up to u are settled (primes flagged base,
      composites the sentinel); numbers above u are as initialised. */
  ghost function PartialSieved(n: int, u: int): seq<PrimeNumber>
    requires n >= 1
  {
    seq(n - 1, i =>
      if i + 2 <= u then
        (if IsPrimeNumber(i + 2) then PrimeNumber(i + 2, true) else FromValue(NotPrimeNumberValue))
      else FromValue(i + 2))
  }

  /** The finished table: a number keeps its value exactly when it is prime,
      and carries the base flag exactly when it is a prime no larger than r. */
  ghost function Expected(n: int, r: int): seq<PrimeNumber>
    requires n >= 1
  {
    seq(n - 1, i =>
      if IsPrimeNumber(i + 2) then PrimeNumber(i + 2, i + 2 <= r)
      else FromValue(NotPrimeNumberValue))
  }

  /** In the finished table a record counts as prime exactly when its number
      is a prime number, and then it holds that number. */
  lemma ExpectedIsPrime(n: int, r: int, k: int)
    requires n >= 1 && 2 <= k <= n
    ensures Expected(n, r)[k - 2].IsPrime() <==> IsPrimeNumber(k)
    ensures Expected(n, r)[k - 2].IsPrime() ==> Expected(n, r)[k - 2].value == k
  {
  }

  /** Records of (lo, hi] hold their own number or the sentinel, and none is flagged. */
  ghost predicate Plain(s: seq<PrimeNumber>, lo: int, hi: int) {
    forall i :: 0 <= i < |s| && lo < i + 2 <= hi ==>
      s[i] == FromValue(i + 2) || s[i] == FromValue(NotPrimeNumberValue)
  }

  /** Some number in [lo, hi] flagged base in s divides k. */
  ghost predicate HitIn(s: seq<PrimeNumber>, lo: int, hi: int, k: int) {
    exists q :: lo <= q <= hi && BaseAt(s, q) && Divides(q, k)
  }

  // ---------------------------------------------------------------------
  // The single-prime marking pass
  // ---------------------------------------------------------------------

  /** What one pass does to the record of number k = i + 2: outside (b, u]
      nothing; inside, a still-prime record is rewritten to k, or to the
      sentinel when p divides k, with its flag cleared; a composite never
      becomes prime again, no flag is ever set, and a record holding its
      number or the sentinel still does. */
  lemma CheckedEffect(s: seq<PrimeNumber>, p: int, b: int, u: int, i: int)
    requires p != 0 && 0 <= i < |s|
    ensures |Checked(s, p, b, u)| == |s|
    ensures !(b < i + 2 <= u) ==> Checked(s, p, b, u)[i] == s[i]
    ensures b < i + 2 <= u ==>
      (Checked(s, p, b, u)[i].IsPrime() <==> s[i].IsPrime() && !Divides(p, i + 2))
    ensures b < i + 2 <= u && s[i].IsPrime() ==>
      Checked(s, p, b, u)[i] == FromValue(if Divides(p, i + 2) then NotPrimeNumberValue else i + 2)
    ensures !s[i].IsPrime() ==> Checked(s, p, b, u)[i] == s[i]
    ensures Checked(s, p, b, u)[i].isBase ==> s[i].isBase
    ensures s[i] in {FromValue(i + 2), FromValue(NotPrimeNumberValue)} ==>
      Checked(s, p, b, u)[i] in {FromValue(i + 2), FromValue(NotPrimeNumberValue)}
  {
  }

  /** A pass over an empty range changes nothing. */
  lemma CheckedEmptyRange(s: seq<PrimeNumber>, p: int, b: int, u: int)
    requires p != 0 && u <= b
    ensures Checked(s, p, b, u) == s
  {
  }

  /** Two marking passes commute: the order in which primes mark does not matter. */
  lemma CheckedCommute(s: seq<PrimeNumber>, p: int, b: int, u: int, q: int, c: int, v: int)
    requires p != 0 && q != 0
    ensures Checked(Checked(s, p, b, u), q, c, v) == Checked(Checked(s, q, c, v), p, b, u)
  {
    var x, y := Checked(Checked(s, p, b, u), q, c, v), Checked(Checked(s, q, c, v), p, b, u);
    forall i | 0 <= i < |s| ensures x[i] == y[i] {
      CheckedEffect(s, p, b, u, i);
      CheckedEffect(s, q, c, v, i);
    }
  }

  /** Marking twice by the same prime over the same range is marking once. */
  lemma CheckedIdempotent(s: seq<PrimeNumber>, p: int, b: int, u: int)
    requires p != 0
    ensures Checked(Checked(s, p, b, u), p, b, u) == Checked(s, p, b, u)
  {
    var x := Checked(s, p, b, u);
    forall i | 0 <= i < |s| ensures Checked(x, p, b, u)[i] == x[i] {
      CheckedEffect(s, p, b, u, i);
    }
  }

  // ---------------------------------------------------------------------
  // The sequential sieve
  // ---------------------------------------------------------------------

  /** The state of the sieve before it looks at p: below p settled, in [p, u]
      composite exactly when a number in [2, p) divides, above u untouched. */
  ghost predicate SieveInvariant(s: seq<PrimeNumber>, n: int, p: int, u: int) {
    |s| == n - 1 &&
    forall i :: 0 <= i < |s| ==>
      s[i] == (if i + 2 < p then
                 (if IsPrimeNumber(i + 2) then PrimeNumber(i + 2, true) else FromValue(NotPrimeNumberValue))
               else if i + 2 <= u then
                 (if NoDivisorIn(i + 2, 2, p) then FromValue(i + 2) else FromValue(NotPrimeNumberValue))
               else FromValue(i + 2))
  }

  lemma SieveStep(s: seq<PrimeNumber>, n: int, p: int, u: int)
    requires 2 <= p <= u <= n
    requires SieveInvariant(s, n, p, u)
    ensures SieveInvariant(if s[p - 2].IsPrime() then MarkBase(Checked(s, p, p, u), p) else s, n, p + 1, u)
  {
    assert s[p - 2].IsPrime() <==> IsPrimeNumber(p);
    if s[p - 2].IsPrime() {
      var t := MarkBase(Checked(s, p, p, u), p);
      forall k | p < k <= u
        ensures NoDivisorIn(k, 2, p + 1) <==> NoDivisorIn(k, 2, p) && !Divides(p, k)
      {
      }
    } else {
      var d :| 2 <= d < p && Divides(d, p);
      forall k | p < k <= u
        ensures NoDivisorIn(k, 2, p + 1) <==> NoDivisorIn(k, 2, p)
      {
        if Divides(p, k) {
          DividesTransitive(d, p, k);
        }
      }
    }
  }

  lemma {:induction false} SievedFrom(s: seq<PrimeNumber>, n: int, p: int, u: int)
    requires 2 <= p <= u + 1 && u <= n
    requires SieveInvariant(s, n, p, u)
    ensures Sieved(s, p, u) == PartialSieved(n, u)
    decreases u - p + 1
  {
    if p > u {
      assert forall i :: 0 <= i < |s| ==> s[i] == PartialSieved(n, u)[i];
    } else {
      SieveStep(s, n, p, u);
      SievedFrom(if s[p - 2].IsPrime() then MarkBase(Checked(s, p, p, u), p) else s, n, p + 1, u);
    }
  }

  /** The sequential sieve up to u on a fresh table leaves every number up to u
      prime and base exactly when it is a prime number, and everything above u
      as initialised. */
  lemma SieveCorrect(n: int, u: int)
    requires 1 <= n && u <= n
    ensures Sieved(Fresh(n), 2, u) == PartialSieved(n, u)
  {
    if u < 2 {
      assert Fresh(n) == PartialSieved(n, u);
    } else {
      SievedFrom(Fresh(n), n, 2, u);
    }
  }

  /** The full sieve (up to n) leaves exactly the finished table in which every
      prime up to n is a base prime. */
  lemma FullSieveCorrect(n: int)
    requires n >= 1
    ensures Sieved(Fresh(n), 2, n) == Expected(n, n)
  {
    SieveCorrect(n, n);
    assert PartialSieved(n, n) == Expected(n, n);
  }

  // ---------------------------------------------------------------------
  // The decomposition loop
  // ---------------------------------------------------------------------

  /** When the prime range [p, pe] lies at or below ob, the decomposition loop
      leaves every record outside (ob, oe] as it was (base flags included), and
      inside (ob, oe] turns a record composite exactly when it was composite
      or some number of [p, pe] flagged base divides it. */
  lemma {:induction false} DecomposedEffect(s: seq<PrimeNumber>, p: int, pe: int, ob: int, oe: int)
    requires p <= pe ==> BeginPrimeNumber <= p && pe <= |s| + 1
    requires pe <= ob
    ensures |Decomposed(s, p, pe, ob, oe)| == |s|
    ensures forall i :: 0 <= i < |s| && !(ob < i + 2 <= oe) ==> Decomposed(s, p, pe, ob, oe)[i] == s[i]
    ensures forall i :: 0 <= i < |s| && ob < i + 2 <= oe ==>
      (Decomposed(s, p, pe, ob, oe)[i].IsPrime() <==> s[i].IsPrime() && !HitIn(s, p, pe, i + 2))
    ensures Plain(s, ob, oe) ==> forall i :: 0 <= i < |s| ==>
      Decomposed(s, p, pe, ob, oe)[i] ==
        (if ob < i + 2 <= oe && HitIn(s, p, pe, i + 2) then FromValue(NotPrimeNumberValue) else s[i])
    decreases pe - p + 1
  {
    if p <= pe {
      var t := if s[p - 2].isBase then Checked(s, p, ob, oe) else s;
      assert |t| == |s|;
      forall q | p + 1 <= q <= pe ensures BaseAt(t, q) == BaseAt(s, q) {
        if s[p - 2].isBase { CheckedEffect(s, p, ob, oe, q - 2); }
      }
      forall k | ob < k <= oe
        ensures HitIn(s, p, pe, k) <==> HitIn(t, p + 1, pe, k) || (BaseAt(s, p) && Divides(p, k))
      {
        if HitIn(s, p, pe, k) {
          var q :| p <= q <= pe && BaseAt(s, q) && Divides(q, k);
          if q != p { assert BaseAt(t, q); }
        }
        if HitIn(t, p + 1, pe, k) {
          var q :| p + 1 <= q <= pe && BaseAt(t, q) && Divides(q, k);
          assert BaseAt(s, q);
        }
      }
      forall i | 0 <= i < |s| ensures
        && (!(ob < i + 2 <= oe) ==> t[i] == s[i])
        && (ob < i + 2 <= oe ==> (t[i].IsPrime() <==> s[i].IsPrime() && !(BaseAt(s, p) && Divides(p, i + 2))))
        && (Plain(s, ob, oe) ==> t[i] == (if ob < i + 2 <= oe && BaseAt(s, p) && Divides(p, i + 2)
                                          then FromValue(NotPrimeNumberValue) else s[i]))
      {
        if s[p - 2].isBase { CheckedEffect(s, p, ob, oe, i); }
      }
      assert Plain(s, ob, oe) ==> Plain(t, ob, oe);
      DecomposedEffect(t, p + 1, pe, ob, oe);
    }
  }

  /** On the table sieved up to r = isqrt(n), a record above r is hit by a
      base prime of [2, r] exactly when its number is composite. */
  lemma HitAboveRoot(n: int, k: int)
    requires 2 <= k <= n && Isqrt(n) < k
    ensures HitIn(PartialSieved(n, Isqrt(n)), 2, Isqrt(n), k) <==> !IsPrimeNumber(k)
  {
    var r := Isqrt(n);
    var s := PartialSieved(n, r);
    IsqrtSpec(n);
    CompositeAboveRoot(k, n, r);
    if HitIn(s, 2, r, k) {
      var q :| 2 <= q <= r && BaseAt(s, q) && Divides(q, k);
      assert IsPrimeNumber(q);
    }
    if !IsPrimeNumber(k) {
      var q :| 2 <= q <= r && IsPrimeNumber(q) && Divides(q, k);
      assert BaseAt(s, q);
    }
  }

  /** The square-root sieve followed by the decomposition of (r, n] by the
      base primes in [2, r] yields the finished table: prime exactly when a
      prime number, base exactly when also no larger than r = isqrt(n). */
  lemma ModifiedSieveCorrect(n: int)
    requires n >= 1
    ensures Isqrt(n) <= n
    ensures Decomposed(Sieved(Fresh(n), 2, Isqrt(n)), 2, Isqrt(n), Isqrt(n), n) == Expected(n, Isqrt(n))
  {
    var r := Isqrt(n);
    IsqrtRange(n);
    SieveCorrect(n, r);
    var s := PartialSieved(n, r);
    assert Plain(s, r, n);
    DecomposedEffect(s, 2, r, r, n);
    var t := Decomposed(s, 2, r, r, n);
    forall i | 0 <= i < n - 1 ensures t[i] == Expected(n, r)[i] {
      if r < i + 2 {
        HitAboveRoot(n, i + 2);
      }
    }
  }

  // ---------------------------------------------------------------------
  // Base primes
  // ---------------------------------------------------------------------

  /** The values of the flagged records, in table order. */
  function BaseValues(s: seq<PrimeNumber>): seq<int>
    decreases |s|
  {
    if s == [] then []
    else BaseValues(s[..|s| - 1]) + (if s[|s| - 1].isBase then [s[|s| - 1].value] else [])
  }

  /** Every flagged record holds its own number. */
  ghost predicate BaseHoldsNumber(s: seq<PrimeNumber>) {
    forall i :: 0 <= i < |s| && s[i].isBase ==> s[i].value == i + 2
  }

  predicate StrictlyAscending(xs: seq<int>) {
    forall i, j :: 0 <= i < j < |xs| ==> xs[i] < xs[j]
  }

  /** The base values are exactly the values of flagged records; when every
      flagged record holds its own number they are strictly ascending and
      all below |s| + 2. */
  lemma {:induction false} BaseValuesSpec(s: seq<PrimeNumber>)
    ensures forall v :: v in BaseValues(s) <==> exists i :: 0 <= i < |s| && s[i].isBase && s[i].value == v
    ensures BaseHoldsNumber(s) ==> StrictlyAscending(BaseValues(s)) && forall v :: v in BaseValues(s) ==> v < |s| + 2
    decreases |s|
  {
    if s != [] {
      var init := s[..|s| - 1];
      BaseValuesSpec(init);
      forall v ensures v in BaseValues(s) <==> exists i :: 0 <= i < |s| && s[i].isBase && s[i].value == v {
        if v in BaseValues(s) && v !in BaseValues(init) {
          assert s[|s| - 1].isBase && s[|s| - 1].value == v;
        }
        if exists i :: 0 <= i < |s| && s[i].isBase && s[i].value == v {
          var i :| 0 <= i < |s| && s[i].isBase && s[i].value == v;
          if i < |s| - 1 { assert init[i] == s[i]; }
        }
      }
      if BaseHoldsNumber(s) {
        assert BaseHoldsNumber(init) by {
          forall i | 0 <= i < |init| && init[i].isBase ensures init[i].value == i + 2 {
            assert init[i] == s[i];
          }
        }
        var xs := BaseValues(s);
        assert forall v :: v in BaseValues(init) ==> v < |s| + 1;
        forall i, j | 0 <= i < j < |xs| ensures xs[i] < xs[j] {
          if j >= |BaseValues(init)| {
            assert xs[j] == |s| + 1;
            assert xs[i] in BaseValues(init);
          } else {
            assert xs[i] == BaseValues(init)[i] && xs[j] == BaseValues(init)[j];
          }
        }
      }
    }
  }

  /** After the sieve up to r (r <= n), the base values are exactly the prime
      numbers up to r, strictly ascending. */
  lemma BaseValuesOfSieved(n: int, r: int)
    requires 1 <= n && r <= n
    ensures StrictlyAscending(BaseValues(PartialSieved(n, r)))
    ensures forall v :: v in BaseValues(PartialSieved(n, r)) <==> IsPrimeNumber(v) && v <= r
  {
    var s := PartialSieved(n, r);
    BaseValuesSpec(s);
    forall v | IsPrimeNumber(v) && v <= r ensures v in BaseValues(s) {
      assert s[v - 2].isBase && s[v - 2].value == v;
    }
  }
}
