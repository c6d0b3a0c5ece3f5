/** The parallel strategies as work units. Each thread body of a strategy is
    a run of calls to the table's decomposition loop, one call per unit. Run
    on the table sieved up to r, whose base primes all lie at or below r and
    whose candidate ranges all start at or above r, a list of units has a
    closed form that depends only on which units it holds. So any order in
    which threads interleave whole units leaves the same table. */
module WorkUnits {
  import opened Numbers
  import opened Table
  import opened Partition

  /** One call of the decomposition loop: the numbers of [primeBegin, primeEnd]
      flagged base mark the candidates of (otherBegin, otherEnd]. */
  datatype Unit = Unit(primeBegin: int, primeEnd: int, otherBegin: int, otherEnd: int)

  /** The unit's prime range lies inside a table of size records. */
  predicate Within(size: int, u: Unit) {
    u.primeBegin <= u.primeEnd ==> BeginPrimeNumber <= u.primeBegin && u.primeEnd <= size + 1
  }

  /** The unit's primes lie at or below r, its candidates above r. */
  predicate Fits(u: Unit, r: int) {
    (u.primeBegin <= u.primeEnd ==> BeginPrimeNumber <= u.primeBegin) && u.primeEnd <= r <= u.otherBegin
  }

  /** What one unit does to the table. */
  function Apply(s: seq<PrimeNumber>, u: Unit): (t: seq<PrimeNumber>)
    requires Within(|s|, u)
    ensures |t| == |s|
  {
    Decomposed(s, u.primeBegin, u.primeEnd, u.otherBegin, u.otherEnd)
  }

  /** The units run one after another, first to last. */
  function RunUnits(s: seq<PrimeNumber>, us: seq<Unit>): (t: seq<PrimeNumber>)
    requires forall j :: 0 <= j < |us| ==> Within(|s|, us[j])
    ensures |t| == |s|
    decreases |us|
  {
    if us == [] then s
    else Apply(RunUnits(s, us[..|us| - 1]), us[|us| - 1])
  }

  /** Running one more unit of a list extends the run by that unit. */
  lemma RunUnitsPrefix(s: seq<PrimeNumber>, us: seq<Unit>, i: int)
    requires 0 <= i < |us|
    requires forall j :: 0 <= j < |us| ==> Within(|s|, us[j])
    ensures forall j :: 0 <= j < |us[..i]| ==> Within(|s|, us[..i][j])
    ensures RunUnits(s, us[..i + 1]) == Apply(RunUnits(s, us[..i]), us[i])
  {
    assert us[..i + 1][..i] == us[..i];
  }

  /** Unit u marks number k when k is one of its candidates and a number of
      its prime range flagged base in s0 divides k. */
  ghost predicate Hits(s0: seq<PrimeNumber>, u: Unit, k: int) {
    u.otherBegin < k <= u.otherEnd && HitIn(s0, u.primeBegin, u.primeEnd, k)
  }

  /** Some unit of us marks number k. */
  ghost predicate HitBy(s0: seq<PrimeNumber>, us: seq<Unit>, k: int) {
    exists u :: u in us && Hits(s0, u, k)
  }

  /** The table after the units: every record some unit marks turns
      composite; the others are as in s0. */
  ghost function Marked(s0: seq<PrimeNumber>, us: seq<Unit>): seq<PrimeNumber> {
    seq(|s0|, i requires 0 <= i < |s0| =>
      if HitBy(s0, us, i + 2) then FromValue(NotPrimeNumberValue) else s0[i])
  }

  /** The conditions under which units compose freely: r lies in the table,
      nothing above r is flagged or rewritten yet, and every unit fits r. */
  ghost predicate Ready(s0: seq<PrimeNumber>, r: int, us: seq<Unit>) {
    && r <= |s0| + 1
    && Plain(s0, r, |s0| + 1)
    && forall j :: 0 <= j < |us| ==> Fits(us[j], r)
  }

  /** A unit appended to a list marks what the list marks, and what it marks itself. */
  lemma HitBySnoc(s0: seq<PrimeNumber>, init: seq<Unit>, u: Unit, k: int)
    ensures HitBy(s0, init + [u], k) <==> HitBy(s0, init, k) || Hits(s0, u, k)
  {
    var us := init + [u];
    if HitBy(s0, us, k) {
      var v :| v in us && Hits(s0, v, k);
      if v != u {
        var j :| 0 <= j < |us| && us[j] == v;
        assert v == init[j];
      }
    }
    if Hits(s0, u, k) {
      assert u in us;
    }
    if HitBy(s0, init, k) {
      var v :| v in init && Hits(s0, v, k);
      var j :| 0 <= j < |init| && init[j] == v;
      assert us[j] == v;
    }
  }

  /** Units that fit r leave the records up to r as in s0, and the records
      above r plain. */
  lemma MarkedBelowRoot(s0: seq<PrimeNumber>, r: int, init: seq<Unit>, u: Unit)
    requires Ready(s0, r, init) && Fits(u, r)
    ensures forall k :: HitIn(Marked(s0, init), u.primeBegin, u.primeEnd, k) == HitIn(s0, u.primeBegin, u.primeEnd, k)
    ensures Plain(Marked(s0, init), u.otherBegin, u.otherEnd)
  {
    var t := Marked(s0, init);
    forall q | u.primeBegin <= q <= u.primeEnd ensures BaseAt(t, q) == BaseAt(s0, q) {
      if InTable(s0, q) {
        assert !HitBy(s0, init, q);
      }
    }
    forall i | 0 <= i < |t| && u.otherBegin < i + 2 <= u.otherEnd
      ensures t[i] == FromValue(i + 2) || t[i] == FromValue(NotPrimeNumberValue)
    {
      assert r < i + 2 <= |s0| + 1;
    }
  }

  /** Running one more unit that fits r on the closed form of a list gives
      the closed form of the longer list. */
  lemma MarkedStep(s0: seq<PrimeNumber>, r: int, init: seq<Unit>, u: Unit)
    requires Ready(s0, r, init) && Fits(u, r)
    ensures Within(|s0|, u)
    ensures Apply(Marked(s0, init), u) == Marked(s0, init + [u])
  {
    var t := Marked(s0, init);
    MarkedBelowRoot(s0, r, init, u);
    DecomposedEffect(t, u.primeBegin, u.primeEnd, u.otherBegin, u.otherEnd);
    forall i | 0 <= i < |s0| ensures Apply(t, u)[i] == Marked(s0, init + [u])[i] {
      HitBySnoc(s0, init, u, i + 2);
    }
  }

  /** Running the units gives the closed form Marked. */
  lemma {:induction false} RunUnitsClosed(s0: seq<PrimeNumber>, r: int, us: seq<Unit>)
    requires Ready(s0, r, us)
    ensures forall j :: 0 <= j < |us| ==> Within(|s0|, us[j])
    ensures RunUnits(s0, us) == Marked(s0, us)
    decreases |us|
  {
    if us != [] {
      var init, u := us[..|us| - 1], us[|us| - 1];
      assert Ready(s0, r, init) by {
        forall j | 0 <= j < |init| ensures Fits(init[j], r) {
          assert init[j] == us[j];
        }
      }
      RunUnitsClosed(s0, r, init);
      MarkedStep(s0, r, init, u);
      assert init + [u] == us;
    }
  }

  /** Units with the same members, in whatever order and however repeated,
      leave the same table: the order in which threads run whole units does
      not matter. */
  lemma RunUnitsOrderFree(s0: seq<PrimeNumber>, r: int, us: seq<Unit>, vs: seq<Unit>)
    requires Ready(s0, r, us) && Ready(s0, r, vs)
    requires forall u :: u in us <==> u in vs
    ensures forall j :: 0 <= j < |us| ==> Within(|s0|, us[j])
    ensures forall j :: 0 <= j < |vs| ==> Within(|s0|, vs[j])
    ensures RunUnits(s0, us) == RunUnits(s0, vs)
  {
    RunUnitsClosed(s0, r, us);
    RunUnitsClosed(s0, r, vs);
    assert forall k :: HitBy(s0, us, k) == HitBy(s0, vs, k);
  }

  /** The single unit of the modified sieve: every base prime of [2, r]
      marks (r, n]. */
  function WholeUnit(r: int, n: int): Unit {
    Unit(BeginPrimeNumber, r, r, n)
  }

  /** The data split: worker i runs the whole prime range [2, r] over its
      piece (r + Share(n - r, m, i), r + Share(n - r, m, i + 1)] of (r, n]. */
  function DataUnits(r: int, n: int, m: int): (us: seq<Unit>)
    requires m >= 1
    ensures |us| == m
  {
    PieceUnits(r, Boundaries(r, n - r, m))
  }

  /** One unit per piece (bs[i], bs[i + 1]], each run by the primes of [2, r]. */
  function PieceUnits(r: int, bs: seq<int>): (us: seq<Unit>)
    requires |bs| >= 1
    ensures |us| == |bs| - 1
  {
    seq(|bs| - 1, i requires 0 <= i < |bs| - 1 => Unit(BeginPrimeNumber, r, bs[i], bs[i + 1]))
  }

  /** Worker i's unit of the data split: its piece lies inside (r, n]. */
  lemma DataUnitAt(r: int, n: int, m: int, i: int)
    requires r <= n && m >= 1 && 0 <= i < m
    ensures DataUnits(r, n, m)[i] == Unit(BeginPrimeNumber, r, r + Share(n - r, m, i), r + Share(n - r, m, i + 1))
    ensures r <= r + Share(n - r, m, i) <= r + Share(n - r, m, i + 1) <= n
  {
    ShareBounds(n - r, m, 0, i);
    ShareBounds(n - r, m, i, i + 1);
    ShareBounds(n - r, m, i + 1, m);
  }

  /** One unit per base prime p, marking (r, n] by p alone, in the order of
      the base primes. */
  function PrimeUnits(basePrimes: seq<int>, r: int, n: int): (us: seq<Unit>)
    ensures |us| == |basePrimes|
  {
    seq(|basePrimes|, k requires 0 <= k < |basePrimes| => Unit(basePrimes[k], basePrimes[k], r, n))
  }

  /** The table sieved up to r = isqrt(n) is ready for units that fit r, and
      the whole unit on it gives the finished table. */
  lemma WholeUnitCorrect(n: int)
    requires n >= 1
    ensures Isqrt(n) <= n
    ensures Ready(PartialSieved(n, Isqrt(n)), Isqrt(n), [WholeUnit(Isqrt(n), n)])
    ensures RunUnits(PartialSieved(n, Isqrt(n)), [WholeUnit(Isqrt(n), n)]) == Expected(n, Isqrt(n))
  {
    var r := Isqrt(n);
    IsqrtRange(n);
    SieveCorrect(n, r);
    ModifiedSieveCorrect(n);
    var us := [WholeUnit(r, n)];
    assert us[..0] == [];
  }

  /** Two ready lists that mark the same numbers leave the same table. */
  lemma SameMarks(s0: seq<PrimeNumber>, r: int, us: seq<Unit>, vs: seq<Unit>)
    requires Ready(s0, r, us) && Ready(s0, r, vs)
    requires forall k :: HitBy(s0, us, k) <==> HitBy(s0, vs, k)
    ensures forall j :: 0 <= j < |us| ==> Within(|s0|, us[j])
    ensures forall j :: 0 <= j < |vs| ==> Within(|s0|, vs[j])
    ensures RunUnits(s0, us) == RunUnits(s0, vs)
  {
    RunUnitsClosed(s0, r, us);
    RunUnitsClosed(s0, r, vs);
  }

  /** The data split's units fit r, and together they mark exactly what the
      whole unit marks: the pieces tile (r, n] and each runs all of [2, r]. */
  lemma DataUnitsMarks(s0: seq<PrimeNumber>, r: int, n: int, m: int, k: int)
    requires r <= n && m >= 1
    ensures forall j :: 0 <= j < m ==> Fits(DataUnits(r, n, m)[j], r)
    ensures HitBy(s0, DataUnits(r, n, m), k) <==> HitBy(s0, [WholeUnit(r, n)], k)
  {
    var bs := Boundaries(r, n - r, m);
    BoundariesTile(r, n - r, m, k);
    PieceUnitsMarks(s0, r, n, bs, k);
  }

  /** Pieces that tile (r, n], each run by all of [2, r], fit r and together
      mark exactly what the whole unit marks. */
  lemma PieceUnitsMarks(s0: seq<PrimeNumber>, r: int, n: int, bs: seq<int>, k: int)
    requires |bs| >= 1 && bs[0] == r && bs[|bs| - 1] == n && Ascending(bs)
    requires r < k <= n <==> exists i :: InPiece(bs, i, k)
    ensures forall j :: 0 <= j < |bs| - 1 ==> Fits(PieceUnits(r, bs)[j], r)
    ensures HitBy(s0, PieceUnits(r, bs), k) <==> HitBy(s0, [WholeUnit(r, n)], k)
  {
    var us, whole := PieceUnits(r, bs), [WholeUnit(r, n)];
    forall j | 0 <= j < |bs| - 1 ensures Fits(us[j], r) {
      assert bs[0] <= bs[j];
    }
    if HitBy(s0, us, k) {
      var u :| u in us && Hits(s0, u, k);
      var j :| 0 <= j < |us| && us[j] == u;
      assert InPiece(bs, j, k);
      assert Hits(s0, whole[0], k);
    }
    if HitBy(s0, whole, k) {
      assert Hits(s0, whole[0], k);
      var j :| InPiece(bs, j, k);
      assert Hits(s0, us[j], k);
    }
  }

  /** The data split's units, run in any order on the table sieved up to
      r = isqrt(n), give the finished table. */
  lemma DataUnitsCorrect(n: int, m: int)
    requires n >= 1 && m >= 1
    ensures Isqrt(n) <= n
    ensures Ready(PartialSieved(n, Isqrt(n)), Isqrt(n), DataUnits(Isqrt(n), n, m))
    ensures RunUnits(PartialSieved(n, Isqrt(n)), DataUnits(Isqrt(n), n, m)) == Expected(n, Isqrt(n))
  {
    var r := Isqrt(n);
    var s0 := PartialSieved(n, r);
    var us, whole := DataUnits(r, n, m), [WholeUnit(r, n)];
    WholeUnitCorrect(n);
    forall k ensures HitBy(s0, us, k) <==> HitBy(s0, whole, k) {
      DataUnitsMarks(s0, r, n, m, k);
    }
    DataUnitsMarks(s0, r, n, m, 0);
    SameMarks(s0, r, us, whole);
  }

  /** When bp lists exactly the numbers of [2, r] flagged base in s0, the
      per-prime units over bp fit r and together mark exactly what the whole
      unit marks. */
  lemma PrimeUnitsMarks(s0: seq<PrimeNumber>, bp: seq<int>, r: int, n: int, k: int)
    requires forall q :: q in bp <==> 2 <= q <= r && BaseAt(s0, q)
    ensures forall j :: 0 <= j < |bp| ==> Fits(PrimeUnits(bp, r, n)[j], r)
    ensures HitBy(s0, PrimeUnits(bp, r, n), k) <==> HitBy(s0, [WholeUnit(r, n)], k)
  {
    var us, whole := PrimeUnits(bp, r, n), [WholeUnit(r, n)];
    forall j | 0 <= j < |us| ensures Fits(us[j], r) {
      assert bp[j] in bp;
    }
    if HitBy(s0, us, k) {
      var u :| u in us && Hits(s0, u, k);
      var j :| 0 <= j < |us| && us[j] == u;
      assert bp[j] in bp;
      assert Hits(s0, whole[0], k);
    }
    if HitBy(s0, whole, k) {
      assert Hits(s0, whole[0], k);
      var q :| 2 <= q <= r && BaseAt(s0, q) && Divides(q, k);
      assert q in bp;
      var j :| 0 <= j < |bp| && bp[j] == q;
      assert Hits(s0, us[j], k);
    }
  }

  /** The per-prime units over the base primes of the table sieved up to
      r = isqrt(n), run in any order, give the finished table. */
  lemma PrimeUnitsCorrect(n: int)
    requires n >= 1
    ensures Isqrt(n) <= n
    ensures Ready(PartialSieved(n, Isqrt(n)), Isqrt(n), PrimeUnits(BaseValues(PartialSieved(n, Isqrt(n))), Isqrt(n), n))
    ensures RunUnits(PartialSieved(n, Isqrt(n)), PrimeUnits(BaseValues(PartialSieved(n, Isqrt(n))), Isqrt(n), n))
         == Expected(n, Isqrt(n))
  {
    var r := Isqrt(n);
    var s0 := PartialSieved(n, r);
    var bp := BaseValues(s0);
    var us, whole := PrimeUnits(bp, r, n), [WholeUnit(r, n)];
    WholeUnitCorrect(n);
    BaseValuesOfSieved(n, r);
    forall q ensures q in bp <==> 2 <= q <= r && BaseAt(s0, q) {
      if q in bp {
        assert s0[q - 2].isBase;
      }
    }
    forall k ensures HitBy(s0, us, k) <==> HitBy(s0, whole, k) {
      PrimeUnitsMarks(s0, bp, r, n, k);
    }
    PrimeUnitsMarks(s0, bp, r, n, 0);
    SameMarks(s0, r, us, whole);
  }

  /** What the data strategy needs of its units, stated on the table as the
      sieve up to r = isqrt(n) leaves it. */
  lemma DataStrategy(n: int, m: int)
    requires n >= 1 && m >= 1
    ensures Isqrt(n) <= n
    ensures forall j :: 0 <= j < m ==> Within(n - 1, DataUnits(Isqrt(n), n, m)[j])
    ensures |Sieved(Fresh(n), 2, Isqrt(n))| == n - 1
    ensures RunUnits(Sieved(Fresh(n), 2, Isqrt(n)), DataUnits(Isqrt(n), n, m)) == Expected(n, Isqrt(n))
  {
    var r := Isqrt(n);
    DataUnitsCorrect(n, m);
    SieveCorrect(n, r);
    RunUnitsClosed(PartialSieved(n, r), r, DataUnits(r, n, m));
  }

  /** What the per-prime strategies need of their units, stated on the table
      as the sieve up to r = isqrt(n) leaves it: the base primes are the
      primes up to r, and the per-prime units over them finish the table. */
  lemma PrimeStrategy(n: int)
    requires n >= 1
    ensures Isqrt(n) <= n
    ensures |Sieved(Fresh(n), 2, Isqrt(n))| == n - 1
    ensures forall q :: q in BaseValues(Sieved(Fresh(n), 2, Isqrt(n))) ==> 2 <= q <= Isqrt(n)
    ensures forall j :: 0 <= j < |BaseValues(Sieved(Fresh(n), 2, Isqrt(n)))| ==>
      Within(n - 1, PrimeUnits(BaseValues(Sieved(Fresh(n), 2, Isqrt(n))), Isqrt(n), n)[j])
    ensures RunUnits(Sieved(Fresh(n), 2, Isqrt(n)), PrimeUnits(BaseValues(Sieved(Fresh(n), 2, Isqrt(n))), Isqrt(n), n))
         == Expected(n, Isqrt(n))
  {
    var r := Isqrt(n);
    PrimeUnitsCorrect(n);
    SieveCorrect(n, r);
    BaseValuesOfSieved(n, r);
    var s0 := PartialSieved(n, r);
    RunUnitsClosed(s0, r, PrimeUnits(BaseValues(s0), r, n));
  }
}
