/** The search for prime numbers: a table of numbers 2..n and m workers, and
    the strategies that fill the table. Every strategy runs the sequential
    sieve up to isqrt(n) (or, for the full sieve, up to n) and then hands
    the rest out as work units, here run one after another, worker by worker. */
module Strategies {
  import opened Numbers
  import opened Table
  import opened Listing
  import opened Partition
  import opened WorkUnits
  import opened Sieve

  /** An optional integer argument (a nullable int): Null when the caller
      leaves it out. */
  datatype NullableInt = Null | Int(value: int) {
    /** The argument, or the given default when it was left out. */
    function Or(default: int): int {
      if Int? then value else default
    }
  }

  /** The outcome of a run that may or may not show its listing. */
  datatype Option<T> = None | Some(value: T)

  /** The strategies the driver can run, one per method of the same name
      with the suffix Eratosthenes. */
  datatype Action =
    | Full
    | Modified
    | DataDecomposition
    | BasePrimeDecomposition
    | EveryBasePrimeDecomposition
    | ParallelSerialHandleBasePrimeDecomposition

  function Min(a: int, b: int): int {
    if a <= b then a else b
  }

  class SearchForPrimeNumbers {
    /** The largest number searched. */
    const n: int
    /** The number of workers. */
    const m: int
    /** The table of numbers 2..n. */
    const primeNumbers: PrimeNumbers

    ghost predicate Valid() {
      n >= 1 && m >= 1 && primeNumbers.n == n && primeNumbers.Valid()
    }

    constructor (n: int, m: int)
      requires n >= 1 && m >= 1
      ensures this.n == n && this.m == m && Valid()
      ensures fresh(primeNumbers) && fresh(primeNumbers.primeNumbers)
    {
      this.n := n;
      this.m := m;
      primeNumbers := new PrimeNumbers(n);
    }

    /** The bound of the modified sieve: the largest r with r * r <= n. */
    function SqrtN(): int
      requires n >= 0
    {
      Isqrt(n)
    }

    /** The table's decomposition loop with the defaults of the wrapper: the
        primes from primeBegin (2 when the caller leaves it out) to SqrtN, the
        candidates of (SqrtN, n]. */
    method DecompositionEratosthenes(primeBegin: int := BeginPrimeNumber, primeEnd: NullableInt := Null,
                                     otherBegin: NullableInt := Null, otherEnd: NullableInt := Null)
      requires Valid()
      requires primeBegin <= primeEnd.Or(SqrtN()) ==> 2 <= primeBegin && primeEnd.Or(SqrtN()) <= n
      requires otherBegin.Or(SqrtN()) < otherEnd.Or(n) ==> 1 <= otherBegin.Or(SqrtN()) && otherEnd.Or(n) <= n
      modifies primeNumbers.primeNumbers
      ensures primeNumbers.Records() ==
        Decomposed(old(primeNumbers.Records()), primeBegin, primeEnd.Or(SqrtN()), otherBegin.Or(SqrtN()), otherEnd.Or(n))
    {
      primeNumbers.DecompositionEratosthenes(primeBegin, primeEnd.Or(SqrtN()), otherBegin.Or(SqrtN()), otherEnd.Or(n));
    }

    /** The sequential sieve over the whole table: every prime is a base prime. */
    method FullEratosthenes()
      requires Valid() && primeNumbers.Records() == Fresh(n)
      modifies primeNumbers.primeNumbers
      ensures primeNumbers.Records() == Expected(n, n)
    {
      primeNumbers.Eratosthenes(n);
      FullSieveCorrect(n);
    }

    /** The sieve up to SqrtN, then the decomposition of (SqrtN, n] by its base primes. */
    method ModifiedEratosthenes()
      requires Valid() && primeNumbers.Records() == Fresh(n)
      modifies primeNumbers.primeNumbers
      ensures primeNumbers.Records() == Expected(n, SqrtN())
    {
      IsqrtRange(n);
      primeNumbers.Eratosthenes(SqrtN());
      DecompositionEratosthenes();
      ModifiedSieveCorrect(n);
    }

    /** Parallel algorithm 1: (SqrtN, n] is cut into m pieces and worker i
        decomposes piece i by all base primes. */
    method DataDecompositionEratosthenes()
      requires Valid() && primeNumbers.Records() == Fresh(n)
      modifies primeNumbers.primeNumbers
      ensures primeNumbers.Records() == Expected(n, SqrtN())
    {
      IsqrtRange(n);
      DataStrategy(n, m);
      primeNumbers.Eratosthenes(SqrtN());
      ghost var s0 := primeNumbers.Records();
      assert DataUnits(SqrtN(), n, m)[..0] == [];
      RunDataWorkers(s0);
    }

    /** Workers 0..m-1 of parallel algorithm 1, one after another: the run of
        all data units. */
    method RunDataWorkers(ghost s0: seq<PrimeNumber>)
      requires Valid() && |s0| == n - 1 && 1 <= SqrtN() <= n
      requires forall j :: 0 <= j < m ==> Within(n - 1, DataUnits(SqrtN(), n, m)[j])
      requires primeNumbers.Records() == RunUnits(s0, DataUnits(SqrtN(), n, m)[..0])
      modifies primeNumbers.primeNumbers
      ensures primeNumbers.Records() == RunUnits(s0, DataUnits(SqrtN(), n, m))
    {
      var r := SqrtN();
      ghost var units := DataUnits(r, n, m);
      for i := 0 to m
        invariant primeNumbers.Records() == RunUnits(s0, units[..i])
      {
        var startIndex := r + Share(n - r, m, i);
        var finalIndex := r + Share(n - r, m, i + 1);
        DataUnitAt(r, n, m, i);
        DecomposePiece(i, startIndex, finalIndex, s0);
      }
      assert units[..m] == units;
    }

    /** The body of worker i of parallel algorithm 1: all base primes mark
        (startIndex, finalIndex], its piece of (SqrtN, n], extending the run
        of data units by one. */
    method DecomposePiece(i: int, startIndex: int, finalIndex: int, ghost s0: seq<PrimeNumber>)
      requires Valid() && |s0| == n - 1 && 1 <= SqrtN() <= n && 0 <= i < m
      requires forall j :: 0 <= j < m ==> Within(n - 1, DataUnits(SqrtN(), n, m)[j])
      requires DataUnits(SqrtN(), n, m)[i] == Unit(BeginPrimeNumber, SqrtN(), startIndex, finalIndex)
      requires SqrtN() <= startIndex <= finalIndex <= n
      requires primeNumbers.Records() == RunUnits(s0, DataUnits(SqrtN(), n, m)[..i])
      modifies primeNumbers.primeNumbers
      ensures primeNumbers.Records() == RunUnits(s0, DataUnits(SqrtN(), n, m)[..i + 1])
    {
      ghost var units := DataUnits(SqrtN(), n, m);
      RunUnitsPrefix(s0, units, i);
      ghost var before := primeNumbers.Records();
      DecompositionEratosthenes(otherBegin := Int(startIndex), otherEnd := Int(finalIndex));
      assert primeNumbers.Records() == Apply(before, units[i]);
    }

    /** The state the per-prime strategies work from: s0 is a table of n - 1
        records, and basePrimes lists numbers of [2, SqrtN] only, so each of
        their units fits the table. */
    ghost predicate BasePrimesReady(s0: seq<PrimeNumber>, basePrimes: seq<int>) {
      && Valid()
      && |s0| == n - 1
      && 1 <= SqrtN() <= n
      && (forall q :: q in basePrimes ==> 2 <= q <= SqrtN())
      && (forall j :: 0 <= j < |basePrimes| ==> Within(n - 1, PrimeUnits(basePrimes, SqrtN(), n)[j]))
    }

    /** The common start of the per-prime strategies: the sieve up to SqrtN,
        then the list of its base primes. The table s0 it leaves is the start
        of the run of per-prime units, and the whole run finishes the table. */
    method SieveBasePrimes() returns (basePrimes: seq<int>, ghost s0: seq<PrimeNumber>)
      requires Valid() && primeNumbers.Records() == Fresh(n)
      modifies primeNumbers.primeNumbers
      ensures BasePrimesReady(s0, basePrimes)
      ensures basePrimes == BaseValues(s0)
      ensures primeNumbers.Records() == s0 == RunUnits(s0, PrimeUnits(basePrimes, SqrtN(), n)[..0])
      ensures RunUnits(s0, PrimeUnits(basePrimes, SqrtN(), n)) == Expected(n, SqrtN())
    {
      IsqrtRange(n);
      PrimeStrategy(n);
      primeNumbers.Eratosthenes(SqrtN());
      s0 := primeNumbers.Records();
      basePrimes := primeNumbers.GetBasePrimeNumbers();
      assert PrimeUnits(basePrimes, SqrtN(), n)[..0] == [];
    }

    /** The work item of the per-prime strategies: (SqrtN, n] is decomposed by
        the base prime at index, extending the run of per-prime units by one. */
    method DecomposeByBasePrime(basePrimes: seq<int>, index: int, ghost s0: seq<PrimeNumber>)
      requires BasePrimesReady(s0, basePrimes) && 0 <= index < |basePrimes|
      requires primeNumbers.Records() == RunUnits(s0, PrimeUnits(basePrimes, SqrtN(), n)[..index])
      modifies primeNumbers.primeNumbers
      ensures primeNumbers.Records() == RunUnits(s0, PrimeUnits(basePrimes, SqrtN(), n)[..index + 1])
    {
      var prime := basePrimes[index];
      assert prime in basePrimes;
      ghost var units := PrimeUnits(basePrimes, SqrtN(), n);
      RunUnitsPrefix(s0, units, index);
      assert units[index] == Unit(prime, prime, SqrtN(), n);
      DecompositionEratosthenes(primeBegin := prime, primeEnd := Int(prime));
    }

    /** The body of worker i of parallel algorithm 2: the base primes at
        indices [startPrimeIndex, finalPrimeIndex), one after another. */
    method DecomposeSlice(basePrimes: seq<int>, startPrimeIndex: int, finalPrimeIndex: int, ghost s0: seq<PrimeNumber>)
      requires BasePrimesReady(s0, basePrimes) && 0 <= startPrimeIndex <= finalPrimeIndex <= |basePrimes|
      requires primeNumbers.Records() == RunUnits(s0, PrimeUnits(basePrimes, SqrtN(), n)[..startPrimeIndex])
      modifies primeNumbers.primeNumbers
      ensures primeNumbers.Records() == RunUnits(s0, PrimeUnits(basePrimes, SqrtN(), n)[..finalPrimeIndex])
    {
      for k := startPrimeIndex to finalPrimeIndex
        invariant primeNumbers.Records() == RunUnits(s0, PrimeUnits(basePrimes, SqrtN(), n)[..k])
      {
        DecomposeByBasePrime(basePrimes, k, s0);
      }
    }

    /** Parallel algorithm 2: the list of base primes is cut into m slices by
        index and worker i decomposes (SqrtN, n] by the primes of slice i. */
    method BasePrimeDecompositionEratosthenes()
      requires Valid() && primeNumbers.Records() == Fresh(n)
      modifies primeNumbers.primeNumbers
      ensures primeNumbers.Records() == Expected(n, SqrtN())
    {
      var basePrimes, s0 := SieveBasePrimes();
      ghost var units := PrimeUnits(basePrimes, SqrtN(), n);
      var len := |basePrimes|;
      ShareBounds(len, m, 0, 0);
      for i := 0 to m
        invariant 0 <= Share(len, m, i) <= len
        invariant primeNumbers.Records() == RunUnits(s0, units[..Share(len, m, i)])
      {
        var startPrimeIndex := Share(len, m, i);
        var finalPrimeIndex := Share(len, m, i + 1);
        SliceAt(len, m, i);
        DecomposeSlice(basePrimes, startPrimeIndex, finalPrimeIndex, s0);
      }
      assert units[..len] == units;
    }

    /** Parallel algorithm 3: one pool task per base prime, each decomposing
        (SqrtN, n] by its prime. */
    method EveryBasePrimeDecompositionEratosthenes()
      requires Valid() && primeNumbers.Records() == Fresh(n)
      modifies primeNumbers.primeNumbers
      ensures primeNumbers.Records() == Expected(n, SqrtN())
    {
      var basePrimes, s0 := SieveBasePrimes();
      ghost var units := PrimeUnits(basePrimes, SqrtN(), n);
      for i := 0 to |basePrimes|
        invariant primeNumbers.Records() == RunUnits(s0, units[..i])
      {
        DecomposeByBasePrime(basePrimes, i, s0);
      }
      assert units[..|basePrimes|] == units;
    }

    /** Parallel algorithm 4: m workers claim base-prime indices from a shared
        counter (each claim returns the counter's old value and advances it)
        until a claim falls past the end of the list. */
    method ParallelSerialHandleBasePrimeDecompositionEratosthenes()
      requires Valid() && primeNumbers.Records() == Fresh(n)
      modifies primeNumbers.primeNumbers
      ensures primeNumbers.Records() == Expected(n, SqrtN())
    {
      var basePrimes, s0 := SieveBasePrimes();
      ghost var units := PrimeUnits(basePrimes, SqrtN(), n);
      var len := |basePrimes|;
      var currentAvailableBasePrimeIndex := 0;
      for i := 0 to m
        invariant i == 0 ==> currentAvailableBasePrimeIndex == 0
        invariant i > 0 ==> currentAvailableBasePrimeIndex == len + i
        invariant primeNumbers.Records() == RunUnits(s0, units[..Min(currentAvailableBasePrimeIndex, len)])
      {
        while true
          invariant currentAvailableBasePrimeIndex <= len + i
          invariant i > 0 ==> currentAvailableBasePrimeIndex == len + i
          invariant primeNumbers.Records() == RunUnits(s0, units[..Min(currentAvailableBasePrimeIndex, len)])
          decreases len + i - currentAvailableBasePrimeIndex
        {
          currentAvailableBasePrimeIndex := currentAvailableBasePrimeIndex + 1;
          var currentBasePrimeIndex := currentAvailableBasePrimeIndex - 1;
          if currentBasePrimeIndex >= len {
            break;
          }
          DecomposeByBasePrime(basePrimes, currentBasePrimeIndex, s0);
        }
      }
      assert units[..len] == units;
    }

    /** The base-prime bound a strategy leaves behind. */
    function BaseBound(action: Action): int
      requires n >= 0
    {
      if action == Full then n else SqrtN()
    }

    /** Resets the table, runs the strategy, and yields the listing of the
        base primes when asked to show it. */
    method Processing(action: Action, showBasePrimeNumbers: bool := true) returns (shown: Option<string>)
      requires Valid()
      modifies primeNumbers.primeNumbers
      ensures primeNumbers.Records() == Expected(n, BaseBound(action))
      ensures showBasePrimeNumbers ==> shown == Some(Render(Listed(Expected(n, BaseBound(action)), true)))
      ensures !showBasePrimeNumbers ==> shown == None
    {
      primeNumbers.Init();
      match action {
        case Full => FullEratosthenes();
        case Modified => ModifiedEratosthenes();
        case DataDecomposition => DataDecompositionEratosthenes();
        case BasePrimeDecomposition => BasePrimeDecompositionEratosthenes();
        case EveryBasePrimeDecomposition => EveryBasePrimeDecompositionEratosthenes();
        case ParallelSerialHandleBasePrimeDecomposition =>
          ParallelSerialHandleBasePrimeDecompositionEratosthenes();
      }
      if showBasePrimeNumbers {
        var text := primeNumbers.ToString(true);
        shown := Some(text);
      } else {
        shown := None;
      }
    }
  }

  /** Every strategy leaves the same listing of prime numbers: whatever bound
      the base flags stop at, the primes shown are the primes up to n. */
  lemma PrimeListingAgrees(n: int, r1: int, r2: int)
    requires n >= 1
    ensures Listed(Expected(n, r1), false) == Listed(Expected(n, r2), false)
  {
    ExpectedListing(n, r1, false);
    ExpectedListing(n, r2, false);
    AscendingUnique(Listed(Expected(n, r1), false), Listed(Expected(n, r2), false));
  }

  /** The base listing of a table of n numbers whose base flags stop at r:
      the primes up to r, ascending. */
  lemma BaseListing(n: int, r: int, xs: seq<int>)
    requires n >= 1 && r <= n
    requires StrictlyAscending(xs)
    requires forall v :: v in xs <==> IsPrimeNumber(v) && v <= r
    ensures Listed(Expected(n, r), true) == xs
  {
    ExpectedListing(n, r, true);
    AscendingUnique(Listed(Expected(n, r), true), xs);
  }

  /** For n = 2 the square-root strategies flag no base prime at all
      (isqrt(2) = 1), while the full sieve flags 2. */
  lemma TwoBaseListing()
    ensures Isqrt(2) == 1
    ensures Listed(Expected(2, Isqrt(2)), true) == []
    ensures Listed(Expected(2, 2), true) == [2]
  {
    IsqrtUnique(2, 1);
    assert IsPrimeNumber(2);
    BaseListing(2, 1, []);
    BaseListing(2, 2, [2]);
  }

  /** For n = 100 the square-root strategies flag the four primes up to
      isqrt(100) = 10, while the full sieve flags 11 as well. */
  lemma HundredBaseListing()
    ensures Isqrt(100) == 10
    ensures Listed(Expected(100, Isqrt(100)), true) == [2, 3, 5, 7]
    ensures 11 in Listed(Expected(100, 100), true)
  {
    IsqrtUnique(100, 10);
    var xs := [2, 3, 5, 7];
    forall v ensures v in xs <==> IsPrimeNumber(v) && v <= 10 {
      if v == 4 || v == 6 || v == 8 || v == 10 {
        assert Divides(2, v);
      } else if v == 9 {
        assert Divides(3, 9);
      }
    }
    BaseListing(100, 10, xs);
    assert IsPrimeNumber(11);
    ExpectedListing(100, 100, true);
  }
}
