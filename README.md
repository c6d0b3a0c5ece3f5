# Sieve of Eratosthenes with parallel decomposition strategies

This project models the search for prime numbers in `lab3/lab3/Program.cs`.

The search uses a table of the numbers 2..n. Each number has a record with two parts:
- the number itself, or the sentinel -1 once it is known to be composite;
- a "base prime" flag.

A sequential sieve settles the numbers up to a bound and flags the primes it finds as base primes. A decomposition step then lets a range of base primes mark the still-prime numbers of a candidate range.

The driver resets the table and runs one of six strategies:
- **Full**: the full sequential sieve up to n.
- **Modified**: the sieve up to isqrt(n), then one decomposition of (isqrt(n), n].
- **Data decomposition**: (isqrt(n), n] is cut into m rounded pieces, and each worker runs all base primes over its piece.
- **Base-prime decomposition**: the list of base primes is cut into m rounded index slices.
- **Pool**: one task per base prime.
- **Shared counter**: m workers claim base-prime indices from a shared counter until the list is exhausted.

Afterwards the driver can print a listing of the base primes: ten values per line, each right-aligned to width 5, every line opened by a line break and a tab.

## How the model is organised

- `numbers.dfy` (module `Numbers`):
  - divisibility and primality;
  - the integer square root `Isqrt`, which is `SqrtN`;
  - the fact that a composite number has a prime factor no larger than its square root.
- `table.dfy` (module `Table`):
  - the record `PrimeNumber` and the table as a value;
  - functions that describe, step for step, the loops of the table class: `Checked`, `Sieved`, `Decomposed`, `BaseValues`;
  - their closed forms `PartialSieved` and `Expected`, with the lemmas that connect the two.
- `listing.dfy` (module `Listing`):
  - the listing text: decimal digits, padding to width 5, and the layout of ten cells per line;
  - a line-by-line reference layout;
  - the filter of shown records.
- `sieve.dfy` (module `Sieve`):
  - the table class `PrimeNumbers`, whose records live in an `array` updated in place;
  - each method is proved against the function of `Table` that describes its loop.
- `partition.dfy` (module `Partition`):
  - the rounding of `Math.Round` (to the nearest integer, ties to even), taken on the exact rational value;
  - the boundaries of a cut into m pieces, and the proof that the pieces tile the range.
- `work_units.dfy` (module `WorkUnits`):
  - every thread or pool body as a list of work units, each unit one call of the decomposition loop;
  - the closed form of running units, which shows that their order does not matter;
  - the unit lists of the data and per-prime strategies.
- `strategies.dfy` (module `Strategies`):
  - the class `SearchForPrimeNumbers` with the strategies and the driver `Processing`;
  - each worker's body runs in turn, worker after worker, and the loop invariants tie the table to the run of the units so far.

The base primes follow the code. Only the Full strategy flags every prime up to n as a base prime. The other five strategies flag only the primes up to isqrt(n), so their base listing shows exactly those primes:
- for n = 100 it is 2, 3, 5, 7 (`HundredBaseListing`);
- for n = 2 it is empty (`TwoBaseListing`).

All strategies leave the same set of prime numbers in the table (`PrimeListingAgrees`).

## Model

| member | source | states |
|---|---|---|
| Numbers.IsqrtSpec | lab3/lab3/Program.cs:199 | SqrtN, the truncated square root, is the integer square root: its square is at most n and the square of its successor exceeds n |
| Numbers.IsqrtUnique | lab3/lab3/Program.cs:199 | the integer square root is the only r with r*r <= n < (r+1)*(r+1) |
| Numbers.IsqrtRange | lab3/lab3/Program.cs:199 | for n >= 1, 1 <= SqrtN <= n, so every bound derived from it lies inside the table |
| Numbers.SmallPrimeFactor | lab3/lab3/Program.cs:284-288 | a composite number has a prime factor p with p*p <= k |
| Numbers.CompositeAboveRoot | lab3/lab3/Program.cs:284-288 | for isqrt(n) < k <= n, k is composite exactly when some prime up to isqrt(n) divides it, which is why base primes up to SqrtN suffice |
| Table.CheckedEffect | lab3/lab3/Program.cs:173-182 | one marking pass leaves records outside (b, u] and composite records alone; a still-prime record in range is rewritten through the indexer to its own number, or to the sentinel exactly when p divides it, with its base flag cleared; the pass never sets a base flag |
| Table.CheckedEmptyRange | lab3/lab3/Program.cs:175 | a pass over an empty range (u <= b) changes nothing |
| Table.CheckedCommute | lab3/lab3/Program.cs:173-182 | two marking passes commute, so the order in which primes mark does not matter |
| Table.CheckedIdempotent | lab3/lab3/Program.cs:173-182 | marking twice by the same prime over the same range is marking once |
| Table.SieveStep | lab3/lab3/Program.cs:141-148 | one iteration of the sieve loop keeps its invariant: below p settled, in [p, u] composite exactly when a number of [2, p) divides, above u untouched |
| Table.SieveCorrect | lab3/lab3/Program.cs:139-149 | the sieve up to u on a fresh table settles every number up to u (primes flagged base, composites the sentinel) and leaves the rest as initialised |
| Table.FullSieveCorrect | lab3/lab3/Program.cs:277-280 | the full sieve leaves every prime up to n holding itself and flagged base, and every composite the sentinel |
| Table.DecomposedEffect | lab3/lab3/Program.cs:157-166 | the decomposition loop changes only the candidates of (ob, oe]; on a plain table it turns a candidate into the sentinel exactly when a base-flagged number of [p, pe] divides it |
| Table.HitAboveRoot | lab3/lab3/Program.cs:284-288 | above isqrt(n), a number is hit by a base prime of the sieved prefix exactly when it is composite |
| Table.ModifiedSieveCorrect | lab3/lab3/Program.cs:284-288 | the sieve up to SqrtN followed by the default decomposition gives the finished table, with base flags exactly on the primes up to SqrtN |
| Table.ExpectedIsPrime | lab3/lab3/Program.cs:40 | in the finished table a record's IsPrime (value not the sentinel) holds exactly when its number is a prime number, and then the record holds that number |
| Table.BaseValuesSpec | lab3/lab3/Program.cs:72 | the base values are exactly the values of flagged records; when flagged records hold their own number they are strictly ascending |
| Table.BaseValuesOfSieved | lab3/lab3/Program.cs:72 | after the sieve up to r, the base values are exactly the primes up to r, strictly ascending |
| Listing.DecimalDigits | lab3/lab3/Program.cs:126 | the decimal text of a value is a non-empty digit string with no leading zero |
| Listing.DecimalRoundTrip | lab3/lab3/Program.cs:126 | the decimal text of a value reads back as that value |
| Listing.PadLeftSpec | lab3/lab3/Program.cs:126 | alignment to width 5 keeps the text as the suffix, fills the rest with spaces, and is at least 5 wide |
| Listing.RenderIsLines | lab3/lab3/Program.cs:107-133 | the listing equals the line-by-line layout: a line break and a tab, then up to ten cells, line after line |
| Listing.RenderEmpty | lab3/lab3/Program.cs:107-133 | the listing is empty exactly when no value is shown |
| Listing.RenderSnoc | lab3/lab3/Program.cs:121-128 | showing one more value appends its cell, preceded by a line opener when it is the 0th, 10th, 20th ... value |
| Listing.ListedSpec | lab3/lab3/Program.cs:112-119 | a value is shown exactly when some record holding it is prime and, in the base listing, flagged; shown values are strictly ascending when prime records hold their own number |
| Listing.ExpectedListing | lab3/lab3/Program.cs:107-133 | on the finished table the listing shows exactly the primes up to n (base listing: up to the base bound), ascending |
| Listing.ListedBaseIsBaseValues | lab3/lab3/Program.cs:72 | when every flagged record is prime, the base listing shows exactly the base values |
| Sieve.PrimeNumbers.constructor | lab3/lab3/Program.cs:86-91 | a table of n - 1 default records (value 0, unflagged) |
| Sieve.PrimeNumbers.Get | lab3/lab3/Program.cs:66 | the indexer's getter returns the record of number k, entry k - 2 of the table |
| Sieve.PrimeNumbers.Set | lab3/lab3/Program.cs:64-68 | the indexer's setter writes a record built from the value, which clears the base flag; reading k back gives that record, and reading any other number gives what it gave before |
| Sieve.PrimeNumbers.GetBasePrimeNumbers | lab3/lab3/Program.cs:72 | the base values in table order (with BaseValuesSpec: the flagged records' values) |
| Sieve.PrimeNumbers.SetPrimeIsBase | lab3/lab3/Program.cs:77-80 | flags the record of k, keeping its value; no other record changes |
| Sieve.PrimeNumbers.Init | lab3/lab3/Program.cs:95-101 | every number holds itself, unflagged |
| Sieve.PrimeNumbers.ToString | lab3/lab3/Program.cs:107-133 | the text is the listing of the shown values, with the counter reset before every tenth value |
| Sieve.PrimeNumbers.Eratosthenes | lab3/lab3/Program.cs:139-149 | the table after the loop is Sieved of the table before it (with SieveCorrect: settled up to the bound) |
| Sieve.PrimeNumbers.DecompositionEratosthenes | lab3/lab3/Program.cs:157-166 | the table after the loop is Decomposed of the table before it (with DecomposedEffect: what it marks) |
| Sieve.PrimeNumbers.OtherPrimeNumbersChecking | lab3/lab3/Program.cs:173-182 | the table after the loop is Checked of the table before it (with CheckedEffect: what one pass does) |
| Sieve.ListedStep | lab3/lab3/Program.cs:112-119 | one more record extends the shown values by its value exactly when it is prime and passes the base filter |
| Sieve.ListingStep | lab3/lab3/Program.cs:121-128 | one loop step (line opener on a counter multiple of ten, then the cell) extends the listing by one value and keeps the counter in step |
| Sieve.LineFillStep | lab3/lab3/Program.cs:121-128 | the counter is a multiple of ten exactly when the next value opens a line |
| Partition.RoundHalfEvenNearest | lab3/lab3/Program.cs:299-300 | the rounded boundary is a nearest integer to the exact quotient, the even one on a tie |
| Partition.RoundHalfEvenUnique | lab3/lab3/Program.cs:299-300 | the rounded value is the only such integer |
| Partition.NearestOrder | lab3/lab3/Program.cs:299-300 | rounding is monotone |
| Partition.ShareBounds | lab3/lab3/Program.cs:296-300 | boundary 0 is 0, boundary m is the total, and boundaries never decrease |
| Partition.SliceAt | lab3/lab3/Program.cs:327-328 | every index slice lies inside [0, number of base primes] |
| Partition.Tiling | lab3/lab3/Program.cs:297-300 | non-decreasing boundaries tile (first, last]: each number lies in exactly one piece, and no number outside lies in any |
| Partition.BoundariesTile | lab3/lab3/Program.cs:296-300 | the data pieces run from SqrtN to n and cover (SqrtN, n] once each |
| Partition.PrimeSplitTiles | lab3/lab3/Program.cs:324-334 | every base-prime index lies in exactly one slice, and no other index in any |
| WorkUnits.RunUnitsClosed | lab3/lab3/Program.cs:157-166 | running work units on a sieved prefix marks exactly the candidates some unit's base prime divides |
| WorkUnits.MarkedStep | lab3/lab3/Program.cs:157-166 | one more unit that fits the square-root bound, run on the closed form of a list, gives the closed form of the longer list |
| WorkUnits.RunUnitsOrderFree | lab3/lab3/Program.cs:304-314 | units with the same members, in any order, leave the same table, so how whole units interleave does not matter |
| WorkUnits.DataUnitAt | lab3/lab3/Program.cs:299-300 | worker i's candidate piece is (SqrtN + Share(i), SqrtN + Share(i+1)] and lies inside (SqrtN, n] |
| WorkUnits.WholeUnitCorrect | lab3/lab3/Program.cs:284-288 | the single unit of the modified sieve on the sieved prefix gives the finished table |
| WorkUnits.DataUnitsMarks | lab3/lab3/Program.cs:296-314 | the data pieces together mark exactly what the whole unit marks |
| WorkUnits.PieceUnitsMarks | lab3/lab3/Program.cs:304-311 | pieces that tile (SqrtN, n], each run by all base primes, fit the bound and together mark what the whole range marks |
| WorkUnits.DataUnitsCorrect | lab3/lab3/Program.cs:292-315 | the data decomposition's units give the finished table |
| WorkUnits.PrimeUnitsMarks | lab3/lab3/Program.cs:334-341 | one unit per base prime marks exactly what the whole unit marks |
| WorkUnits.PrimeUnitsCorrect | lab3/lab3/Program.cs:351-376 | the per-prime units over the base primes give the finished table |
| WorkUnits.DataStrategy | lab3/lab3/Program.cs:292-315 | the data units fit the table left by the sieve up to SqrtN and finish it |
| WorkUnits.PrimeStrategy | lab3/lab3/Program.cs:319-418 | the base primes left by the sieve up to SqrtN lie in [2, SqrtN], and their per-prime units finish the table |
| Strategies.SearchForPrimeNumbers.constructor | lab3/lab3/Program.cs:207-212 | n numbers, m workers, and a fresh table of n - 1 records |
| Strategies.SearchForPrimeNumbers.DecompositionEratosthenes | lab3/lab3/Program.cs:255-262 | the table's decomposition with omitted arguments defaulting, as in the source, to 2, SqrtN, SqrtN and n |
| Strategies.SearchForPrimeNumbers.FullEratosthenes | lab3/lab3/Program.cs:277-280 | the finished table with every prime flagged base |
| Strategies.SearchForPrimeNumbers.ModifiedEratosthenes | lab3/lab3/Program.cs:284-288 | the finished table with the primes up to SqrtN flagged base |
| Strategies.SearchForPrimeNumbers.DataDecompositionEratosthenes | lab3/lab3/Program.cs:292-315 | the finished table; after worker i the table is the run of the first i data units |
| Strategies.SearchForPrimeNumbers.RunDataWorkers | lab3/lab3/Program.cs:297-314 | after the m workers of the data split the table is the run of all data units |
| Strategies.SearchForPrimeNumbers.DecomposePiece | lab3/lab3/Program.cs:304-311 | worker i's body extends the run of data units by its piece's unit |
| Strategies.SearchForPrimeNumbers.SieveBasePrimes | lab3/lab3/Program.cs:321-323 | the sieve up to SqrtN followed by the list of base primes: the list is the base values, each in [2, SqrtN], and the per-prime units over it, run from that table, finish it |
| Strategies.SearchForPrimeNumbers.DecomposeByBasePrime | lab3/lab3/Program.cs:364-368 | decomposing by the base prime at an index extends the run of per-prime units by that unit |
| Strategies.SearchForPrimeNumbers.DecomposeSlice | lab3/lab3/Program.cs:332-343 | worker i's body extends the run of per-prime units from its slice's first index to its last |
| Strategies.SearchForPrimeNumbers.BasePrimeDecompositionEratosthenes | lab3/lab3/Program.cs:319-347 | the finished table; after worker i the table is the run of the units of slices 0..i |
| Strategies.SearchForPrimeNumbers.EveryBasePrimeDecompositionEratosthenes | lab3/lab3/Program.cs:351-376 | the finished table; after task i the table is the run of the first i per-prime units |
| Strategies.SearchForPrimeNumbers.ParallelSerialHandleBasePrimeDecompositionEratosthenes | lab3/lab3/Program.cs:380-418 | the finished table; the shared counter hands out each index once, in order, and ends m past the list length |
| Strategies.SearchForPrimeNumbers.Processing | lab3/lab3/Program.cs:227-247 | after reset and strategy the table is finished, with base flags up to n (full) or SqrtN; the shown text (shown by default, as in the source) is the base listing of that table |
| Strategies.PrimeListingAgrees | lab3/lab3/Program.cs:216-220 | every strategy leaves the same listing of prime numbers |
| Strategies.BaseListing | lab3/lab3/Program.cs:243 | the base listing of the finished table is the ascending list of the primes up to the base bound |
| Strategies.TwoBaseListing | lab3/lab3/Program.cs:243 | for n = 2 the square-root strategies list no base prime, while the full sieve lists 2 |
| Strategies.HundredBaseListing | lab3/lab3/Program.cs:207-220 | for n = 100 the square-root strategies list the base primes 2 3 5 7, while the full sieve's base primes include 11 |

## Left out

- Threads, `Thread.Join`, the thread pool, `CountdownEvent` and `Interlocked.Increment`: every worker's body runs as a whole, one worker after another. The claims of the shared counter are modelled as sequential increments. `RunUnitsOrderFree` shows that the order of whole units does not matter. Interleavings inside a unit, and races between marking and reading a record, are not modelled.
- The `threads` array and `Thread` objects: not modelled, because the workers run in turn.
- `Math.Sqrt` and `Math.Round` on `double`: modelled on exact integers and rationals. `SqrtN` is the exact integer square root. The piece boundaries are the exact quotient rounded half to even. Floating-point error is not modelled.
- `Stopwatch`, the console output, `processingTraceCounter`, the trace line, `Run` (its fixed n = 100, m = 4 and the sequence of calls) and `Main`: I/O and timing. `Processing` returns the text it would print, and only for the base listing.
- The `#if SEQ` block: a build switch. `Processing(Full, false)` covers it.
- `Environment.NewLine` is fixed to `"\n"`, and number formatting is the invariant decimal form. Culture-dependent formatting is not modelled.
- 32-bit `int` overflow is not modelled. Values are unbounded integers, and every index stays within the table.
- `SearchForPrimeNumbers.GetBasePrimeNumbers` (lines 266-272) only forwards to the table's method, so the strategies call `GetBasePrimeNumbers` of the table directly.
- `PrimeNumber.ToString` returns null for the sentinel. It is only called on prime records, so the model uses the value's decimal text.
- The implicit conversions between `int` and `PrimeNumber` are modelled as `FromValue` and `.value`.
- Table.PrimeNumber.IsPrime: no contract of its own, since it is the sentinel comparison of line 40. `ExpectedIsPrime` states what it means on the finished table, and `CheckedEffect` states how a marking pass changes it.
- `Strategies.SearchForPrimeNumbers.SqrtN`: no contract of its own. Its meaning is stated by `IsqrtSpec`, `IsqrtUnique` and `IsqrtRange`.
- Strategies.SearchForPrimeNumbers.FullEratosthenes: specified only from a freshly initialised table, the only state `Processing` calls it in.
- Strategies.SearchForPrimeNumbers.ModifiedEratosthenes: specified only from a freshly initialised table, as above.
- Strategies.SearchForPrimeNumbers.DataDecompositionEratosthenes: specified only from a freshly initialised table, as above.
- Strategies.SearchForPrimeNumbers.BasePrimeDecompositionEratosthenes: specified only from a freshly initialised table, as above.
- Strategies.SearchForPrimeNumbers.EveryBasePrimeDecompositionEratosthenes: specified only from a freshly initialised table, as above.
- Strategies.SearchForPrimeNumbers.ParallelSerialHandleBasePrimeDecompositionEratosthenes: specified only from a freshly initialised table, as above.
- The class requires n >= 1 and m >= 1:
  - With n = 0 the array size would be negative.
  - With m = 0 the data and slice strategies would run no worker at all.
- The thread bodies are methods of their own:
  - algorithm 1: `DecomposePiece`, with its loop of workers in `RunDataWorkers`;
  - algorithm 2: `DecomposeSlice`;
  - algorithm 3: `DecomposeByBasePrime`.
- Algorithm 4 runs its workers' claim loops inline.
- The common start of algorithms 2 to 4 (the sieve up to SqrtN, then the base primes) is the method `SieveBasePrimes`.
