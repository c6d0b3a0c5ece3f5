/** The number table as the mutable object the sieve works on: an array of
    records, indexed by number - 2, updated in place by loops. Each method
    is proved against the function of module Table that describes its loop,
    so what is proved there about the functions holds of the object. */
module Sieve {
  import opened Table
  import opened Listing

  class PrimeNumbers {
    /** The largest number in the table. */
    const n: int
    /** The records of the numbers 2..n. */
    const primeNumbers: array<PrimeNumber>

    ghost predicate Valid() {
      n >= 1 && primeNumbers.Length == n - 1
    }

    /** The table as a value. */
    ghost function Records(): seq<PrimeNumber>
      reads primeNumbers
    {
      primeNumbers[..]
    }

    /** A new table of n - 1 default records (value 0, not flagged). */
    constructor (n: int)
      requires n >= 1
      ensures this.n == n && Valid() && fresh(primeNumbers)
      ensures Records() == seq(n - 1, _ => PrimeNumber(0, false))
    {
      this.n := n;
      primeNumbers := new PrimeNumber[n - 1](_ => PrimeNumber(0, false));
    }

    /** The indexer's getter: the record of number k. */
    function Get(k: int): (r: PrimeNumber)
      reads primeNumbers
      requires Valid() && 2 <= k <= n
      ensures r == Records()[k - 2]
    {
      primeNumbers[k - BeginPrimeNumber]
    }

    /** The indexer's setter: number k gets a fresh record holding value,
        which clears its base flag; nothing else changes. */
    method Set(k: int, value: int)
      requires Valid() && 2 <= k <= n
      modifies primeNumbers
      ensures Records() == old(Records())[k - 2 := FromValue(value)]
      ensures Get(k) == FromValue(value)
      ensures forall j :: 2 <= j <= n && j != k ==> Get(j) == old(Get(j))
    {
      primeNumbers[k - BeginPrimeNumber] := FromValue(value);
    }

    /** The base values, in table order. */
    function GetBasePrimeNumbers(): (r: seq<int>)
      reads primeNumbers
      requires Valid()
      ensures r == BaseValues(Records())
    {
      BaseValues(primeNumbers[..])
    }

    /** Flags number k as a base prime; nothing else changes. */
    method SetPrimeIsBase(k: int)
      requires Valid() && 2 <= k <= n
      modifies primeNumbers
      ensures Records() == MarkBase(old(Records()), k)
    {
      primeNumbers[k - BeginPrimeNumber] := primeNumbers[k - BeginPrimeNumber].(isBase := true);
    }

    /** Resets the table: every number holds itself, unflagged. */
    method Init()
      requires Valid()
      modifies primeNumbers
      ensures Records() == Fresh(n)
    {
      var i := BeginPrimeNumber;
      while i <= n
        invariant 2 <= i <= n + 1
        invariant forall j :: 0 <= j < i - 2 ==> primeNumbers[j] == FromValue(j + 2)
      {
        Set(i, i);
        i := i + 1;
      }
    }

    /** The listing of the prime values (or, when showBasePrimeNumbers, the
        base ones only): ten per line, each right-aligned to width 5. */
    method ToString(showBasePrimeNumbers: bool) returns (text: string)
      requires Valid()
      ensures text == Render(Listed(Records(), showBasePrimeNumbers))
    {
      var newLineCounter := 0;
      text := "";
      for i := 0 to primeNumbers.Length
        invariant text == Render(Listed(primeNumbers[..i], showBasePrimeNumbers))
        invariant newLineCounter == LineFill(|Listed(primeNumbers[..i], showBasePrimeNumbers)|)
      {
        var primeNumber := primeNumbers[i];
        ghost var shown := Listed(primeNumbers[..i], showBasePrimeNumbers);
        ListedStep(primeNumbers[..i + 1], primeNumbers[..i], primeNumber, showBasePrimeNumbers);
        if primeNumber.IsPrime() {
          if showBasePrimeNumbers && !primeNumber.isBase {
            continue;
          }
          ListingStep(text, newLineCounter, shown, primeNumber.value);
          if newLineCounter % 10 == 0 {
            newLineCounter := 0;
            text := text + NewLine + "\t";
          }
          text := text + Cell(primeNumber.value);
          newLineCounter := newLineCounter + 1;
        }
      }
      assert primeNumbers[..primeNumbers.Length] == primeNumbers[..];
    }

    /** The sequential sieve up to upperBound, flagging each prime it finds. */
    method Eratosthenes(upperBound: int)
      requires Valid() && upperBound <= n
      modifies primeNumbers
      ensures Records() == Sieved(old(Records()), 2, upperBound)
    {
      var p := BeginPrimeNumber;
      while p <= upperBound
        invariant 2 <= p && (p <= upperBound + 1 || upperBound < 2)
        invariant Sieved(old(Records()), 2, upperBound) == Sieved(Records(), p, upperBound)
      {
        if Get(p).IsPrime() {
          OtherPrimeNumbersChecking(p, p, upperBound);
          SetPrimeIsBase(p);
        }
        p := p + 1;
      }
    }

    /** Every number of [primeBegin, primeEnd] flagged base marks the range
        (otherBegin, otherEnd]. */
    method DecompositionEratosthenes(primeBegin: int, primeEnd: int, otherBegin: int, otherEnd: int)
      requires Valid()
      requires primeBegin <= primeEnd ==> 2 <= primeBegin && primeEnd <= n
      requires otherBegin < otherEnd ==> 1 <= otherBegin && otherEnd <= n
      modifies primeNumbers
      ensures Records() == Decomposed(old(Records()), primeBegin, primeEnd, otherBegin, otherEnd)
    {
      var p := primeBegin;
      while p <= primeEnd
        invariant primeBegin <= p && (p <= primeEnd + 1 || primeEnd < primeBegin)
        invariant Decomposed(old(Records()), primeBegin, primeEnd, otherBegin, otherEnd)
               == Decomposed(Records(), p, primeEnd, otherBegin, otherEnd)
      {
        if Get(p).isBase {
          OtherPrimeNumbersChecking(p, otherBegin, otherEnd);
        }
        p := p + 1;
      }
    }

    /** Marks, by currentPrime, every number of (beginCheckingPrime, upperBound]
        that is still prime. */
    method OtherPrimeNumbersChecking(currentPrime: int, beginCheckingPrime: int, upperBound: int)
      requires Valid() && currentPrime != 0
      requires beginCheckingPrime < upperBound ==> 1 <= beginCheckingPrime && upperBound <= n
      modifies primeNumbers
      ensures Records() == Checked(old(Records()), currentPrime, beginCheckingPrime, upperBound)
    {
      var otherPrime := beginCheckingPrime + 1;
      ghost var before := Records();
      CheckedEmptyRange(before, currentPrime, beginCheckingPrime, beginCheckingPrime);
      while otherPrime <= upperBound
        invariant beginCheckingPrime + 1 <= otherPrime
        invariant otherPrime <= upperBound + 1 || otherPrime == beginCheckingPrime + 1
        invariant Records() == Checked(before, currentPrime, beginCheckingPrime, otherPrime - 1)
      {
        if Get(otherPrime).IsPrime() {
          Set(otherPrime, if otherPrime % currentPrime != 0 then otherPrime else NotPrimeNumberValue);
        }
        otherPrime := otherPrime + 1;
      }
      if upperBound <= beginCheckingPrime {
        CheckedEmptyRange(before, currentPrime, beginCheckingPrime, upperBound);
      }
    }
  }

  /** The counter of ToString after c listed values: reset to 0 before every
      tenth value and incremented after each, so it is 1..10 once c > 0. */
  function LineFill(c: nat): nat {
    if c == 0 then 0 else (c - 1) % 10 + 1
  }

  /** One more record of the table: its value is listed after the others
      when it is shown. */
  lemma ListedStep(s: seq<PrimeNumber>, init: seq<PrimeNumber>, last: PrimeNumber, onlyBase: bool)
    requires s == init + [last]
    ensures Shown(last, onlyBase) ==> Listed(s, onlyBase) == Listed(init, onlyBase) + [last.value]
    ensures !Shown(last, onlyBase) ==> Listed(s, onlyBase) == Listed(init, onlyBase)
  {
    assert s[..|s| - 1] == init;
    assert Listed(init, onlyBase) + [] == Listed(init, onlyBase);
  }

  /** One step of the listing loop: appending the line opener when the
      counter is a multiple of ten, then the cell, extends the listing by one
      value, and the reset-and-increment counter follows along. */
  lemma ListingStep(text: string, counter: nat, shown: seq<int>, v: int)
    requires text == Render(shown) && counter == LineFill(|shown|)
    ensures (if counter % 10 == 0 then text + NewLine + "\t" else text) + Cell(v) == Render(shown + [v])
    ensures (if counter % 10 == 0 then 0 else counter) + 1 == LineFill(|shown + [v]|)
  {
    RenderSnoc(shown, v);
    LineFillStep(|shown|);
    if OpensLine(|shown|) {
      ConcatAssoc(text, NewLine, "\t");
      ConcatAssoc(text, NewLine + "\t", Cell(v));
    }
  }

  /** The counter is a multiple of ten exactly when the next value opens a
      line, and the next counter is one more than the (possibly reset) one. */
  lemma LineFillStep(c: nat)
    ensures LineFill(c) % 10 == 0 <==> OpensLine(c)
    ensures LineFill(c + 1) == (if OpensLine(c) then 0 else LineFill(c)) + 1
  {
  }
}
