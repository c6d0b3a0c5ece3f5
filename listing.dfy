/** The textual listing of the table: the values of the listed records, each
    right-aligned in a cell of width 5, ten to a line, every line opened by a
    line break and a tab. */
module Listing {
  import opened Numbers
  import opened Table

  /** The line terminator, fixed here (Environment.NewLine in the program). */
  const NewLine: string := "\n"
  /** Width every value is right-aligned to. */
  const CellWidth: nat := 5

  function DigitChar(d: int): char
    requires 0 <= d < 10
  {
    ('0' as int + d) as char
  }

  function DigitValue(c: char): int {
    c as int - '0' as int
  }

  /** Decimal digits of x, most significant first. */
  function Decimal(x: nat): string
    decreases x
  {
    if x < 10 then [DigitChar(x)] else Decimal(x / 10) + [DigitChar(x % 10)]
  }

  /** The decimal text is a non-empty string of digits without a leading zero. */
  lemma {:induction false} DecimalDigits(x: nat)
    ensures 1 <= |Decimal(x)|
    ensures forall i :: 0 <= i < |Decimal(x)| ==> '0' <= Decimal(x)[i] <= '9'
    ensures |Decimal(x)| > 1 ==> Decimal(x)[0] != '0'
    decreases x
  {
    if x >= 10 {
      DecimalDigits(x / 10);
    }
  }

  /** Reads a string of decimal digits back as a number. */
  function ParseDecimal(s: string): int
    decreases |s|
  {
    if s == [] then 0 else 10 * ParseDecimal(s[..|s| - 1]) + DigitValue(s[|s| - 1])
  }

  /** The decimal text of a value reads back as that value. */
  lemma {:induction false} DecimalRoundTrip(x: nat)
    ensures ParseDecimal(Decimal(x)) == x
    decreases x
  {
    if x >= 10 {
      DecimalRoundTrip(x / 10);
      var s := Decimal(x);
      assert s[..|s| - 1] == Decimal(x / 10);
    }
  }

  /** The decimal text of an integer, with a leading minus sign when negative. */
  function IntegerText(x: int): string {
    if x < 0 then "-" + Decimal(-x) else Decimal(x)
  }

  /** s right-aligned in a field of the given width: padded on the left with
      spaces, never cut. */
  function PadLeft(s: string, width: nat): string {
    if |s| < width then seq(width - |s|, _ => ' ') + s else s
  }

  /** Padding keeps the text as the suffix, fills the rest with spaces and
      yields at least the requested width. */
  lemma PadLeftSpec(s: string, width: nat)
    ensures |PadLeft(s, width)| == if |s| < width then width else |s|
    ensures PadLeft(s, width)[|PadLeft(s, width)| - |s|..] == s
    ensures forall i :: 0 <= i < |PadLeft(s, width)| - |s| ==> PadLeft(s, width)[i] == ' '
  {
  }

  /** The cell of one value. */
  function Cell(v: int): string {
    PadLeft(IntegerText(v), CellWidth)
  }

  /** The j-th listed value opens a line: j is 0, 10, 20, ... */
  predicate OpensLine(j: int) {
    j % 10 == 0
  }

  /** The text for the j-th cell: a line break and a tab before every tenth
      cell (j = 0, 10, 20, ...), then the cell. */
  function Entry(j: nat, cell: string): string {
    if OpensLine(j) then NewLine + "\t" + cell else cell
  }

  /** The cells laid out one after another, ten to a line. */
  function Layout(cells: seq<string>): string
    decreases |cells|
  {
    if cells == [] then ""
    else Layout(cells[..|cells| - 1]) + Entry(|cells| - 1, cells[|cells| - 1])
  }

  /** The cell of every value, in order. */
  function Formatted(items: seq<int>): seq<string> {
    seq(|items|, i requires 0 <= i < |items| => Cell(items[i]))
  }

  /** The listing of a sequence of values. */
  function Render(items: seq<int>): string {
    Layout(Formatted(items))
  }

  /** The strings of a chunk, concatenated. */
  function Concat(chunk: seq<string>): string
    decreases |chunk|
  {
    if chunk == [] then "" else Concat(chunk[..|chunk| - 1]) + chunk[|chunk| - 1]
  }

  /** One line of the listing. */
  function Line(chunk: seq<string>): string {
    NewLine + "\t" + Concat(chunk)
  }

  /** The layout, line by line: ten cells per line, the last line shorter. */
  function LayoutByLines(cells: seq<string>): string
    decreases |cells|
  {
    if cells == [] then ""
    else if |cells| <= 10 then Line(cells)
    else Line(cells[..10]) + LayoutByLines(cells[10..])
  }

  lemma NotLineStart(j: int)
    requires 0 < j < 10
    ensures !OpensLine(j)
  {
  }

  lemma {:induction false} LineStartShift(q: nat, j: int)
    ensures OpensLine(10 * q + j) == OpensLine(j)
    decreases q
  {
    if q > 0 {
      LineStartShift(q - 1, j);
      assert 10 * q + j == (10 * (q - 1) + j) + 10;
    }
  }

  lemma EntryShift(q: nat, j: nat, k: nat, cell: string)
    requires k == 10 * q + j
    ensures Entry(k, cell) == Entry(j, cell)
  {
    LineStartShift(q, j);
  }

  lemma ConcatAssoc<T>(x: seq<T>, y: seq<T>, z: seq<T>)
    ensures (x + y) + z == x + (y + z)
  {
  }

  /** Within a chunk of at most ten cells that starts a line, only the first
      cell opens a line. */
  lemma {:induction false} LayoutChunk(chunk: seq<string>)
    requires 0 < |chunk| <= 10
    ensures Layout(chunk) == Line(chunk)
    decreases |chunk|
  {
    var init, last := chunk[..|chunk| - 1], chunk[|chunk| - 1];
    assert Layout(chunk) == Layout(init) + Entry(|chunk| - 1, last);
    assert Concat(chunk) == Concat(init) + last;
    if |chunk| > 1 {
      LayoutChunk(init);
      NotLineStart(|chunk| - 1);
      ConcatAssoc(NewLine + "\t", Concat(init), last);
    } else {
      assert Layout(init) == "" && Concat(init) == "";
    }
  }

  /** Laying out a prefix whose length is a multiple of ten, then the rest,
      is laying out the whole. */
  lemma {:induction false} LayoutAppend(a: seq<string>, b: seq<string>, q: nat)
    requires |a| == 10 * q
    ensures Layout(a + b) == Layout(a) + Layout(b)
    decreases |b|
  {
    if b == [] {
      assert a + b == a;
    } else {
      var init, last := b[..|b| - 1], b[|b| - 1];
      var j, k := |b| - 1, |a + b| - 1;
      assert (a + b)[..k] == a + init;
      assert (a + b)[k] == last;
      LayoutAppend(a, init, q);
      EntryShift(q, j, k, last);
      assert Layout(a + b) == Layout(a + init) + Entry(k, last);
      assert Layout(b) == Layout(init) + Entry(j, last);
      ConcatAssoc(Layout(a), Layout(init), Entry(j, last));
    }
  }

  /** The cell-by-cell layout equals the line-by-line one. */
  lemma {:induction false} LayoutIsLines(cells: seq<string>)
    ensures Layout(cells) == LayoutByLines(cells)
    decreases |cells|
  {
    if cells == [] {
    } else if |cells| <= 10 {
      LayoutChunk(cells);
    } else {
      var head, tail := cells[..10], cells[10..];
      LayoutChunk(head);
      LayoutIsLines(tail);
      LayoutAppend(head, tail, 1);
      assert head + tail == cells;
    }
  }

  /** The listing is the line-by-line layout of the values' cells: a line
      break and a tab, then up to ten right-aligned cells, line after line. */
  lemma RenderIsLines(items: seq<int>)
    ensures Render(items) == LayoutByLines(Formatted(items))
  {
    LayoutIsLines(Formatted(items));
  }

  /** The listing is empty exactly when there is nothing to list. */
  lemma RenderEmpty(items: seq<int>)
    ensures Render(items) == "" <==> items == []
  {
    if items != [] {
      LayoutIsLines(Formatted(items));
      assert Render(items)[0] == '\n';
    }
  }

  /** Appending one value to the listed values appends its entry to the listing. */
  lemma RenderSnoc(items: seq<int>, v: int)
    ensures Render(items + [v]) == Render(items) + Entry(|items|, Cell(v))
  {
    var cells := Formatted(items + [v]);
    assert cells[..|items|] == Formatted(items);
    assert cells[|items|] == Cell(v);
  }

  /** A record is shown when it is still prime and, when only base primes
      are asked for, flagged base. */
  predicate Shown(r: PrimeNumber, onlyBase: bool) {
    r.IsPrime() && (!onlyBase || r.isBase)
  }

  /** The values a listing shows, in table order. */
  function Listed(s: seq<PrimeNumber>, onlyBase: bool): seq<int>
    decreases |s|
  {
    if s == [] then []
    else Listed(s[..|s| - 1], onlyBase) + (if Shown(s[|s| - 1], onlyBase) then [s[|s| - 1].value] else [])
  }

  /** Every record still prime holds its own number. */
  ghost predicate PrimesHoldNumber(s: seq<PrimeNumber>) {
    forall i :: 0 <= i < |s| && s[i].IsPrime() ==> s[i].value == i + 2
  }

  /** The listing shows exactly the values of the shown records; when every
      prime record holds its own number it is strictly ascending and below
      |s| + 2. */
  lemma {:induction false} ListedSpec(s: seq<PrimeNumber>, onlyBase: bool)
    ensures forall v :: v in Listed(s, onlyBase) <==> exists i :: 0 <= i < |s| && Shown(s[i], onlyBase) && s[i].value == v
    ensures PrimesHoldNumber(s) ==> StrictlyAscending(Listed(s, onlyBase)) && forall v :: v in Listed(s, onlyBase) ==> v < |s| + 2
    decreases |s|
  {
    if s != [] {
      var init := s[..|s| - 1];
      var prev := Listed(init, onlyBase);
      ListedSpec(init, onlyBase);
      forall v ensures v in Listed(s, onlyBase) <==> exists i :: 0 <= i < |s| && Shown(s[i], onlyBase) && s[i].value == v {
        if v in Listed(s, onlyBase) && v !in prev {
          assert Shown(s[|s| - 1], onlyBase) && s[|s| - 1].value == v;
        }
        if exists i :: 0 <= i < |s| && Shown(s[i], onlyBase) && s[i].value == v {
          var i :| 0 <= i < |s| && Shown(s[i], onlyBase) && s[i].value == v;
          if i < |s| - 1 { assert init[i] == s[i]; }
        }
      }
      if PrimesHoldNumber(s) {
        assert PrimesHoldNumber(init) by {
          forall i | 0 <= i < |init| && init[i].IsPrime() ensures init[i].value == i + 2 {
            assert init[i] == s[i];
          }
        }
        var xs := Listed(s, onlyBase);
        assert forall v :: v in prev ==> v < |s| + 1;
        forall i, j | 0 <= i < j < |xs| ensures xs[i] < xs[j] {
          if j >= |prev| {
            assert xs[j] == |s| + 1;
            assert xs[i] in prev;
          } else {
            assert xs[i] == prev[i] && xs[j] == prev[j];
          }
        }
      }
    }
  }

  /** The listing of the finished table: the prime numbers up to n in
      ascending order, or, for the base listing, those up to r. */
  lemma ExpectedListing(n: int, r: int, onlyBase: bool)
    requires n >= 1
    ensures StrictlyAscending(Listed(Expected(n, r), onlyBase))
    ensures forall v :: v in Listed(Expected(n, r), onlyBase) <==> IsPrimeNumber(v) && v <= n && (onlyBase ==> v <= r)
  {
    var s := Expected(n, r);
    assert PrimesHoldNumber(s) by {
      forall i | 0 <= i < |s| && s[i].IsPrime() ensures s[i].value == i + 2 {
      }
    }
    ListedSpec(s, onlyBase);
    var xs := Listed(s, onlyBase);
    forall v | IsPrimeNumber(v) && v <= n && (onlyBase ==> v <= r) ensures v in xs {
      assert Shown(s[v - 2], onlyBase) && s[v - 2].value == v;
    }
    forall v | v in xs ensures IsPrimeNumber(v) && v <= n && (onlyBase ==> v <= r) {
      var i :| 0 <= i < |s| && Shown(s[i], onlyBase) && s[i].value == v;
      assert IsPrimeNumber(i + 2);
    }
  }

  /** Two strictly ascending sequences with the same members are equal. */
  lemma {:induction false} AscendingUnique(xs: seq<int>, ys: seq<int>)
    requires StrictlyAscending(xs) && StrictlyAscending(ys)
    requires forall v :: v in xs <==> v in ys
    ensures xs == ys
    decreases |xs|
  {
    if xs != [] {
      assert xs[0] in xs;
    }
    if ys != [] {
      assert ys[0] in ys;
    }
    if xs != [] {
      assert xs[0] == ys[0] by {
        assert xs[0] in ys && ys[0] in xs;
      }
      forall v ensures v in xs[1..] <==> v in ys[1..] {
        if v in xs[1..] {
          assert v in ys && v != ys[0];
        }
        if v in ys[1..] {
          assert v in xs && v != xs[0];
        }
      }
      AscendingUnique(xs[1..], ys[1..]);
      assert xs == [xs[0]] + xs[1..] && ys == [ys[0]] + ys[1..];
    }
  }

  /** When every flagged record is still prime, the base-only listing shows
      exactly the base values. */
  lemma {:induction false} ListedBaseIsBaseValues(s: seq<PrimeNumber>)
    requires forall i :: 0 <= i < |s| && s[i].isBase ==> s[i].IsPrime()
    ensures Listed(s, true) == BaseValues(s)
    decreases |s|
  {
    if s != [] {
      ListedBaseIsBaseValues(s[..|s| - 1]);
    }
  }
}
