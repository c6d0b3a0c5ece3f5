/** How the parallel strategies cut their work into m pieces: boundary i is
    the share total * i / m rounded to the nearest integer, ties to even (the
    rounding of Math.Round), taken on the exact rational value. Consecutive
    boundaries delimit the pieces, which together cover the whole range once. */
module Partition {

  /** r is a nearest integer to a / m, and an even one when a / m lies
      exactly half-way between two integers. */
  predicate Nearest(a: int, m: int, r: int) {
    && 2 * (a - m * r) <= m
    && 2 * (m * r - a) <= m
    && ((2 * (a - m * r) == m || 2 * (m * r - a) == m) ==> r % 2 == 0)
  }

  /** a / m rounded to the nearest integer, ties to even (RoundHalfEvenNearest). */
  function RoundHalfEven(a: int, m: int): int
    requires m >= 1
  {
    var q, rem := a / m, a % m;
    if 2 * rem > m || (2 * rem == m && q % 2 == 1) then q + 1 else q
  }

  /** The rounded value is a nearest integer to a / m, the even one on a tie. */
  lemma RoundHalfEvenNearest(a: int, m: int)
    requires m >= 1
    ensures Nearest(a, m, RoundHalfEven(a, m))
  {
    var q, rem := a / m, a % m;
    assert a == m * q + rem;
    assert m * (q + 1) == m * q + m;
  }

  /** Rounding is monotone: of two candidates nearest to a / m and b / m with
      a <= b, the first is not above the second. In particular the nearest
      integer is unique. */
  lemma NearestOrder(a: int, b: int, m: int, x: int, y: int)
    requires m >= 1 && a <= b
    requires Nearest(a, m, x) && Nearest(b, m, y)
    ensures x <= y
  {
    var d := x - y;
    assert m * x == m * y + m * d;
    MulAtLeast(m, d);
    assert d <= 1;
  }

  /** m * d >= 2 * m once d >= 2. */
  lemma MulAtLeast(m: int, d: int)
    requires m >= 1
    ensures d >= 2 ==> m * d >= 2 * m
  {
    assert m * d == m * (d - 2) + 2 * m;
    if d >= 2 {
      assert m * (d - 2) >= 0;
    }
  }

  /** The rounded value is the only nearest integer. */
  lemma RoundHalfEvenUnique(a: int, m: int, r: int)
    requires m >= 1 && Nearest(a, m, r)
    ensures RoundHalfEven(a, m) == r
  {
    RoundHalfEvenNearest(a, m);
    NearestOrder(a, a, m, r, RoundHalfEven(a, m));
    NearestOrder(a, a, m, RoundHalfEven(a, m), r);
  }

  /** Boundary i of total items cut into m pieces. */
  function Share(total: int, m: int, i: int): int
    requires m >= 1
  {
    RoundHalfEven(total * i, m)
  }

  /** The boundaries start at 0, end at total, and never decrease. */
  lemma ShareBounds(total: int, m: int, i: int, j: int)
    requires m >= 1 && 0 <= total && 0 <= i <= j
    ensures Share(total, m, 0) == 0
    ensures Share(total, m, m) == total
    ensures Share(total, m, i) <= Share(total, m, j)
  {
    assert Nearest(total * 0, m, 0);
    RoundHalfEvenUnique(total * 0, m, 0);
    assert m * total == total * m;
    assert Nearest(total * m, m, total);
    RoundHalfEvenUnique(total * m, m, total);
    assert total * i <= total * j by {
      assert total * j == total * i + total * (j - i);
      assert total * (j - i) >= 0;
    }
    RoundHalfEvenNearest(total * i, m);
    RoundHalfEvenNearest(total * j, m);
    NearestOrder(total * i, total * j, m, Share(total, m, i), Share(total, m, j));
  }

  /** Slice i of a cut of len items lies inside [0, len]. */
  lemma SliceAt(len: int, m: int, i: int)
    requires m >= 1 && len >= 0 && 0 <= i < m
    ensures 0 <= Share(len, m, i) <= Share(len, m, i + 1) <= len
  {
    ShareBounds(len, m, 0, i);
    ShareBounds(len, m, i, i + 1);
    ShareBounds(len, m, i + 1, m);
  }

  /** A non-decreasing sequence of boundaries. */
  predicate Ascending(bs: seq<int>) {
    forall i, j :: 0 <= i <= j < |bs| ==> bs[i] <= bs[j]
  }

  /** Piece i of the boundaries bs holds k: k lies in (bs[i], bs[i + 1]]. */
  predicate InPiece(bs: seq<int>, i: int, k: int) {
    0 <= i < |bs| - 1 && bs[i] < k <= bs[i + 1]
  }

  /** Non-decreasing boundaries tile (first, last]: every k there lies in
      exactly one piece, and no k outside lies in any. */
  lemma {:induction false} Tiling(bs: seq<int>, k: int)
    requires |bs| >= 1 && Ascending(bs)
    ensures bs[0] < k <= bs[|bs| - 1] ==> exists i :: InPiece(bs, i, k)
    ensures forall i, j :: InPiece(bs, i, k) && InPiece(bs, j, k) ==> i == j
    ensures (exists i :: InPiece(bs, i, k)) ==> bs[0] < k <= bs[|bs| - 1]
    decreases |bs|
  {
    if bs[0] < k <= bs[|bs| - 1] {
      if k <= bs[|bs| - 2] {
        var init := bs[..|bs| - 1];
        Tiling(init, k);
        var i :| InPiece(init, i, k);
        assert InPiece(bs, i, k);
      } else {
        assert InPiece(bs, |bs| - 2, k);
      }
    }
    if exists i :: InPiece(bs, i, k) {
      var i :| InPiece(bs, i, k);
      assert bs[0] <= bs[i] && bs[i + 1] <= bs[|bs| - 1];
    }
  }

  /** The m + 1 boundaries of a cut of total items into m pieces, shifted by lo. */
  function Boundaries(lo: int, total: int, m: int): (bs: seq<int>)
    requires m >= 1
    ensures |bs| == m + 1
  {
    seq(m + 1, i => lo + Share(total, m, i))
  }

  /** The boundaries run from lo to lo + total without decreasing, so the
      pieces (bs[i], bs[i + 1]] cover (lo, lo + total] once each. */
  lemma BoundariesTile(lo: int, total: int, m: int, k: int)
    requires m >= 1 && total >= 0
    ensures Boundaries(lo, total, m)[0] == lo
    ensures Boundaries(lo, total, m)[m] == lo + total
    ensures Ascending(Boundaries(lo, total, m))
    ensures lo < k <= lo + total <==> exists i :: InPiece(Boundaries(lo, total, m), i, k)
    ensures forall i, j :: InPiece(Boundaries(lo, total, m), i, k) && InPiece(Boundaries(lo, total, m), j, k) ==> i == j
  {
    var bs := Boundaries(lo, total, m);
    ShareBounds(total, m, 0, 0);
    forall i, j | 0 <= i <= j < |bs| ensures bs[i] <= bs[j] {
      ShareBounds(total, m, i, j);
    }
    Tiling(bs, k);
  }

  /** Index k lies in slice i of the prime-index split of len indices into m
      slices: [Share(len, m, i), Share(len, m, i + 1)). */
  predicate InSlice(len: int, m: int, i: int, k: int)
    requires m >= 1
  {
    0 <= i < m && Share(len, m, i) <= k < Share(len, m, i + 1)
  }

  /** Every index of [0, len) lies in exactly one slice, and no other index
      in any (slices may be empty when m exceeds len). */
  lemma PrimeSplitTiles(len: int, m: int, k: int)
    requires m >= 1 && len >= 0
    ensures 0 <= k < len <==> exists i :: InSlice(len, m, i, k)
    ensures forall i, j :: InSlice(len, m, i, k) && InSlice(len, m, j, k) ==> i == j
  {
    var bs, next := Boundaries(0, len, m), k + 1;
    BoundariesTile(0, len, m, next);
    forall i | 0 <= i < m ensures InSlice(len, m, i, k) <==> InPiece(bs, i, next) {
      assert bs[i] == Share(len, m, i) && bs[i + 1] == Share(len, m, i + 1);
    }
    if exists i :: InPiece(bs, i, next) {
      var i :| InPiece(bs, i, next);
      assert InSlice(len, m, i, k);
    }
  }
}
