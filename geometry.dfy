/**
 * Screen geometry shared by the widgets: the Win32 POINT and RECT records
 * and row-major indexing into a flat top-down pixel buffer.
 */
module Geometry {

  /** A screen point (Win32 POINT). */
  datatype Point = Point(x: int, y: int)

  /** A screen rectangle (Win32 RECT); right and bottom are exclusive. */
  datatype Rect = Rect(left: int, top: int, right: int, bottom: int)

  /** The all-zero RECT that `RECT rc = {}` produces. */
  const ZeroRect := Rect(0, 0, 0, 0)

  /** Index of column x of row y in a row-major buffer w texels wide. */
  function Idx(x: nat, y: nat, w: nat): nat
  {
    y * w + x
  }

  /** The row of flat index k in a buffer w texels wide. */
  function Row(k: nat, w: nat): nat
    requires w > 0
  {
    k / w
  }

  /** The column of flat index k in a buffer w texels wide. */
  function Col(k: nat, w: nat): (c: nat)
    requires w > 0
    ensures c < w
  {
    k % w
  }

  /** Row and column recover the coordinates an index was built from. */
  lemma {:induction false} IdxRowCol(x: nat, y: nat, w: nat)
    requires x < w
    ensures Row(Idx(x, y, w), w) == y && Col(Idx(x, y, w), w) == x
  {
    var k := y * w + x;
    assert k == y * w + x;
    LemmaDivModUnique(k, w, y, x);
  }

  /** Every index is rebuilt from its row and column. */
  lemma IdxOfRowCol(k: nat, w: nat)
    requires w > 0
    ensures Idx(Col(k, w), Row(k, w), w) == k
  {
  }

  /** A coordinate inside a w-by-h buffer has an index inside it. */
  lemma {:induction false} IdxBelow(x: nat, y: nat, w: nat, h: nat)
    requires x < w && y < h
    ensures Idx(x, y, w) < w * h
  {
    assert y + 1 <= h;
    MulMonotone(y + 1, h, w);
    assert (y + 1) * w == y * w + w;
  }

  /** An index inside a w-by-h buffer lies in one of its h rows. */
  lemma {:induction false} RowBelow(k: nat, w: nat, h: nat)
    requires w > 0 && k < w * h
    ensures Row(k, w) < h
  {
    if Row(k, w) >= h {
      MulMonotone(h, Row(k, w), w);
      assert false;
    }
  }

  /** Only k0 itself has k0's row and column. */
  lemma SameCoordinates(n: nat, w: nat, k0: nat)
    requires w > 0
    ensures forall k :: 0 <= k < n && Row(k, w) == Row(k0, w) && Col(k, w) == Col(k0, w) ==> k == k0
  {
    forall k | 0 <= k < n && Row(k, w) == Row(k0, w) && Col(k, w) == Col(k0, w) ensures k == k0 {
      IdxOfRowCol(k, w);
      IdxOfRowCol(k0, w);
    }
  }
  /** Multiplication by a natural number is monotone. */
  lemma {:induction false} MulMonotone(a: int, b: int, c: nat)
    requires a <= b
    ensures a * c <= b * c
  {
    assert b * c - a * c == (b - a) * c;
  }

  lemma {:induction false} LemmaDivModUnique(k: int, w: int, q: int, r: int)
    requires w > 0 && 0 <= r < w && k == q * w + r
    ensures k / w == q && k % w == r
  {
    var q', r' := k / w, k % w;
    assert k == q' * w + r';
    assert (q - q') * w == r' - r;
    if q > q' {
      MulMonotone(1, q - q', w);
      assert false;
    } else if q < q' {
      MulMonotone(1, q' - q, w);
      assert false;
    }
  }
}
