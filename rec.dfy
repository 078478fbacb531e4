/** The `Rec` value type of ggframe: an axis-aligned rectangle stored as a signed top-left
    corner and an unsigned extent, plus the frame extent helpers that turn a frame's size
    into a `Rec`. */
module Geometry {
  import opened MachineInts

  /** A rectangle as `Rec` stores it: `int` top and left, `unsigned` width and height.
      The destructors are the source's `top()`, `left()`, `width()` and `height()` getters;
      a `Rec` is never changed after construction. */
  datatype Rec = Rec(top: int32, left: int32, width: uint32, height: uint32)
  {
    /** `right()`: `left + width - 1`, computed in unsigned arithmetic and read back as an `int`. */
    function Right(): (r: int32)
      ensures -TWO_31 <= left + width - 1 < TWO_31 ==> r == left + width - 1
      ensures width == 0 && left > -TWO_31 ==> r == left - 1
    {
      ToInt32(left + width - 1)
    }

    /** `bottom()`: `top + height - 1`, with the same conversions as `Right`. */
    function Bottom(): (b: int32)
      ensures -TWO_31 <= top + height - 1 < TWO_31 ==> b == top + height - 1
      ensures height == 0 && top > -TWO_31 ==> b == top - 1
    {
      ToInt32(top + height - 1)
    }

    /** The inclusive-bounds membership test used for the keypoint mask. When the edges do not
        wrap it is the half-open test against the stored extents. */
    predicate Covers(row: int, col: int)
      ensures Fits() ==> (Covers(row, col) <==> left <= col < left + width && top <= row < top + height)
    {
      left <= col <= Right() && top <= row <= Bottom()
    }

    /** The rectangle's right and bottom edges are computed without wrap-around. */
    predicate Fits()
    {
      -TWO_31 <= left + width - 1 < TWO_31 && -TWO_31 <= top + height - 1 < TWO_31
    }

    /** `intersect`: the larger top/left and the smaller right/bottom. The extent
        `r - l + 1` is stored unclamped into the unsigned fields, yet the resulting
        right and bottom edges always come back as the smaller of the two inputs'. */
    function Intersect(other: Rec): (r: Rec)
      ensures r.left == Max(left, other.left) && r.top == Max(top, other.top)
      ensures r.Right() == Min(Right(), other.Right())
      ensures r.Bottom() == Min(Bottom(), other.Bottom())
    {
      var l := Max(left, other.left);
      var t := Max(top, other.top);
      var rt := Min(Right(), other.Right());
      var b := Min(Bottom(), other.Bottom());
      ExtentRoundTrip(l, rt);
      ExtentRoundTrip(t, b);
      Rec(t, l, ToUint32(rt - l + 1), ToUint32(b - t + 1))
    }

    /** `empty()` as written: it tests the height twice and never the width. Away from the lowest
        `int` row a zero height does leave the rectangle without cells. */
    predicate Empty()
      ensures Empty() && top > -TWO_31 ==> forall row, col :: !Covers(row, col)
    {
      height == 0 || height == 0
    }

    /** What `empty()` evidently means: a zero width or a zero height. */
    predicate HasNoArea()
    {
      width == 0 || height == 0
    }
  }

  /** Storing the extent `e - s + 1` of the span [s, e] into an `unsigned` and computing the far
      edge back from it gives `e`, whether or not the extent was negative. */
  lemma {:induction false} ExtentRoundTrip(s: int32, e: int32)
    ensures ToInt32(s + ToUint32(e - s + 1) - 1) == e
  {
    ReduceOperand(e - s + 1, s - 1);
  }

  /** `Rec()`: the defaulted constructor leaves every field at zero. */
  const DefaultRec: Rec := Rec(0, 0, 0, 0)

  /** `lastCol()` / `lastRow()` for an axis of `n` pixels: the last index, or 0 for an empty axis. */
  function LastIndex(n: uint32): (last: uint32)
    ensures n > 0 ==> last < n && last + 1 == n
    ensures n == 0 ==> last == 0
  {
    if n > 0 then n - 1 else 0
  }

  /** `frameRec()` for a frame of `nCols` columns and `nRows` rows: for sizes CImg can hold its edges
      do not wrap, and its right and bottom edges are the last column and row (-1 for none). */
  function FrameRecOf(nCols: uint32, nRows: uint32): (r: Rec)
    ensures nCols < TWO_31 && nRows < TWO_31 ==> r.Fits() && r.Right() == nCols - 1 && r.Bottom() == nRows - 1
  {
    Rec(0, 0, nCols, nRows)
  }

  /** A default-constructed `Rec` sits at the origin, has no extent, and covers no cell. */
  lemma DefaultRecIsEmpty(row: int, col: int)
    ensures DefaultRec.top == 0 && DefaultRec.left == 0
    ensures DefaultRec.width == 0 && DefaultRec.height == 0
    ensures DefaultRec.Empty() && DefaultRec.Right() == -1 && DefaultRec.Bottom() == -1
    ensures !DefaultRec.Covers(row, col)
  {
  }

  /** `Rec::empty()` depends on the height only: changing the width never changes it. */
  lemma EmptyIgnoresWidth(r: Rec, w: uint32)
    ensures r.Empty() <==> r.height == 0
    ensures r.Empty() == r.(width := w).Empty()
  {
  }

  /** A zero-width rectangle that `empty()` reports as non-empty although it covers no cell. */
  lemma {:induction false} EmptyMissesZeroWidth(row: int, col: int)
    ensures !Rec(0, 0, 0, 1).Empty()
    ensures !Rec(0, 0, 0, 1).Covers(row, col)
  {
    assert Rec(0, 0, 0, 1).Right() == -1;
  }

  /** The corrected test is exact: a rectangle whose edges do not wrap has no area exactly
      when it covers no cell. */
  lemma {:induction false} HasNoAreaIffNoCells(r: Rec)
    requires r.Fits()
    ensures r.HasNoArea() <==> forall row, col :: !r.Covers(row, col)
  {
    if !r.HasNoArea() {
      assert r.Covers(r.top, r.left);
    }
  }

  /** `a.intersect(b)` covers exactly the cells both `a` and `b` cover, whatever the inputs. */
  lemma {:induction false} IntersectCovers(a: Rec, b: Rec, row: int, col: int)
    ensures a.Intersect(b).Covers(row, col) <==> a.Covers(row, col) && b.Covers(row, col)
  {
    var r := a.Intersect(b);
    assert r.left == Max(a.left, b.left) && r.Right() == Min(a.Right(), b.Right());
    assert r.top == Max(a.top, b.top) && r.Bottom() == Min(a.Bottom(), b.Bottom());
  }

  /** `intersect` is commutative. */
  lemma {:induction false} IntersectCommutes(a: Rec, b: Rec)
    ensures a.Intersect(b) == b.Intersect(a)
  {
    var l, t := Max(a.left, b.left), Max(a.top, b.top);
    var rt, bt := Min(a.Right(), b.Right()), Min(a.Bottom(), b.Bottom());
    assert l == Max(b.left, a.left) && t == Max(b.top, a.top);
    assert rt == Min(b.Right(), a.Right()) && bt == Min(b.Bottom(), a.Bottom());
  }

  /** `intersect` is idempotent: `a.intersect(a) == a`, even when `a`'s edges wrap. */
  lemma {:induction false} IntersectIdempotent(a: Rec)
    ensures a.Intersect(a) == a
  {
    ReduceOperand(a.left + a.width - 1, 1 - a.left as int);
    ReduceOperand(a.top + a.height - 1, 1 - a.top as int);
  }

  /** For overlapping inputs whose edges do not wrap, the result is a proper rectangle lying
      inside both. */
  lemma {:induction false} IntersectOverlapping(a: Rec, b: Rec)
    requires a.Fits() && b.Fits()
    requires Max(a.left, b.left) <= Min(a.Right(), b.Right())
    requires Max(a.top, b.top) <= Min(a.Bottom(), b.Bottom())
    ensures var r := a.Intersect(b);
      && r.width == Min(a.Right(), b.Right()) - Max(a.left, b.left) + 1
      && r.height == Min(a.Bottom(), b.Bottom()) - Max(a.top, b.top) + 1
      && r.Fits() && !r.HasNoArea()
      && a.left <= r.left && r.Right() <= a.Right() && a.top <= r.top && r.Bottom() <= a.Bottom()
      && b.left <= r.left && r.Right() <= b.Right() && b.top <= r.top && r.Bottom() <= b.Bottom()
  {
  }

  /** For inputs disjoint along the columns the negative extent `r - l + 1` is stored into the
      unsigned width unclamped: it is 0 only for adjacent inputs and wraps to a huge width
      otherwise. Along the rows the same happens, so `empty()` does not report the result. */
  lemma {:induction false} IntersectDisjointNotClamped(a: Rec, b: Rec)
    ensures var gap := Max(a.left, b.left) - Min(a.Right(), b.Right()) - 1;
      var r := a.Intersect(b);
      && (gap == 0 ==> r.width == 0)
      && (gap > 0 ==> r.width == TWO_32 - gap)
    ensures Max(a.top, b.top) > Min(a.Bottom(), b.Bottom()) + 1 ==> !a.Intersect(b).Empty()
  {
  }

  /** `frameRec()` covers exactly the frame's pixels; its right and bottom edges are
      `lastCol()` / `lastRow()` for a non-empty axis and -1 for an empty one. */
  lemma {:induction false} FrameRecCovers(nCols: uint32, nRows: uint32)
    requires nCols < TWO_31 && nRows < TWO_31
    ensures forall row, col :: FrameRecOf(nCols, nRows).Covers(row, col) <==> 0 <= row < nRows && 0 <= col < nCols
    ensures FrameRecOf(nCols, nRows).Right() == if nCols > 0 then LastIndex(nCols) else -1
    ensures FrameRecOf(nCols, nRows).Bottom() == if nRows > 0 then LastIndex(nRows) else -1
  {
  }

  /** Whatever `a` is, clipping it to `frameRec()` keeps only pixels of the frame, and keeps all of
      `a`'s pixels that lie in the frame. */
  lemma {:induction false} ClipToFrame(a: Rec, nCols: uint32, nRows: uint32)
    requires nCols < TWO_31 && nRows < TWO_31
    ensures forall row, col :: a.Intersect(FrameRecOf(nCols, nRows)).Covers(row, col) <==>
      a.Covers(row, col) && 0 <= row < nRows && 0 <= col < nCols
  {
    FrameRecCovers(nCols, nRows);
    forall row, col
      ensures a.Intersect(FrameRecOf(nCols, nRows)).Covers(row, col) <==>
        a.Covers(row, col) && 0 <= row < nRows && 0 <= col < nCols
    {
      IntersectCovers(a, FrameRecOf(nCols, nRows), row, col);
    }
  }
}
