/** The grid snapping of `Frame::bestGridRecCenteredAt`: a rectangle of whole grid cells,
    at least as large as requested, placed around a point and clipped to the frame. */
module GridSnap {
  import opened MachineInts
  import opened Geometry

  /** The cell-aligned extent for a request of `size` pixels on a grid of `g`: one cell more
      than the whole cells that fit in the request (a floor division plus one). */
  function AlignedExtent(size: int, g: int): int
    requires g >= 1
  {
    (size / g + 1) * g
  }

  /** The offset of grid line number `cells`. */
  function GridOffset(cells: int, g: int): int
  {
    cells * g
  }

  /** `x` lies on a grid line: it is a whole number of cells from the origin. */
  ghost predicate OnGridLine(x: int, g: int)
  {
    exists cells: int :: x == GridOffset(cells, g)
  }

  /** Flooring a non-negative offset to the grid lands on a grid line at most `g - 1` below it. */
  lemma {:induction false} FloorToGrid(x: int, g: int)
    requires x >= 0 && g >= 1
    ensures 0 <= (x / g) * g <= x < (x / g) * g + g
    ensures OnGridLine((x / g) * g, g)
  {
    assert x == (x / g) * g + x % g;
    assert (x / g) * g == GridOffset(x / g, g);
  }

  /** The aligned extent is a whole number of cells, strictly larger than the request and
      larger by at most one cell. */
  lemma {:induction false} AlignedExtentBounds(size: int, g: int)
    requires size >= 0 && g >= 1
    ensures OnGridLine(AlignedExtent(size, g), g)
    ensures size < AlignedExtent(size, g) <= size + g
  {
    assert size == (size / g) * g + size % g;
    assert AlignedExtent(size, g) == (size / g) * g + g;
    assert AlignedExtent(size, g) == GridOffset(size / g + 1, g);
  }

  /** One axis of `bestGridRecCenteredAt`, with the source's `unsigned`/`int` conversions:
      the grid-aligned start of the rectangle and its extent once the far edge is clipped
      to the axis's last index. */
  function SnapAxis(g: int32, n: uint32, centre: uint32, size: uint32): (snapped: (int32, uint32))
    requires g >= 1
    ensures 0 <= snapped.0 && OnGridLine(snapped.0, g)
  {
    var cells := ToUint32(size / g + 1);
    var aligned := ToUint32(cells * g);
    var start := Max(ToInt32(centre - aligned / 2), 0);
    FloorToGrid(start, g);
    var gridStart := (start / g) * g;
    var gridEnd := Min(ToUint32(gridStart + cells * g - 1), LastIndex(n));
    (gridStart, ToUint32(gridEnd - gridStart + 1))
  }

  /** `bestGridRecCenteredAt(r, c, w, h)` on a frame of `nCols` x `nRows` with grid size `g`. */
  function BestGridRec(g: int32, nCols: uint32, nRows: uint32, r: uint32, c: uint32, w: uint32, h: uint32): (res: Rec)
    requires g >= 1
    ensures nCols < TWO_31 && nRows < TWO_31 ==>
      forall row, col :: res.Covers(row, col) ==> 0 <= row < nRows && 0 <= col < nCols
  {
    var (left, width) := SnapAxis(g, nCols, c, w);
    var (top, height) := SnapAxis(g, nRows, r, h);
    var unbounded := Rec(top, left, width, height);
    if nCols < TWO_31 && nRows < TWO_31 then
      ClipToFrame(unbounded, nCols, nRows);
      unbounded.Intersect(FrameRecOf(nCols, nRows))
    else
      unbounded.Intersect(FrameRecOf(nCols, nRows))
  }

  /** Requests small enough that none of the `unsigned` arithmetic wraps, with the centre inside
      a non-empty axis of `n` pixels. */
  predicate Moderate(g: int, n: int, centre: int, size: int)
  {
    1 <= g < 0x4000_0000 && 0 <= size < 0x4000_0000 && 0 <= centre < n < TWO_31
  }

  /** One snapped axis: the start is a non-negative multiple of `g`, floored from
      `max(centre - aligned / 2, 0)`; the extent is between one pixel and the aligned extent,
      reaches no further than the last index, and is cut short only at the far edge. */
  lemma {:induction false} SnapAxisInRange(g: int32, n: uint32, centre: uint32, size: uint32)
    requires Moderate(g, n, centre, size)
    ensures var (s, e) := SnapAxis(g, n, centre, size);
      var aligned := AlignedExtent(size, g);
      var start := Max(centre - aligned / 2, 0);
      && 0 <= s <= start < s + g && OnGridLine(s, g) && s <= centre
      && 1 <= e <= aligned && s + e <= n
      && (e == aligned || s + e == n)
  {
    AlignedExtentBounds(size, g);
    var cells := ToUint32(size / g + 1);
    assert cells == size / g + 1;
    var aligned := ToUint32(cells * g);
    assert aligned == AlignedExtent(size, g);
    assert -TWO_31 <= centre - aligned / 2 < TWO_31;
    var start := Max(ToInt32(centre - aligned / 2), 0);
    assert start == Max(centre - aligned / 2, 0);
    FloorToGrid(start, g);
    var gridStart := (start / g) * g;
    assert 0 <= gridStart + cells * g - 1 < TWO_32;
    var gridEnd := Min(ToUint32(gridStart + cells * g - 1), LastIndex(n));
    assert gridEnd == Min(gridStart + aligned - 1, n - 1);
  }

  /** With the centre inside a non-empty frame and a moderate request, clipping to `frameRec()`
      changes nothing and the result lies inside the frame: its top-left corner is a
      non-negative multiple of the grid size at or before the centre, and each extent is at least
      one pixel and at most the aligned extent, cut short only at the frame's last row or column. */
  lemma {:induction false} BestGridRecInFrame(g: int32, nCols: uint32, nRows: uint32, r: uint32, c: uint32, w: uint32, h: uint32)
    requires Moderate(g, nCols, c, w) && Moderate(g, nRows, r, h)
    ensures var res := BestGridRec(g, nCols, nRows, r, c, w, h);
      && res.Fits()
      && 0 <= res.left <= Max(c - AlignedExtent(w, g) / 2, 0) && res.left <= c && OnGridLine(res.left, g)
      && 0 <= res.top <= Max(r - AlignedExtent(h, g) / 2, 0) && res.top <= r && OnGridLine(res.top, g)
      && 1 <= res.width <= AlignedExtent(w, g) && res.Right() <= LastIndex(nCols)
      && 1 <= res.height <= AlignedExtent(h, g) && res.Bottom() <= LastIndex(nRows)
      && (res.width == AlignedExtent(w, g) || res.Right() == LastIndex(nCols))
      && (res.height == AlignedExtent(h, g) || res.Bottom() == LastIndex(nRows))
  {
    SnapAxisInRange(g, nCols, c, w);
    SnapAxisInRange(g, nRows, r, h);
    var (left, width) := SnapAxis(g, nCols, c, w);
    var (top, height) := SnapAxis(g, nRows, r, h);
    var unbounded := Rec(top, left, width, height);
    var frame := FrameRecOf(nCols, nRows);
    assert unbounded.Right() == left + width - 1;
    assert frame.Right() == nCols - 1 && frame.Bottom() == nRows - 1;
    var res := unbounded.Intersect(frame);
    assert res.Right() == unbounded.Right() && res.Bottom() == unbounded.Bottom();
    ReduceOperand(res.Right() - res.left + 1, res.left - 1);
    ReduceOperand(res.Bottom() - res.top + 1, res.top - 1);
    assert res == unbounded;
  }

  /** The cell count is a floor division plus one, not a ceiling, and the start is floored to
      the grid after centring: with grid 10 and nothing requested around column 14 the result is
      the cell [0, 9], which does not contain the centre. */
  lemma CentreNotAlwaysCovered()
    ensures BestGridRec(10, 100, 100, 14, 14, 0, 0) == Rec(0, 0, 10, 10)
    ensures !BestGridRec(10, 100, 100, 14, 14, 0, 0).Covers(14, 14)
  {
    assert SnapAxis(10, 100, 14, 0) == (0, 10);
    assert Rec(0, 0, 10, 10).Right() == 9 && Rec(0, 0, 10, 10).Bottom() == 9;
    assert FrameRecOf(100, 100).Right() == 99 && FrameRecOf(100, 100).Bottom() == 99;
  }

  /** Grid 10 on a 100 x 100 frame, centre (50, 50), 25 wide and 15 tall: three columns of cells
      and two rows of cells, i.e. 30 x 20 pixels with the top-left corner at (40, 30). */
  lemma CentredExample()
    ensures BestGridRec(10, 100, 100, 50, 50, 25, 15) == Rec(40, 30, 30, 20)
  {
    assert SnapAxis(10, 100, 50, 25) == (30, 30);
    assert SnapAxis(10, 100, 50, 15) == (40, 20);
    assert Rec(40, 30, 30, 20).Right() == 59 && Rec(40, 30, 30, 20).Bottom() == 59;
    assert FrameRecOf(100, 100).Right() == 99 && FrameRecOf(100, 100).Bottom() == 99;
  }

  /** Near the top-left corner `c - w / 2` wraps in `unsigned`, is read back as a negative `int`
      and is raised to 0: centre (2, 2), grid 10, 30 x 30 gives a 40 x 40 rectangle at the origin. */
  lemma NearEdgeExample()
    ensures BestGridRec(10, 100, 100, 2, 2, 30, 30) == Rec(0, 0, 40, 40)
  {
    assert SnapAxis(10, 100, 2, 30) == (0, 40);
    assert Rec(0, 0, 40, 40).Right() == 39 && Rec(0, 0, 40, 40).Bottom() == 39;
    assert FrameRecOf(100, 100).Right() == 99 && FrameRecOf(100, 100).Bottom() == 99;
  }
}
