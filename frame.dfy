/** The `Frame` class of ggframe: a CImg buffer of `uint8_t` pixels and a grid size, with the
    in-place drawing operations, the rectangle cut, the intensity and mask matrices handed to
    feature detection, and the extent and grid queries. */
module Frames {
  import opened MachineInts
  import opened Geometry
  import GridSnap
  import opened PatternBounds

  /** `min(v + 25, 255)`: a pixel value brightened by 25, saturating at 255. */
  function Brighten(v: uint8): (b: uint8)
    ensures v <= b
    ensures b == 255 <==> v >= 230
  {
    Min(v + 25, 255)
  }

  /** The value `drawGrid` leaves in channel `d` of the pixel at (`r`, `c`) that held `v`. For the
      non-negative `r` and `c` of the loops, C++'s `r % g == 0` holds exactly when `|g|` divides `r`,
      which is also what Dafny's `%` says, so a negative grid size needs no special case. */
  function GridShade(v: uint8, r: nat, c: nat, d: nat, g: int): uint8
    requires g != 0
  {
    if (r % g == 0 || c % g == 0) && d < 3 then Brighten(v) else v
  }

  /** Grid shading never darkens a pixel, and changes only channels 0 to 2 of pixels on a
      grid row or column. */
  lemma GridShadeChanges(v: uint8, r: nat, c: nat, d: nat, g: int)
    requires g != 0
    ensures v <= GridShade(v, r, c, d, g)
    ensures GridShade(v, r, c, d, g) != v ==> d < 3 && (r % g == 0 || c % g == 0) && v < 255
  {
  }

  /** (`row`, `col`) lies on one of the four border lines of the `width` x `height` box whose
      top-left pixel is (`top`, `left`). */
  predicate OnBorder(top: int, left: int, width: int, height: int, row: int, col: int)
  {
    && width > 0 && height > 0
    && (|| (top <= row < top + height && (col == left || col == left + width - 1))
        || (left <= col < left + width && (row == top || row == top + height - 1)))
  }

  /** The border of a non-empty box is the box minus its interior; an empty box has none. */
  lemma BorderIsBoxMinusInterior(top: int, left: int, width: int, height: int, row: int, col: int)
    ensures OnBorder(top, left, width, height, row, col) <==>
      && top <= row < top + height && left <= col < left + width
      && !(top < row < top + height - 1 && left < col < left + width - 1)
  {
  }

  /** A fresh copy of a pixel buffer. */
  method CloneBuffer(src: array3<uint8>) returns (dst: array3<uint8>)
    ensures fresh(dst)
    ensures dst.Length0 == src.Length0 && dst.Length1 == src.Length1 && dst.Length2 == src.Length2
    ensures forall i, j, k :: 0 <= i < dst.Length0 && 0 <= j < dst.Length1 && 0 <= k < dst.Length2 ==>
      dst[i, j, k] == src[i, j, k]
  {
    dst := new uint8[src.Length0, src.Length1, src.Length2]((i, j, k) reads src =>
      if 0 <= i < src.Length0 && 0 <= j < src.Length1 && 0 <= k < src.Length2 then src[i, j, k] else 0);
  }

  /** The loop of `findPattern`: the smallest and largest row and column of the matches, from the
      seeds `UINT_MAX` (an `unsigned` initialised with -1) and 0. */
  method FoldMatches(matches: seq<ScenePoint>) returns (minT: uint32, maxB: uint32, minL: uint32, maxR: uint32)
    ensures minT == MinFrom(Rows(matches)) && maxB == MaxFrom(Rows(matches))
    ensures minL == MinFrom(Cols(matches)) && maxR == MaxFrom(Cols(matches))
  {
    minT, maxB, minL, maxR := ToUint32(-1), 0, ToUint32(-1), 0;
    assert matches[..0] == [];
    for i := 0 to |matches|
      invariant minT == MinFrom(Rows(matches[..i])) && maxB == MaxFrom(Rows(matches[..i]))
      invariant minL == MinFrom(Cols(matches[..i])) && maxR == MaxFrom(Cols(matches[..i]))
    {
      var m := matches[i];
      FoldPrefix(matches, i);
      minT := Min(m.row, minT);
      maxB := Max(m.row, maxB);
      minL := Min(m.col, minL);
      maxR := Max(m.col, maxR);
    }
    assert matches[..|matches|] == matches;
  }

  class Frame {
    /** The CImg buffer: `pixels[row, col, channel]` is CImg's pixel `(x = col, y = row, z = 0, c = channel)`. */
    var pixels: array3<uint8>
    /** CImg's `depth()`: the z-extent of the image (1 for every non-empty image built here), which
        the channel loops of `cutRec` and `cvMat` use as their bound. */
    var depth: nat
    /** `m_grid_size`. */
    var gridSize: int32

    /** CImg reports its sizes as `int`, so every extent fits in 31 bits. */
    ghost predicate Valid()
      reads this
    {
      pixels.Length0 < TWO_31 && pixels.Length1 < TWO_31 && pixels.Length2 < TWO_31 && depth < TWO_31
    }

    predicate InBounds(r: int, c: int, d: int)
      reads this
    {
      0 <= r < pixels.Length0 && 0 <= c < pixels.Length1 && 0 <= d < pixels.Length2
    }

    /** `Frame()`: an empty image and grid size 1. */
    constructor ()
      ensures Valid() && fresh(pixels)
      ensures pixels.Length0 == 0 && pixels.Length1 == 0 && pixels.Length2 == 0 && depth == 0
      ensures gridSize == 1
    {
      pixels := new uint8[0, 0, 0];
      depth := 0;
      gridSize := 1;
    }

    /** `Frame(w, h, d)`: CImg's `CImg(w, h, 1, d, 0)`, a zero-filled image of `w` columns, `h` rows
        and `d` channels with depth 1; a zero dimension gives CImg's empty image instead. */
    constructor Sized(w: uint32, h: uint32, d: uint32)
      requires w > 0 && h > 0 && d > 0 ==> w < TWO_31 && h < TWO_31 && d < TWO_31
      ensures Valid() && fresh(pixels) && gridSize == 1
      ensures w > 0 && h > 0 && d > 0 ==>
        && pixels.Length0 == h && pixels.Length1 == w && pixels.Length2 == d && depth == 1
        && forall r, c, k :: InBounds(r, c, k) ==> pixels[r, c, k] == 0
      ensures w == 0 || h == 0 || d == 0 ==>
        pixels.Length0 == 0 && pixels.Length1 == 0 && pixels.Length2 == 0 && depth == 0
    {
      if w > 0 && h > 0 && d > 0 {
        pixels := new uint8[h, w, d]((r, c, k) => 0);
        depth := 1;
      } else {
        pixels := new uint8[0, 0, 0];
        depth := 0;
      }
      gridSize := 1;
    }

    /** `Frame(Frame const&)`: a deep copy of the image and the grid size. */
    constructor Copy(other: Frame)
      requires other.Valid()
      ensures Valid() && fresh(pixels)
      ensures gridSize == other.gridSize && depth == other.depth
      ensures pixels.Length0 == other.pixels.Length0 && pixels.Length1 == other.pixels.Length1
      ensures pixels.Length2 == other.pixels.Length2
      ensures forall r, c, k :: InBounds(r, c, k) ==> pixels[r, c, k] == other.pixels[r, c, k]
    {
      gridSize := other.gridSize;
      var copy := CloneBuffer(other.pixels);
      pixels := copy;
      depth := other.depth;
    }

    /** `operator=`: replaces the grid size and the image with copies of `other`'s (also when
        `other` is this frame). */
    method Assign(other: Frame)
      requires other.Valid()
      modifies this
      ensures Valid() && fresh(pixels)
      ensures gridSize == old(other.gridSize) && depth == old(other.depth)
      ensures pixels.Length0 == old(other.pixels.Length0) && pixels.Length1 == old(other.pixels.Length1)
      ensures pixels.Length2 == old(other.pixels.Length2)
      ensures forall r, c, k :: InBounds(r, c, k) ==> pixels[r, c, k] == old(other.pixels[r, c, k])
    {
      gridSize := other.gridSize;
      var copy := CloneBuffer(other.pixels);
      depth := other.depth;
      pixels := copy;
    }

    /** `get(r, c, d)`. */
    function Get(r: int, c: int, d: int): uint8
      reads this, pixels
      requires InBounds(r, c, d)
    {
      pixels[r, c, d]
    }

    /** `set(r, c, d, v)`: writes one channel of one pixel and nothing else. */
    method Set(r: int, c: int, d: int, v: uint8)
      requires InBounds(r, c, d)
      modifies pixels
      ensures pixels[r, c, d] == v
      ensures forall i, j, k :: InBounds(i, j, k) && (i != r || j != c || k != d) ==>
        pixels[i, j, k] == old(pixels[i, j, k])
    {
      pixels[r, c, d] := v;
    }

    /** `nRows()`: CImg's `height()`. */
    function NRows(): uint32
      reads this
      requires Valid()
    {
      pixels.Length0
    }

    /** `nCols()`: CImg's `width()`. */
    function NCols(): uint32
      reads this
      requires Valid()
    {
      pixels.Length1
    }

    /** `lastRow()`: the index of the last row, or 0 when there is none. */
    function LastRow(): (last: uint32)
      reads this
      requires Valid()
      ensures NRows() > 0 ==> last + 1 == NRows()
      ensures NRows() == 0 ==> last == 0
    {
      LastIndex(NRows())
    }

    /** `lastCol()`: the index of the last column, or 0 when there is none. */
    function LastCol(): (last: uint32)
      reads this
      requires Valid()
      ensures NCols() > 0 ==> last + 1 == NCols()
      ensures NCols() == 0 ==> last == 0
    {
      LastIndex(NCols())
    }

    /** `empty()`: the image has no pixel. */
    function Empty(): (e: bool)
      reads this
      requires Valid()
      ensures e <==> forall row, col :: !FrameRec().Covers(row, col)
    {
      if NRows() == 0 || NCols() == 0 then
        true
      else
        assert FrameRec().Covers(0, 0);
        false
    }

    /** `frameRec()`: the `Rec` at the origin with the image's size, which covers exactly its pixels. */
    function FrameRec(): (rec: Rec)
      reads this
      requires Valid()
      ensures forall row, col :: rec.Covers(row, col) <==> 0 <= row < NRows() && 0 <= col < NCols()
    {
      FrameRecCovers(NCols(), NRows());
      FrameRecOf(NCols(), NRows())
    }

    /** `gridSize()`: `m_grid_size` returned as `unsigned`. */
    function GridSize(): (s: uint32)
      reads this
      ensures gridSize >= 0 ==> s == gridSize
    {
      ToUint32(gridSize)
    }

    /** `setGridSize(size)`: stores the `unsigned` argument into the `int` field. */
    method SetGridSize(size: uint32)
      modifies this`gridSize
      ensures gridSize == ToInt32(size)
      ensures size < TWO_31 ==> gridSize == size && GridSize() == size
    {
      gridSize := ToInt32(size);
    }

    /** `bestGridRecCenteredAt(r, c, w, h)`: whatever the arguments, the result covers only pixels
        of the frame; for a centre inside the frame and a moderate request it is a proper rectangle
        inside the frame, at or before the centre, whose corner lies on the grid and whose extents
        are at most the aligned ones (see `GridSnap.BestGridRecInFrame`). */
    function BestGridRecCenteredAt(r: uint32, c: uint32, w: uint32, h: uint32): (rec: Rec)
      reads this
      requires Valid() && gridSize >= 1
      ensures forall row, col :: rec.Covers(row, col) ==> 0 <= row < NRows() && 0 <= col < NCols()
      ensures rec == GridSnap.BestGridRec(gridSize, NCols(), NRows(), r, c, w, h)
      ensures GridSnap.Moderate(gridSize, NCols(), c, w) && GridSnap.Moderate(gridSize, NRows(), r, h) ==>
        && rec.Fits() && !rec.HasNoArea()
        && 0 <= rec.left <= c && GridSnap.OnGridLine(rec.left, gridSize)
        && 0 <= rec.top <= r && GridSnap.OnGridLine(rec.top, gridSize)
        && rec.width <= GridSnap.AlignedExtent(w, gridSize) && rec.left + rec.width <= NCols()
        && rec.height <= GridSnap.AlignedExtent(h, gridSize) && rec.top + rec.height <= NRows()
        && rec.Right() == rec.left + rec.width - 1 <= LastCol()
        && rec.Bottom() == rec.top + rec.height - 1 <= LastRow()
    {
      var rec := GridSnap.BestGridRec(gridSize, NCols(), NRows(), r, c, w, h);
      if GridSnap.Moderate(gridSize, NCols(), c, w) && GridSnap.Moderate(gridSize, NRows(), r, h) then
        GridSnap.BestGridRecInFrame(gridSize, NCols(), NRows(), r, c, w, h);
        rec
      else
        rec
    }

    /** `drawGrid()`: channels 0 to 2 of every pixel on a grid row or column are brightened by 25,
        saturating at 255; every other value is left as it was, so no value decreases. */
    method DrawGrid()
      requires Valid() && gridSize != 0
      requires pixels.Length0 > 0 && pixels.Length1 > 0 ==> pixels.Length2 >= 3
      modifies pixels
      ensures forall r, c, d :: InBounds(r, c, d) ==>
        pixels[r, c, d] == GridShade(old(pixels[r, c, d]), r, c, d, gridSize)
      ensures forall r, c, d :: InBounds(r, c, d) ==> old(pixels[r, c, d]) <= pixels[r, c, d]
    {
      var r := 0;
      while r < NRows()
        invariant 0 <= r <= pixels.Length0
        invariant forall i, j, k :: InBounds(i, j, k) ==> (pixels[i, j, k] ==
          if i < r then GridShade(old(pixels[i, j, k]), i, j, k, gridSize) else old(pixels[i, j, k]))
      {
        var c := 0;
        while c < NCols()
          invariant 0 <= c <= pixels.Length1
          invariant forall i, j, k :: InBounds(i, j, k) ==> (pixels[i, j, k] ==
            if i < r || (i == r && j < c) then GridShade(old(pixels[i, j, k]), i, j, k, gridSize)
            else old(pixels[i, j, k]))
        {
          if r % gridSize == 0 || c % gridSize == 0 {
            var d := 0;
            while d < 3
              invariant 0 <= d <= 3
              invariant forall i, j, k :: InBounds(i, j, k) ==> (pixels[i, j, k] ==
                if i < r || (i == r && j < c) || (i == r && j == c && k < d)
                then GridShade(old(pixels[i, j, k]), i, j, k, gridSize)
                else old(pixels[i, j, k]))
            {
              Set(r, c, d, Brighten(Get(r, c, d)));
              d := d + 1;
            }
          }
          c := c + 1;
        }
        r := r + 1;
      }
    }

    /** `drawRec(top, left, width, height)`: nothing when the width or the height is 0; otherwise
        channel 0 of exactly the pixels on the four border lines becomes 255 (`-1` as `uint8_t`). */
    method DrawRecAt(top: uint32, left: uint32, width: uint32, height: uint32)
      requires Valid()
      requires width > 0 && height > 0 ==>
        top + height <= pixels.Length0 && left + width <= pixels.Length1 && pixels.Length2 >= 1
      modifies pixels
      ensures forall r, c, d :: InBounds(r, c, d) ==> (pixels[r, c, d] ==
        if d == 0 && OnBorder(top, left, width, height, r, c) then 255 else old(pixels[r, c, d]))
    {
      if width == 0 || height == 0 {
        return;
      }
      for r := 0 to height
        invariant forall i, j, k :: InBounds(i, j, k) ==> (pixels[i, j, k] ==
          if k == 0 && top <= i < top + r && (j == left || j == left + width - 1) then 255
          else old(pixels[i, j, k]))
      {
        Set(top + r, left, 0, ToUint8(-1));
        Set(top + r, left + width - 1, 0, ToUint8(-1));
      }
      for c := 0 to width
        invariant forall i, j, k :: InBounds(i, j, k) ==> (pixels[i, j, k] ==
          if k == 0 && (|| (top <= i < top + height && (j == left || j == left + width - 1))
                        || (left <= j < left + c && (i == top || i == top + height - 1)))
          then 255
          else old(pixels[i, j, k]))
      {
        Set(top, left + c, 0, ToUint8(-1));
        Set(top + height - 1, left + c, 0, ToUint8(-1));
      }
    }

    /** `drawRec(rec)`: draws the border of `rec`, passing its `int` corner as `unsigned`. */
    method DrawRec(rec: Rec)
      requires Valid()
      requires rec.width > 0 && rec.height > 0 ==>
        && 0 <= rec.top && rec.top + rec.height <= pixels.Length0
        && 0 <= rec.left && rec.left + rec.width <= pixels.Length1
        && pixels.Length2 >= 1
      modifies pixels
      ensures forall r, c, d :: InBounds(r, c, d) ==> (pixels[r, c, d] ==
        if d == 0 && !rec.HasNoArea() && OnBorder(rec.top, rec.left, rec.width, rec.height, r, c) then 255
        else old(pixels[r, c, d]))
      ensures forall r, c, d :: InBounds(r, c, d) && pixels[r, c, d] != old(pixels[r, c, d]) ==> rec.Covers(r, c)
    {
      DrawRecAt(ToUint32(rec.top), ToUint32(rec.left), rec.width, rec.height);
    }

    /** CImg's `depth()` bounds the channel loops; an in-bounds read needs it not to exceed the
        channel count whenever there is a pixel to read. */
    predicate DepthReadable()
      reads this
    {
      pixels.Length0 > 0 && pixels.Length1 > 0 ==> depth <= pixels.Length2
    }

    /** `v` is the largest of the first `depth()` channels of the pixel at (`r`, `c`), or 0 when
        `depth()` is 0. */
    ghost predicate MaxOverDepth(v: int, r: int, c: int)
      reads this, pixels
      requires 0 <= r < pixels.Length0 && 0 <= c < pixels.Length1 && DepthReadable()
    {
      && (forall d :: 0 <= d < depth ==> pixels[r, c, d] <= v)
      && (if depth == 0 then v == 0 else exists d :: 0 <= d < depth && pixels[r, c, d] == v)
    }

    /** `cvMat()`: the `nRows()` x `nCols()` intensity matrix whose every entry is the maximum over
        the pixel's first `depth()` channels. */
    method CvMat() returns (mat: array2<uint8>)
      requires Valid() && DepthReadable()
      ensures fresh(mat) && mat.Length0 == pixels.Length0 && mat.Length1 == pixels.Length1
      ensures forall r, c :: 0 <= r < mat.Length0 && 0 <= c < mat.Length1 ==> MaxOverDepth(mat[r, c], r, c)
    {
      mat := new uint8[NRows(), NCols()];
      for r := 0 to NRows()
        invariant forall i, j :: 0 <= i < r && 0 <= j < mat.Length1 ==> MaxOverDepth(mat[i, j], i, j)
      {
        for c := 0 to NCols()
          invariant forall i, j :: 0 <= i < r && 0 <= j < mat.Length1 ==> MaxOverDepth(mat[i, j], i, j)
          invariant forall j :: 0 <= j < c ==> MaxOverDepth(mat[r, j], r, j)
        {
          var v: uint8 := 0;
          for d := 0 to depth
            invariant forall e :: 0 <= e < d ==> pixels[r, c, e] <= v
            invariant if d == 0 then v == 0 else exists e :: 0 <= e < d && pixels[r, c, e] == v
          {
            v := Max(v, Get(r, c, d));
          }
          mat[r, c] := v;
        }
      }
    }

    /** The 0/1 mask `getSiftKeyPointsInRec(rec)` passes to the detector: 1 exactly on the pixels
        `rec` covers (inclusive bounds), i.e. on the part of `rec` inside the frame. */
    method KeyPointMask(rec: Rec) returns (mask: array2<uint8>)
      requires Valid()
      ensures fresh(mask) && mask.Length0 == pixels.Length0 && mask.Length1 == pixels.Length1
      ensures forall r, c :: 0 <= r < mask.Length0 && 0 <= c < mask.Length1 ==>
        mask[r, c] == if rec.Covers(r, c) then 1 else 0
      ensures forall r, c :: 0 <= r < mask.Length0 && 0 <= c < mask.Length1 ==>
        (mask[r, c] == 1 <==> rec.Intersect(FrameRec()).Covers(r, c))
    {
      mask := new uint8[NRows(), NCols()];
      for r := 0 to NRows()
        invariant forall i, j :: 0 <= i < r && 0 <= j < mask.Length1 ==>
          mask[i, j] == if rec.Covers(i, j) then 1 else 0
      {
        for c := 0 to NCols()
          invariant forall i, j :: 0 <= i < r && 0 <= j < mask.Length1 ==>
            mask[i, j] == if rec.Covers(i, j) then 1 else 0
          invariant forall j :: 0 <= j < c ==> mask[r, j] == if rec.Covers(r, j) then 1 else 0
        {
          if rec.left <= c && c <= rec.Right() && rec.top <= r && r <= rec.Bottom() {
            mask[r, c] := 1;
          } else {
            mask[r, c] := 0;
          }
        }
      }
      ClipToFrame(rec, NCols(), NRows());
    }

    /** The bounding box of `findPattern`: the four accumulators folded over the matched scene
        positions, the `Rec` built from them, clipped to `frameRec()`. */
    method FindPattern(matches: seq<ScenePoint>) returns (rec: Rec)
      requires Valid()
      ensures rec == BoundingRec(matches).Intersect(FrameRec())
      ensures forall row, col :: rec.Covers(row, col) <==>
        BoundingRec(matches).Covers(row, col) && 0 <= row < NRows() && 0 <= col < NCols()
    {
      var minT, maxB, minL, maxR := FoldMatches(matches);
      var matchedRec := AccumulatedRec(minT, maxB, minL, maxR);
      rec := matchedRec.Intersect(FrameRec());
      ClipToFrame(matchedRec, NCols(), NRows());
    }

    /** `cutRec(rec)`: a new frame of `rec.height` rows, `rec.width` columns and `depth()` channels
        holding a copy of the pixels `rec` covers; CImg's empty image when any of the three is 0. */
    method CutRec(rec: Rec) returns (output: Frame)
      requires Valid()
      requires rec.width > 0 && rec.height > 0 && depth > 0 ==>
        && 0 <= rec.top && rec.top + rec.height <= pixels.Length0
        && 0 <= rec.left && rec.left + rec.width <= pixels.Length1
        && depth <= pixels.Length2
      ensures fresh(output) && fresh(output.pixels) && output.Valid() && output.gridSize == 1
      ensures rec.width > 0 && rec.height > 0 && depth > 0 ==>
        && output.pixels.Length0 == rec.height && output.pixels.Length1 == rec.width
        && output.pixels.Length2 == depth && output.depth == 1
        && forall i, j, k :: output.InBounds(i, j, k) ==> output.pixels[i, j, k] == pixels[rec.top + i, rec.left + j, k]
      ensures rec.width == 0 || rec.height == 0 || depth == 0 ==>
        output.pixels.Length0 == 0 && output.pixels.Length1 == 0 && output.pixels.Length2 == 0 && output.depth == 0
    {
      output := new Frame.Sized(rec.width, rec.height, depth);
      for row := 0 to rec.height
        modifies output.pixels
        invariant forall i, j, k :: 0 <= i < row && 0 <= j < rec.width && 0 <= k < depth ==>
          output.pixels[i, j, k] == pixels[rec.top + i, rec.left + j, k]
      {
        for col := 0 to rec.width
          modifies output.pixels
          invariant forall i, j, k :: 0 <= i < row && 0 <= j < rec.width && 0 <= k < depth ==>
            output.pixels[i, j, k] == pixels[rec.top + i, rec.left + j, k]
          invariant forall j, k :: 0 <= j < col && 0 <= k < depth ==>
            output.pixels[row, j, k] == pixels[rec.top + row, rec.left + j, k]
        {
          for d := 0 to depth
            modifies output.pixels
            invariant forall i, j, k :: 0 <= i < row && 0 <= j < rec.width && 0 <= k < depth ==>
              output.pixels[i, j, k] == pixels[rec.top + i, rec.left + j, k]
            invariant forall j, k :: 0 <= j < col && 0 <= k < depth ==>
              output.pixels[row, j, k] == pixels[rec.top + row, rec.left + j, k]
            invariant forall k :: 0 <= k < d ==> output.pixels[row, col, k] == pixels[rec.top + row, rec.left + col, k]
          {
            var color := Get(rec.top + row, rec.left + col, d);
            output.Set(row, col, d, color);
          }
        }
      }
    }
  }
}
