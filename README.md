# ggframe core in Dafny

ggframe is a small C++ library around a CImg image of `uint8_t` pixels. This project models its
integer core:

- the `Rec` rectangle value type: its getters, `intersect` and `empty`;
- the `Frame` class: its pixel buffer and grid size, the extent helpers (`nRows`, `nCols`,
  `lastRow`, `lastCol`, `frameRec`, `empty`), `gridSize`/`setGridSize`, construction, copy and
  assignment;
- the in-place drawing operations `drawGrid` and `drawRec`;
- `cutRec`, the max-over-channels intensity matrix of `cvMat`, and the 0/1 mask that
  `getSiftKeyPointsInRec` hands to the detector;
- the grid snapping of `bestGridRecCenteredAt`;
- the bounding-box fold at the end of `findPattern`.

Modules, one per file:

- `MachineInts` (`ints.dfy`): the C++ `int`, `unsigned` and `uint8_t` types. It defines the
  conversions C++ performs when a wider result is stored into one of them: reduction modulo
  2^32 or 2^8, and two's complement for `int`. Every mixed `int`/`unsigned` expression of the
  source goes through these, so wrap-around is modelled, not excluded. The one purely signed
  subtraction that can overflow, in `intersect`, is listed under "Left out".
- `Geometry` (`rec.dfy`): `Rec` as an immutable datatype (`int32` top and left, `uint32` width
  and height). Also `Covers`, the inclusive-bounds membership test used for the mask, and the
  frame extent helpers `LastIndex` and `FrameRecOf`.
- `GridSnap` (`grid.dfy`): the arithmetic of `bestGridRecCenteredAt`, one axis at a time.
- `PatternBounds` (`bounds.dfy`): the four accumulators of `findPattern` as folds over the
  matched scene positions, and the `Rec` built from them.
- `Frames` (`frame.dfy`): the `Frame` class. The CImg buffer is an `array3<uint8>` indexed
  (row, column, channel), so CImg's `(x, y)` order is transposed. CImg's `depth()` (the
  z-extent, which bounds the channel loops of `cutRec` and `cvMat`) is a separate field `depth`.

Quirks of the code that the model keeps as they are, each stated by a lemma:

- the cell count is `size / g + 1`, not a ceiling, so the result can miss its own centre
  (`GridSnap.CentreNotAlwaysCovered`);
- `intersect` stores a negative extent into its `unsigned` fields without clamping
  (`Geometry.IntersectDisjointNotClamped`);
- `findPattern` with no match returns the pixel at the origin rather than reporting failure
  (`PatternBounds.NoMatchGivesOriginPixel`);
- `Rec::empty` looks at the height only (`Geometry.EmptyIgnoresWidth`, and "Findings" below).

## Model

| member | source | states |
|---|---|---|
| MachineInts.ToUint32 | src/ggframe.cc:118-122 | storing into `unsigned` keeps values in range and adds 2^32 to a negative value down to -2^32 |
| MachineInts.ToInt32 | src/ggframe.cc:124-125 | storing into `int` keeps in-range values, maps [2^31, 2^32) to the negative value with the same bit pattern, and preserves the bit pattern |
| MachineInts.ToUint8 | src/ggframe.cc:145-150 | storing into `uint8_t` keeps values below 256 and adds 256 to a value down to -256, so `-1` becomes 255 |
| MachineInts.ShiftInvariant | src/ggframe.cc:131-135 | adding a multiple of 2^32 does not change the stored `int` or `unsigned` |
| MachineInts.ReduceOperand | src/ggframe.cc:131-135 | reducing an operand to `int` or `unsigned` before an addition does not change the stored sum |
| Geometry.Rec.Right | src/ggframe.cc:109 | `right()` is `left + width - 1` whenever that fits in an `int`, and `left - 1` for a zero width |
| Geometry.Rec.Bottom | src/ggframe.cc:111 | `bottom()` is `top + height - 1` whenever that fits in an `int`, and `top - 1` for a zero height |
| Geometry.Rec.Intersect | src/ggframe.cc:301-308 | the result's left and top are the larger of the inputs', its right and bottom the smaller of the inputs', for every input (with the extent subtraction wrapping, see "Left out") |
| Geometry.ExtentRoundTrip | src/ggframe.cc:307 | storing `e - s + 1` into an `unsigned` extent and recomputing the far edge gives back `e`, even for a negative extent |
| Geometry.Rec.Covers | src/ggframe.cc:220-221 | the inclusive test `left <= col <= right() && top <= row <= bottom()`; for a non-wrapping `Rec` it is the half-open test `left <= col < left + width`, `top <= row < top + height` |
| Geometry.Rec.Empty | src/ggframe.cc:234-237 | `empty()` as written (height only); when it holds and `top` is above the lowest `int`, the `Rec` covers no cell |
| Geometry.FrameRecOf | src/ggframe.cc:296-299 | `Rec(0, 0, nCols(), nRows())` does not wrap and ends at column `nCols - 1` and row `nRows - 1` |
| Geometry.LastIndex | src/ggframe.cc:159-167 | `lastCol()`/`lastRow()` is `n - 1` for a non-empty axis and 0 for an empty one |
| Geometry.DefaultRecIsEmpty | src/ggframe.h:21-24 | `Rec()` has every field 0, is `empty()`, has right and bottom -1 and covers no cell |
| Geometry.EmptyIgnoresWidth | src/ggframe.cc:234-237 | `empty()` holds exactly when the height is 0, and changing the width never changes it |
| Geometry.EmptyMissesZeroWidth | src/ggframe.cc:234-237 | a `Rec` of width 0 and height 1 is not `empty()` yet covers no cell |
| Geometry.HasNoAreaIffNoCells | src/ggframe.cc:234-237 | the corrected test (zero width or zero height) holds exactly when a non-wrapping `Rec` covers no cell |
| Geometry.IntersectCovers | src/ggframe.cc:301-308 | `a.intersect(b)` covers a cell exactly when both `a` and `b` cover it |
| Geometry.IntersectCommutes | src/ggframe.cc:301-308 | `a.intersect(b) == b.intersect(a)` |
| Geometry.IntersectIdempotent | src/ggframe.cc:301-308 | `a.intersect(a) == a` for every `a`; for an `a` whose `right()` or `bottom()` wraps this relies on the extent subtraction wrapping (see "Left out") |
| Geometry.IntersectOverlapping | src/ggframe.cc:301-308 | for overlapping non-wrapping inputs the result has extent `r - l + 1` in each axis, has area, and lies inside both |
| Geometry.IntersectDisjointNotClamped | src/ggframe.cc:301-308 | for inputs disjoint along the columns the width is 0 when they touch and `2^32 - gap` otherwise; with a row gap over one cell `empty()` is false |
| Geometry.FrameRecCovers | src/ggframe.cc:296-299 | `frameRec()` covers exactly the frame's pixels; its right/bottom are `lastCol()`/`lastRow()`, or -1 for an empty axis |
| Geometry.ClipToFrame | src/ggframe.cc:136 | clipping any `Rec` to `frameRec()` keeps exactly its pixels that lie in the frame |
| GridSnap.FloorToGrid | src/ggframe.cc:129-130 | flooring a non-negative offset to the grid gives a grid line at most `g - 1` below it |
| GridSnap.AlignedExtentBounds | src/ggframe.cc:118-122 | the aligned extent `(size / g + 1) * g` is a whole number of cells, strictly larger than the request and by at most one cell |
| GridSnap.SnapAxis | src/ggframe.cc:118-134 | one axis of the snapping with its `int`/`unsigned` conversions; for any request the start is a non-negative grid line |
| GridSnap.BestGridRec | src/ggframe.cc:115-137 | for any arguments the result covers only pixels of the frame |
| GridSnap.SnapAxisInRange | src/ggframe.cc:118-134 | per axis: the start is a grid line within one cell below `max(centre - aligned / 2, 0)` and at most the centre; the extent is 1 to `aligned`, ends by the last index, and is short only at the far edge |
| GridSnap.BestGridRecInFrame | src/ggframe.cc:115-137 | with the centre in a non-empty frame, the result is the unclipped rectangle; its corner is a non-negative grid multiple at most `max(centre - aligned / 2, 0)`; its extents are 1 to the aligned extent and it ends by `lastCol()`/`lastRow()` |
| GridSnap.CentreNotAlwaysCovered | src/ggframe.cc:118-130 | grid 10, centre (14, 14), size 0 gives the cell at the origin, which does not contain the centre |
| GridSnap.CentredExample | src/ggframe.cc:115-137 | grid 10, centre (50, 50), 25 x 15 gives the 30 x 20 `Rec` at (40, 30) |
| GridSnap.NearEdgeExample | src/ggframe.cc:124-127 | near the corner `c - w / 2` wraps, reads back negative and is raised to 0: a 40 x 40 `Rec` at the origin |
| PatternBounds.MinFrom | src/ggframe.cc:278-289 | the fold of `min` from `UINT_MAX` is a lower bound attained by some element, or `UINT_MAX` when there is none |
| PatternBounds.MaxFrom | src/ggframe.cc:279-290 | the fold of `max` from 0 is an upper bound attained by some element, or 0 when there is none |
| PatternBounds.Rows | src/ggframe.cc:286 | the sequence of matched rows, one per match, in match order |
| PatternBounds.Cols | src/ggframe.cc:285 | the sequence of matched columns, one per match, in match order |
| PatternBounds.AccumulatedRec | src/ggframe.cc:292 | `matched_rec` from the accumulators; for ordered accumulators below 2^31 it does not wrap, has area, and its four edges are exactly the accumulated extremes |
| PatternBounds.FoldPrefix | src/ggframe.cc:282-291 | the folds over the first `i + 1` matches are the folds over the first `i` updated with match `i` |
| PatternBounds.FoldStep | src/ggframe.cc:287-290 | one more match updates each accumulator with that match's coordinate alone |
| PatternBounds.BoundingRecCoversMatches | src/ggframe.cc:292 | for a non-empty match list the `Rec` covers every match and each edge passes through a match |
| PatternBounds.BoundingRecIsSmallest | src/ggframe.cc:292 | any `Rec` covering every match contains the bounding `Rec` |
| PatternBounds.ClipCornerBox | src/ggframe.cc:293 | the 2 x 2 `Rec` at (-1, -1) clipped to a non-empty frame is the 1 x 1 `Rec` at the origin |
| PatternBounds.NoMatchGivesOriginPixel | src/ggframe.cc:278-293 | with no match the `Rec` is 2 x 2 at (-1, -1), and clipping it to a non-empty frame gives the 1 x 1 `Rec` at the origin |
| Frames.Brighten | src/ggframe.cc:85 | `min(v + 25, 255)` never darkens and saturates exactly from 230 up |
| Frames.GridShadeChanges | src/ggframe.cc:83-85 | a grid shade never darkens, and changes only channels 0-2 of pixels on a grid row or column |
| Frames.BorderIsBoxMinusInterior | src/ggframe.cc:139-151 | the border `drawRec` paints is the box minus its interior, and empty for a zero width or height |
| Frames.CloneBuffer | src/ggframe.cc:313 | a fresh buffer of the same size holding the same values |
| Frames.FoldMatches | src/ggframe.cc:278-291 | the loop leaves the four accumulators equal to the min/max folds of the matched rows and columns |
| Frames.Frame.constructor | src/ggframe.cc:13-18 | `Frame()` is an empty image with grid size 1 |
| Frames.Frame.Sized | src/ggframe.cc:20-23 | `Frame(w, h, d)` has `h` rows, `w` columns, `d` channels, depth 1, all zero; CImg's empty image if a size is 0 |
| Frames.Frame.Copy | src/ggframe.cc:310-314 | the copy has the same grid size, depth, dimensions and pixels, in a fresh buffer |
| Frames.Frame.Assign | src/ggframe.cc:330-335 | after `operator=` the grid size, depth, dimensions and pixels are those `other` had, in a fresh buffer |
| Frames.Frame.Set | src/ggframe.cc:36-39 | `set` writes exactly one channel of one pixel |
| Frames.Frame.Get | src/ggframe.cc:41-44 | `get(r, c, d)` reads channel `d` of the pixel at row `r`, column `c` (CImg's `(c, r, 0, d)`); a plain read with no further contract |
| Frames.Frame.NRows | src/ggframe.cc:174-177 | `nRows()` is CImg's `height()`, the buffer's row extent; a definition with no further contract |
| Frames.Frame.NCols | src/ggframe.cc:169-172 | `nCols()` is CImg's `width()`, the buffer's column extent; a definition with no further contract |
| Frames.Frame.LastRow | src/ggframe.cc:164-167 | `lastRow()` is `nRows() - 1`, or 0 for no row |
| Frames.Frame.LastCol | src/ggframe.cc:159-162 | `lastCol()` is `nCols() - 1`, or 0 for no column |
| Frames.Frame.Empty | src/ggframe.cc:239-242 | `empty()` holds exactly when `frameRec()` covers no pixel |
| Frames.Frame.FrameRec | src/ggframe.cc:296-299 | `frameRec()` covers exactly the frame's pixels |
| Frames.Frame.GridSize | src/ggframe.cc:92-95 | `gridSize()` returns the non-negative `m_grid_size` unchanged |
| Frames.Frame.SetGridSize | src/ggframe.cc:97-100 | `m_grid_size` becomes the argument read as `int`, so `gridSize()` returns it for sizes below 2^31 |
| Frames.Frame.BestGridRecCenteredAt | src/ggframe.cc:115-137 | the result is the snapped rectangle clipped to the frame and covers only the frame's pixels; with the centre in the frame and a moderate request it does not wrap, has area, has its corner on the grid at or before the centre, has extents at most the aligned ones, and ends inside the frame by `lastCol()`/`lastRow()` |
| Frames.Frame.DrawGrid | src/ggframe.cc:79-90 | channels 0-2 of pixels on a grid row or column become `min(old + 25, 255)`; everything else is unchanged; no value decreases |
| Frames.Frame.DrawRecAt | src/ggframe.cc:139-152 | channel 0 of exactly the border pixels becomes 255, and nothing changes for a zero width or height |
| Frames.Frame.DrawRec | src/ggframe.cc:154-157 | draws the border of `rec` (nothing for a `Rec` without area) and changes only pixels `rec` covers |
| Frames.Frame.CvMat | src/ggframe.cc:244-257 | an `nRows()` x `nCols()` matrix whose every entry is the maximum of the pixel's first `depth()` channels, 0 when `depth()` is 0 |
| Frames.Frame.KeyPointMask | src/ggframe.cc:220-226 | the mask is 1 exactly on the pixels `rec` covers (the part of `rec` inside the frame) and 0 elsewhere |
| Frames.Frame.FindPattern | src/ggframe.cc:278-293 | the result is the matches' bounding `Rec` clipped to `frameRec()`: it covers exactly the bounding box's pixels that lie in the frame |
| Frames.Frame.CutRec | src/ggframe.cc:316-328 | the output has `rec.height` rows, `rec.width` columns and `depth()` channels, each copied from (`top + row`, `left + col`); CImg's empty image if any is 0 |

## Left out

- File I/O: `Frame(path)`, `save` and `load` are CImg codecs, foreign library calls.
- Display and input: `display`, the shared display, `waitForInput`, `mousePosition`,
  `showKeyPoints`, `displaySift` and `displaySiftInRec`, including the `displaySift` calls inside
  `findPattern`. These are UI and event polling.
- SIFT `detect`/`compute` and the brute-force matcher are OpenCV internals whose source is not
  part of this model. `Frames.Frame.FindPattern` takes the matched scene positions as its input
  sequence, and `Frames.Frame.KeyPointMask` models only the mask built for the detector.
- The `float` to `unsigned` truncation of keypoint coordinates is floating point; matched
  positions arrive as `uint32` pairs (`PatternBounds.ScenePoint`).
- The intensity loop of `getSiftKeyPointsInRec` indexes the channel by the running value `v`
  instead of `d`. Its result goes only to the detector, which is not modelled, so it is left out.
- `include/ggframe.h` is not part of this model: it declares a different, `cv::Mat`-backed
  revision whose members have no bodies.
- CImg itself is not part of this model. The model assumes two things about it:
  a `CImg(w, h, 1, d)` with a zero size is the empty image, with all sizes and depth 0;
  and sizes are below 2^31, because CImg reports them as `int`.
- Image z-slices other than 0 are not modelled, since every access uses `z = 0`.
  Neither is a depth above 1 for images built by the library.
- Frames.Frame.Sized: requires each size below 2^31 for a non-empty image, because CImg stores sizes as `int`.
- GridSnap.BestGridRecInFrame: stated for a grid size and a request below 2^30 and a centre inside the frame. Outside that range the result only stays inside the frame (`GridSnap.BestGridRec`).
- Frames.Frame.DrawGrid: requires a non-zero grid size, because `r % m_grid_size` divides by zero for 0; a negative grid size (after `setGridSize` of 2^31 or more) is modelled. It also requires three channels for a non-empty image, because it writes channels 0-2.
- GridSnap.BestGridRec and Frames.Frame.BestGridRecCenteredAt: require a grid size of at least 1. Zero divides by zero. A negative grid size is converted to `unsigned` in `w / m_grid_size` but not in `(left / m_grid_size) * m_grid_size`; that mixed case is not modelled.
- Geometry.Rec.Intersect: the extents `r - l + 1` and `b - t + 1` at `src/ggframe.cc:307` are computed in signed `int`, where an overflow is undefined behaviour. The model assumes two's-complement wrap-around there. This matters only when the two edges are more than 2^31 apart, e.g. for a `Rec` whose `right()` wraps; `Geometry.IntersectIdempotent` and `Geometry.IntersectDisjointNotClamped` include such inputs under the same assumption.
- Frames.Frame.DrawRecAt, Frames.Frame.DrawRec, Frames.Frame.CutRec and Frames.Frame.CvMat: require their reads and writes to be in bounds. CImg's `operator()` does not check bounds, so an out-of-bounds access is undefined behaviour and is not modelled.

## Findings

| source | as written | input that shows it | evidently intended | confidence | as-written member | corrected member |
|---|---|---|---|---|---|---|
| src/ggframe.cc:234-237 | the test compares the height with 0 twice and never looks at the width | `Rec(0, 0, 0, 1)`: width 0, height 1 is not `empty()` yet covers no cell | a zero width or a zero height | high; not executed | Geometry.EmptyMissesZeroWidth | Geometry.HasNoAreaIffNoCells |
