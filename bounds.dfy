/** The bounding box `Frame::findPattern` derives from the matched scene keypoints: four
    `unsigned` accumulators seeded with `UINT_MAX` and 0, folded over the matches, turned
    into a `Rec` and clipped to the frame. Detection and matching themselves are outside
    this module; the matched positions are its input. */
module PatternBounds {
  import opened MachineInts
  import opened Geometry

  /** The position of a matched scene keypoint, already converted to `unsigned` row and column. */
  datatype ScenePoint = ScenePoint(row: uint32, col: uint32)

  function Rows(hits: seq<ScenePoint>): (rows: seq<uint32>)
    ensures |rows| == |hits| && forall i :: 0 <= i < |hits| ==> rows[i] == hits[i].row
  {
    seq(|hits|, i requires 0 <= i < |hits| => hits[i].row)
  }

  function Cols(hits: seq<ScenePoint>): (cols: seq<uint32>)
    ensures |cols| == |hits| && forall i :: 0 <= i < |hits| ==> cols[i] == hits[i].col
  {
    seq(|hits|, i requires 0 <= i < |hits| => hits[i].col)
  }

  /** `min` folded over `xs` from the seed `UINT_MAX` (an `unsigned` initialised with -1): the least
      element, or the seed when there is none. */
  function MinFrom(xs: seq<uint32>): (m: uint32)
    ensures forall i :: 0 <= i < |xs| ==> m <= xs[i]
    ensures |xs| == 0 ==> m == UINT32_MAX
    ensures |xs| > 0 ==> exists i :: 0 <= i < |xs| && xs[i] == m
  {
    if |xs| == 0 then UINT32_MAX else Min(xs[|xs| - 1], MinFrom(xs[..|xs| - 1]))
  }

  /** `max` folded over `xs` from the seed 0: the greatest element, or 0 when there is none. */
  function MaxFrom(xs: seq<uint32>): (m: uint32)
    ensures forall i :: 0 <= i < |xs| ==> xs[i] <= m
    ensures |xs| == 0 ==> m == 0
    ensures |xs| > 0 ==> exists i :: 0 <= i < |xs| && xs[i] == m
  {
    if |xs| == 0 then 0 else Max(xs[|xs| - 1], MaxFrom(xs[..|xs| - 1]))
  }

  /** One more match updates each accumulator with that match's coordinate alone. */
  lemma {:induction false} FoldStep(hits: seq<ScenePoint>, m: ScenePoint)
    ensures MinFrom(Rows(hits + [m])) == Min(m.row, MinFrom(Rows(hits)))
    ensures MaxFrom(Rows(hits + [m])) == Max(m.row, MaxFrom(Rows(hits)))
    ensures MinFrom(Cols(hits + [m])) == Min(m.col, MinFrom(Cols(hits)))
    ensures MaxFrom(Cols(hits + [m])) == Max(m.col, MaxFrom(Cols(hits)))
  {
    assert Rows(hits + [m]) == Rows(hits) + [m.row];
    assert Cols(hits + [m]) == Cols(hits) + [m.col];
    assert (Rows(hits) + [m.row])[..|hits|] == Rows(hits);
    assert (Cols(hits) + [m.col])[..|hits|] == Cols(hits);
  }

  /** The folds over the first `i + 1` matches, from the folds over the first `i`. */
  lemma {:induction false} FoldPrefix(hits: seq<ScenePoint>, i: nat)
    requires i < |hits|
    ensures MinFrom(Rows(hits[..i + 1])) == Min(hits[i].row, MinFrom(Rows(hits[..i])))
    ensures MaxFrom(Rows(hits[..i + 1])) == Max(hits[i].row, MaxFrom(Rows(hits[..i])))
    ensures MinFrom(Cols(hits[..i + 1])) == Min(hits[i].col, MinFrom(Cols(hits[..i])))
    ensures MaxFrom(Cols(hits[..i + 1])) == Max(hits[i].col, MaxFrom(Cols(hits[..i])))
  {
    assert hits[..i + 1] == hits[..i] + [hits[i]];
    FoldStep(hits[..i], hits[i]);
  }

  /** The `Rec` built from the four accumulators, before clipping: the `unsigned` minima are
      passed as `int` top and left, the extents are computed in `unsigned`. */
  function BoundingRec(hits: seq<ScenePoint>): Rec
  {
    AccumulatedRec(MinFrom(Rows(hits)), MaxFrom(Rows(hits)), MinFrom(Cols(hits)), MaxFrom(Cols(hits)))
  }

  /** `matched_rec`: the `Rec` constructed from the four accumulators. For ordered accumulators
      below 2^31 its edges are exactly the accumulated extremes. */
  function AccumulatedRec(minT: uint32, maxB: uint32, minL: uint32, maxR: uint32): (r: Rec)
    ensures minT <= maxB < TWO_31 && minL <= maxR < TWO_31 ==>
      && r.Fits() && !r.HasNoArea()
      && r.top == minT && r.Bottom() == maxB && r.left == minL && r.Right() == maxR
  {
    Rec(ToInt32(minT), ToInt32(minL), ToUint32(maxR as int - minL + 1), ToUint32(maxB as int - minT + 1))
  }

  /** Every match lies in a row and column below 2^31, so reading them as `int` changes nothing. */
  predicate Representable(hits: seq<ScenePoint>)
  {
    forall i :: 0 <= i < |hits| ==> hits[i].row < TWO_31 && hits[i].col < TWO_31
  }

  /** For a non-empty match list the bounding `Rec` covers every matched position and each of its
      four edges passes through one of them. */
  lemma {:induction false} BoundingRecCoversMatches(hits: seq<ScenePoint>)
    requires |hits| > 0 && Representable(hits)
    ensures var b := BoundingRec(hits);
      && b.Fits()
      && (forall i :: 0 <= i < |hits| ==> b.Covers(hits[i].row, hits[i].col))
      && (exists i :: 0 <= i < |hits| && hits[i].row == b.top)
      && (exists i :: 0 <= i < |hits| && hits[i].row == b.Bottom())
      && (exists i :: 0 <= i < |hits| && hits[i].col == b.left)
      && (exists i :: 0 <= i < |hits| && hits[i].col == b.Right())
  {
    var minT, maxB := MinFrom(Rows(hits)), MaxFrom(Rows(hits));
    var minL, maxR := MinFrom(Cols(hits)), MaxFrom(Cols(hits));
    var b := BoundingRec(hits);
    assert minT <= maxB < TWO_31 && minL <= maxR < TWO_31 by {
      assert minT <= Rows(hits)[0] <= maxB;
      assert minL <= Cols(hits)[0] <= maxR;
    }
    assert b.top == minT && b.Bottom() == maxB;
    assert b.left == minL && b.Right() == maxR;
  }

  /** The bounding `Rec` is the smallest: any `Rec` covering every match contains it. */
  lemma {:induction false} BoundingRecIsSmallest(hits: seq<ScenePoint>, q: Rec)
    requires |hits| > 0 && Representable(hits)
    requires forall i :: 0 <= i < |hits| ==> q.Covers(hits[i].row, hits[i].col)
    ensures var b := BoundingRec(hits);
      q.top <= b.top && b.Bottom() <= q.Bottom() && q.left <= b.left && b.Right() <= q.Right()
  {
    BoundingRecCoversMatches(hits);
  }

  /** The 2 x 2 box at (-1, -1) clipped to a non-empty frame is the pixel at the origin. */
  lemma {:induction false} ClipCornerBox(nCols: uint32, nRows: uint32)
    requires 0 < nCols < TWO_31 && 0 < nRows < TWO_31
    ensures Rec(-1, -1, 2, 2).Intersect(FrameRecOf(nCols, nRows)) == Rec(0, 0, 1, 1)
  {
    var b := Rec(-1, -1, 2, 2);
    var f := FrameRecOf(nCols, nRows);
    assert b.Right() == 0 && b.Bottom() == 0;
    assert f.Right() == nCols - 1 && f.Bottom() == nRows - 1;
    assert b.Intersect(f) == Rec(0, 0, ToUint32(1), ToUint32(1));
  }

  /** With no match the seeds survive: `UINT_MAX` read as `int` is -1 and `0 - UINT_MAX + 1` wraps
      to 2, so the box is 2 x 2 at (-1, -1), and clipping it to a non-empty frame yields the
      1 x 1 `Rec` at the origin instead of an error. */
  lemma {:induction false} NoMatchGivesOriginPixel(nCols: uint32, nRows: uint32)
    requires 0 < nCols < TWO_31 && 0 < nRows < TWO_31
    ensures BoundingRec([]) == Rec(-1, -1, 2, 2)
    ensures BoundingRec([]).Intersect(FrameRecOf(nCols, nRows)) == Rec(0, 0, 1, 1)
  {
    assert Rows([]) == [] && Cols([]) == [];
    assert BoundingRec([]) == AccumulatedRec(UINT32_MAX, 0, UINT32_MAX, 0);
    assert ToInt32(UINT32_MAX) == -1 && ToUint32(0 - UINT32_MAX + 1) == 2;
    ClipCornerBox(nCols, nRows);
  }
}
