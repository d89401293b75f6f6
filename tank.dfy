/**
 * Tank geometry of detect_with_yolo.py: averaging and clamping the tank boxes
 * collected by `find_tank_bbox`, the `tank_bbox` record with its `center_x`,
 * the two half-tank crops and the mapping of a detection from crop pixels to
 * full-frame normalised coordinates (`process_tank_half_batch`).
 */
module Tank {
  import opened Options
  import opened Geometry
  import opened Keyframes

  /** A box in pixel coordinates, as the tuples `find_tank_bbox` collects. */
  datatype PixelBox = PixelBox(xMin: int, yMin: int, xMax: int, yMax: int)

  /** The `tank_bbox` record. */
  datatype TankBox = TankBox(xMin: int, yMin: int, xMax: int, yMax: int, centerX: int)

  /** The pixel region of one tank half handed to the detector. */
  datatype CropBox = CropBox(xMin: int, yMin: int, xMax: int, yMax: int)

  /** One detector hit in crop pixel coordinates, with its confidence. */
  datatype RawBox = RawBox(x1: real, y1: real, x2: real, y2: real, conf: real)

  // ---------------------------------------------------------------------
  // Averaging the collected tank boxes.

  function Sum(xs: seq<int>): int {
    if xs == [] then 0 else Sum(xs[..|xs| - 1]) + xs[|xs| - 1]
  }

  /** Python's `int(a / n)`: the quotient rounded toward zero (not floor division). */
  function TruncDiv(a: int, n: int): (q: int)
    requires n > 0
    ensures a >= 0 ==> 0 <= n * q <= a < n * q + n
    ensures a < 0 ==> n * q - n < a <= n * q <= 0
  {
    if a >= 0 then FloorDivBounds(a, n); a / n
    else FloorDivBounds(-a, n); NegatedBounds(-a, n, (-a) / n); -((-a) / n)
  }

  lemma NegatedBounds(a: int, n: int, q: int)
    requires n > 0 && a > 0 && 0 <= n * q <= a < n * q + n
    ensures n * -q - n < -a <= n * -q <= 0
  {
    assert n * -q == -(n * q);
  }

  lemma FloorDivBounds(a: int, n: int)
    requires n > 0 && a >= 0
    ensures 0 <= n * (a / n) <= a < n * (a / n) + n
  {
    var q := a / n;
    assert n * q <= a < n * q + n;
    MulCancel(n, -1, q);
    assert n * -1 == -n;
    assert q >= 0;
    MulLe(n, 0, q);
  }

  function Average(xs: seq<int>): int
    requires xs != []
  {
    TruncDiv(Sum(xs), |xs|)
  }

  /** The `x1`, `y1`, `x2` and `y2` columns of the collected boxes. */
  function XMins(boxes: seq<PixelBox>): seq<int>
  {
    seq(|boxes|, i requires 0 <= i < |boxes| => boxes[i].xMin)
  }

  function YMins(boxes: seq<PixelBox>): seq<int>
  {
    seq(|boxes|, i requires 0 <= i < |boxes| => boxes[i].yMin)
  }

  function XMaxs(boxes: seq<PixelBox>): seq<int>
  {
    seq(|boxes|, i requires 0 <= i < |boxes| => boxes[i].xMax)
  }

  function YMaxs(boxes: seq<PixelBox>): seq<int>
  {
    seq(|boxes|, i requires 0 <= i < |boxes| => boxes[i].yMax)
  }

  function IntMax(a: int, b: int): int { if b > a then b else a }

  function IntMin(a: int, b: int): int { if b < a then b else a }

  /**
   * The tail of `find_tank_bbox`: no box when nothing was collected,
   * otherwise the coordinate-wise average, clamped to the frame.
   */
  function AveragedTankBox(boxes: seq<PixelBox>, width: int, height: int): (r: Option<PixelBox>)
    ensures r.None? <==> boxes == []
    ensures r.Some? ==> r.value.xMin >= 0 && r.value.yMin >= 0 && r.value.xMax <= width && r.value.yMax <= height
  {
    if boxes == [] then None
    else Some(PixelBox(
      IntMax(0, Average(XMins(boxes))),
      IntMax(0, Average(YMins(boxes))),
      IntMin(width, Average(XMaxs(boxes))),
      IntMin(height, Average(YMaxs(boxes)))))
  }

  /** Entrywise bounds carry over to the sum. */
  lemma {:induction false} SumBounds(xs: seq<int>, lo: int, hi: int)
    requires forall i :: 0 <= i < |xs| ==> lo <= xs[i] <= hi
    ensures |xs| * lo <= Sum(xs) <= |xs| * hi
  {
    if xs != [] {
      SumBounds(xs[..|xs| - 1], lo, hi);
    }
  }

  /** An entrywise smaller sequence has a smaller sum. */
  lemma {:induction false} SumMonotone(xs: seq<int>, ys: seq<int>)
    requires |xs| == |ys| && forall i :: 0 <= i < |xs| ==> xs[i] <= ys[i]
    ensures Sum(xs) <= Sum(ys)
  {
    if xs != [] {
      SumMonotone(xs[..|xs| - 1], ys[..|ys| - 1]);
    }
  }

  /** Rounding toward zero keeps a quotient between integer bounds. */
  lemma TruncDivBounds(a: int, n: int, lo: int, hi: int)
    requires n > 0 && n * lo <= a <= n * hi
    ensures lo <= TruncDiv(a, n) <= hi
  {
    var q := TruncDiv(a, n);
    MulCancel(n, lo, q);
    MulCancel(n, lo, q + 1);
    MulCancel(n, q, hi);
    MulCancel(n, q - 1, hi);
  }

  /** Multiplying by a positive factor preserves and reflects order. */
  lemma MulCancel(n: int, x: int, y: int)
    requires n > 0
    ensures n * x <= n * y ==> x <= y
    ensures n * x < n * y ==> x < y
  {
    if x > y {
      MulLe(n, y, x);
    }
    if x >= y {
      MulLe(n, y, x);
    }
  }

  lemma MulLe(n: int, a: int, b: int)
    requires n > 0 && a <= b
    ensures n * a <= n * b
  {}

  lemma TruncDivMonotone(a: int, b: int, n: int)
    requires n > 0 && a <= b
    ensures TruncDiv(a, n) <= TruncDiv(b, n)
  {
    var p, q := TruncDiv(a, n), TruncDiv(b, n);
    if a >= 0 {
      assert n * (q + 1) == n * q + n;
      MulCancel(n, p, q + 1);
    } else if b < 0 {
      assert n * (p - 1) == n * p - n;
      MulCancel(n, p - 1, q);
    } else {
      assert n * 0 == 0;
      MulCancel(n, p, 0);
      MulCancel(n, 0, q);
    }
  }

  /** The average of values within [lo, hi] is within [lo, hi]. */
  lemma AverageWithin(xs: seq<int>, lo: int, hi: int)
    requires xs != [] && forall i :: 0 <= i < |xs| ==> lo <= xs[i] <= hi
    ensures lo <= Average(xs) <= hi
  {
    SumBounds(xs, lo, hi);
    TruncDivBounds(Sum(xs), |xs|, lo, hi);
  }

  predicate WithinFrame(b: PixelBox, width: int, height: int) {
    0 <= b.xMin <= b.xMax <= width && 0 <= b.yMin <= b.yMax <= height
  }

  /**
   * When every collected box lies inside the frame with ordered edges, the
   * clamp changes nothing and the averaged box is itself inside the frame
   * with ordered edges.
   */
  lemma AveragedInsideFrame(boxes: seq<PixelBox>, width: int, height: int)
    requires boxes != [] && forall i :: 0 <= i < |boxes| ==> WithinFrame(boxes[i], width, height)
    ensures AveragedTankBox(boxes, width, height) == Some(PixelBox(
      Average(XMins(boxes)), Average(YMins(boxes)), Average(XMaxs(boxes)), Average(YMaxs(boxes))))
    ensures WithinFrame(AveragedTankBox(boxes, width, height).value, width, height)
  {
    AverageWithin(XMins(boxes), 0, width);
    AverageWithin(XMaxs(boxes), 0, width);
    AverageWithin(YMins(boxes), 0, height);
    AverageWithin(YMaxs(boxes), 0, height);
    SumMonotone(XMins(boxes), XMaxs(boxes));
    SumMonotone(YMins(boxes), YMaxs(boxes));
    TruncDivMonotone(Sum(XMins(boxes)), Sum(XMaxs(boxes)), |boxes|);
    TruncDivMonotone(Sum(YMins(boxes)), Sum(YMaxs(boxes)), |boxes|);
  }

  // ---------------------------------------------------------------------
  // The tank record and its halves.

  /**
   * The `tank_bbox` record built from a box: `center_x = (x_min + x_max) // 2`
   * (floor division). For ordered edges the centre lies between them and the
   * right half is as wide as the left half or one pixel wider.
   */
  function MakeTankBox(xMin: int, yMin: int, xMax: int, yMax: int): (t: TankBox)
    ensures t.xMin == xMin && t.yMin == yMin && t.xMax == xMax && t.yMax == yMax
    ensures 2 * t.centerX <= xMin + xMax < 2 * t.centerX + 2
    ensures xMin <= xMax ==> xMin <= t.centerX <= xMax
    ensures xMin <= xMax ==> 0 <= (xMax - t.centerX) - (t.centerX - xMin) <= 1
  {
    TankBox(xMin, yMin, xMax, yMax, (xMin + xMax) / 2)
  }

  /** The crop of one half: `[x_min, center_x]` on the left, `[center_x, x_max]` on the right. */
  function CropRegion(tank: TankBox, side: Side): CropBox {
    match side
    case Left => CropBox(tank.xMin, tank.yMin, tank.centerX, tank.yMax)
    case Right => CropBox(tank.centerX, tank.yMin, tank.xMax, tank.yMax)
  }

  /**
   * The halves meet at the centre and span the tank's width and height
   * between them; these first four clauses only spell out CropRegion. The
   * last clause is the one that needs MakeTankBox: for a record built from
   * ordered edges neither half is inverted.
   */
  lemma CropHalvesCoverTank(tank: TankBox)
    ensures CropRegion(tank, Left).xMax == CropRegion(tank, Right).xMin == tank.centerX
    ensures CropRegion(tank, Left).xMin == tank.xMin && CropRegion(tank, Right).xMax == tank.xMax
    ensures CropRegion(tank, Left).yMin == CropRegion(tank, Right).yMin == tank.yMin
    ensures CropRegion(tank, Left).yMax == CropRegion(tank, Right).yMax == tank.yMax
    ensures tank == MakeTankBox(tank.xMin, tank.yMin, tank.xMax, tank.yMax) && tank.xMin <= tank.xMax ==>
      && CropRegion(tank, Left).xMin <= CropRegion(tank, Left).xMax
      && CropRegion(tank, Right).xMin <= CropRegion(tank, Right).xMax
  {}

  // ---------------------------------------------------------------------
  // From crop pixels to full-frame normalised coordinates.

  /**
   * A detector hit in the crop, shifted by the crop origin and divided by the
   * frame size, tagged with its side and carrying its confidence.
   */
  function ToFrameDetection(crop: CropBox, raw: RawBox, width: int, height: int, side: Side): (d: Detection)
    requires width > 0 && height > 0
    ensures d.side == side && d.confidence == raw.conf
  {
    Detection(
      Box((crop.xMin as real + raw.x1) / width as real,
          (crop.yMin as real + raw.y1) / height as real,
          (crop.xMin as real + raw.x2) / width as real,
          (crop.yMin as real + raw.y2) / height as real),
      raw.conf,
      side)
  }

  /** The inverse mapping: a full-frame detection back in the crop's pixel coordinates. */
  function ToCropBox(crop: CropBox, d: Detection, width: int, height: int): RawBox {
    RawBox(d.box.xMin * width as real - crop.xMin as real,
           d.box.yMin * height as real - crop.yMin as real,
           d.box.xMax * width as real - crop.xMin as real,
           d.box.yMax * height as real - crop.yMin as real,
           d.confidence)
  }

  /** Normalisation loses nothing: mapping back gives the detector's crop box. */
  lemma CropRoundTrip(crop: CropBox, raw: RawBox, width: int, height: int, side: Side)
    requires width > 0 && height > 0
    ensures ToCropBox(crop, ToFrameDetection(crop, raw, width, height, side), width, height) == raw
  {
    var d := ToFrameDetection(crop, raw, width, height, side);
    DivMul(crop.xMin as real + raw.x1, width as real);
    DivMul(crop.yMin as real + raw.y1, height as real);
    DivMul(crop.xMin as real + raw.x2, width as real);
    DivMul(crop.yMin as real + raw.y2, height as real);
  }

  lemma DivMul(a: real, w: real)
    requires w > 0.0
    ensures a / w * w == a
  {}

  lemma DivMonotone(a: real, b: real, w: real)
    requires w > 0.0 && a <= b
    ensures a / w <= b / w
  {
    DivMul(a, w);
    DivMul(b, w);
    MulLtReal(b / w, a / w, w);
  }

  lemma MulLtReal(a: real, b: real, w: real)
    requires w > 0.0
    ensures a < b ==> a * w < b * w
  {}

  /**
   * A hit with ordered edges inside the crop maps to a well-formed box inside
   * the crop's normalised extent; when the crop lies inside the frame, that
   * box lies inside [0, 1] x [0, 1].
   */
  lemma NormalisedWithinCrop(crop: CropBox, raw: RawBox, width: int, height: int, side: Side)
    requires width > 0 && height > 0
    requires 0.0 <= raw.x1 <= raw.x2 <= (crop.xMax - crop.xMin) as real
    requires 0.0 <= raw.y1 <= raw.y2 <= (crop.yMax - crop.yMin) as real
    ensures var b := ToFrameDetection(crop, raw, width, height, side).box;
      && WellFormed(b)
      && crop.xMin as real / width as real <= b.xMin && b.xMax <= crop.xMax as real / width as real
      && crop.yMin as real / height as real <= b.yMin && b.yMax <= crop.yMax as real / height as real
    ensures 0 <= crop.xMin && crop.xMax <= width && 0 <= crop.yMin && crop.yMax <= height ==>
      var b := ToFrameDetection(crop, raw, width, height, side).box;
      0.0 <= b.xMin && b.xMax <= 1.0 && 0.0 <= b.yMin && b.yMax <= 1.0
  {
    NormalisedAxis(crop.xMin, crop.xMax, raw.x1, raw.x2, width);
    NormalisedAxis(crop.yMin, crop.yMax, raw.y1, raw.y2, height);
  }

  /** The normalisation along one axis, for a crop spanning [lo, hi] of a frame of `size` pixels. */
  lemma NormalisedAxis(lo: int, hi: int, a1: real, a2: real, size: int)
    requires size > 0 && 0.0 <= a1 <= a2 <= (hi - lo) as real
    ensures var s := size as real;
      lo as real / s <= (lo as real + a1) / s <= (lo as real + a2) / s <= hi as real / s
    ensures 0 <= lo && hi <= size ==>
      0.0 <= (lo as real + a1) / size as real && (lo as real + a2) / size as real <= 1.0
  {
    var s := size as real;
    DivMonotone(lo as real, lo as real + a1, s);
    DivMonotone(lo as real + a1, lo as real + a2, s);
    DivMonotone(lo as real + a2, hi as real, s);
    if 0 <= lo && hi <= size {
      DivMonotone(0.0, lo as real, s);
      DivMonotone(hi as real, s, s);
    }
  }
}
