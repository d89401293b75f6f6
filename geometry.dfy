/**
 * Bounding-box geometry of detect_with_yolo.py: the boxes the detector
 * produces (normalised coordinates, modelled as reals) and `compute_iou`.
 */
module Geometry {

  /** A box given by its edges; nothing forces xMin <= xMax in the source. */
  datatype Box = Box(xMin: real, yMin: real, xMax: real, yMax: real)

  /** A box whose edges are ordered (zero width or height allowed). */
  predicate WellFormed(b: Box) {
    b.xMin <= b.xMax && b.yMin <= b.yMax
  }

  /** A box with strictly positive width and height. */
  predicate Proper(b: Box) {
    b.xMin < b.xMax && b.yMin < b.yMax
  }

  function Max(a: real, b: real): real { if b > a then b else a }

  function Min(a: real, b: real): real { if b < a then b else a }

  /** Width of the overlap of the two boxes on the x axis, clamped at 0. */
  function OverlapX(a: Box, b: Box): (w: real)
    ensures w >= 0.0
  {
    Max(0.0, Min(a.xMax, b.xMax) - Max(a.xMin, b.xMin))
  }

  /** Height of the overlap of the two boxes on the y axis, clamped at 0. */
  function OverlapY(a: Box, b: Box): (h: real)
    ensures h >= 0.0
  {
    Max(0.0, Min(a.yMax, b.yMax) - Max(a.yMin, b.yMin))
  }

  function Intersection(a: Box, b: Box): (r: real)
    ensures r >= 0.0
  {
    NonNegativeProduct(OverlapX(a, b), OverlapY(a, b));
    OverlapX(a, b) * OverlapY(a, b)
  }

  /** Signed area as the source computes it (negative for a box with one inverted axis). */
  function Area(b: Box): real {
    (b.xMax - b.xMin) * (b.yMax - b.yMin)
  }

  function Union(a: Box, b: Box): real {
    Area(a) + Area(b) - Intersection(a, b)
  }

  /**
   * `compute_iou`: intersection over union, and 0 whenever the union is not
   * positive, so it never divides by zero. It is never negative, whatever the boxes.
   */
  function Iou(a: Box, b: Box): (r: real)
    ensures r >= 0.0
    ensures Union(a, b) <= 0.0 ==> r == 0.0
  {
    if Union(a, b) > 0.0 then
      NonNegativeQuotient(Intersection(a, b), Union(a, b));
      Intersection(a, b) / Union(a, b)
    else 0.0
  }

  lemma NonNegativeProduct(x: real, y: real)
    requires x >= 0.0 && y >= 0.0
    ensures x * y >= 0.0
  {}

  lemma NonNegativeQuotient(x: real, y: real)
    requires x >= 0.0 && y > 0.0
    ensures x / y >= 0.0
  {}

  /** The product of two non-negative factors is monotone in each factor. */
  lemma ProductMonotone(x: real, y: real, x': real, y': real)
    requires 0.0 <= x <= x' && 0.0 <= y <= y'
    ensures x * y <= x' * y'
  {
    assert x * y <= x' * y;
    assert x' * y <= x' * y';
  }

  /** IoU does not depend on the order of its arguments. */
  lemma IouSymmetric(a: Box, b: Box)
    ensures Iou(a, b) == Iou(b, a)
  {
    assert OverlapX(a, b) == OverlapX(b, a);
    assert OverlapY(a, b) == OverlapY(b, a);
  }

  /** Boxes that do not overlap on some axis have IoU 0 (the clamp makes the intersection 0). */
  lemma IouDisjoint(a: Box, b: Box)
    requires Min(a.xMax, b.xMax) <= Max(a.xMin, b.xMin) || Min(a.yMax, b.yMax) <= Max(a.yMin, b.yMin)
    ensures Iou(a, b) == 0.0
  {
    assert OverlapX(a, b) == 0.0 || OverlapY(a, b) == 0.0;
    assert Intersection(a, b) == 0.0;
  }

  /** For well-formed boxes the overlap is no larger than either box. */
  lemma IntersectionWithinAreas(a: Box, b: Box)
    requires WellFormed(a) && WellFormed(b)
    ensures Intersection(a, b) <= Area(a) && Intersection(a, b) <= Area(b)
  {
    IntersectionWithinArea(a, b);
    IntersectionWithinArea(b, a);
    assert OverlapX(a, b) == OverlapX(b, a) && OverlapY(a, b) == OverlapY(b, a);
  }

  /** The overlap of a well-formed box with any box is no larger than the first box. */
  lemma IntersectionWithinArea(a: Box, b: Box)
    requires WellFormed(a)
    ensures Intersection(a, b) <= Area(a)
  {
    var w, h := OverlapX(a, b), OverlapY(a, b);
    assert w <= a.xMax - a.xMin && h <= a.yMax - a.yMin;
    ProductMonotone(w, h, a.xMax - a.xMin, a.yMax - a.yMin);
  }

  /** For well-formed boxes IoU lies in [0, 1]. */
  lemma IouBounded(a: Box, b: Box)
    requires WellFormed(a) && WellFormed(b)
    ensures 0.0 <= Iou(a, b) <= 1.0
  {
    IntersectionWithinAreas(a, b);
    if Union(a, b) > 0.0 {
      var i, u := Intersection(a, b), Union(a, b);
      assert i <= u;
      assert i / u <= 1.0 by { assert i / u * u == i; }
    }
  }

  /** A box with positive width and height has IoU 1 with itself. */
  lemma IouSelf(a: Box)
    requires Proper(a)
    ensures Iou(a, a) == 1.0
  {
    assert OverlapX(a, a) == a.xMax - a.xMin;
    assert OverlapY(a, a) == a.yMax - a.yMin;
    assert Intersection(a, a) == Area(a);
    assert Area(a) > 0.0 by { ProductPositive(a.xMax - a.xMin, a.yMax - a.yMin); }
    assert Union(a, a) == Area(a);
    assert Iou(a, a) == Area(a) / Area(a);
  }

  lemma ProductOfNegatives(x: real, y: real)
    requires x < 0.0 && y < 0.0
    ensures x * y > 0.0
  {}

  lemma ProductPositive(x: real, y: real)
    requires x > 0.0 && y > 0.0
    ensures x * y > 0.0
  {}

  /**
   * Positive area is not enough for self-IoU 1: a box inverted on both axes
   * has positive area as the source computes it, yet zero overlap with itself.
   */
  lemma IouSelfInverted(a: Box)
    requires a.xMax < a.xMin && a.yMax < a.yMin
    ensures Area(a) > 0.0 && Iou(a, a) == 0.0
  {
    ProductOfNegatives(a.xMax - a.xMin, a.yMax - a.yMin);
    assert OverlapX(a, a) == 0.0;
    assert Intersection(a, a) == 0.0;
    assert Union(a, a) > 0.0;
  }

  /** For well-formed boxes, IoU is positive exactly when the boxes overlap on both axes. */
  lemma IouPositiveIffOverlap(a: Box, b: Box)
    requires WellFormed(a) && WellFormed(b)
    ensures Iou(a, b) > 0.0 <==> OverlapX(a, b) > 0.0 && OverlapY(a, b) > 0.0
  {
    IntersectionWithinAreas(a, b);
    if OverlapX(a, b) > 0.0 && OverlapY(a, b) > 0.0 {
      ProductPositive(OverlapX(a, b), OverlapY(a, b));
      var i, u := Intersection(a, b), Union(a, b);
      assert u >= i > 0.0;
      assert i / u > 0.0;
    } else {
      assert Intersection(a, b) == 0.0;
    }
  }
}
