/**
 Axis-aligned boxes and the intersection-over-union score that the object
 selector ranks detections by. Coordinates are exact reals: the floating-point
 rounding of the detector's box coordinates is not modelled.
 */
module Geometry {

  /** A box in xyxy form: (x1, y1) is the first corner, (x2, y2) the second.
      Nothing forces x1 <= x2: a rectangle dragged up or to the left has its
      corners swapped. */
  datatype Box = Box(x1: real, y1: real, x2: real, y2: real)

  datatype Point = Point(x: real, y: real)

  /** An instance outline as the segmenter returns it: its vertices in order. */
  type Polygon = seq<Point>

  function Max(a: real, b: real): real { if a >= b then a else b }

  function Min(a: real, b: real): real { if a <= b then a else b }

  /** Width times height, signed: negative when the corners are swapped on one axis. */
  function Area(b: Box): real { (b.x2 - b.x1) * (b.y2 - b.y1) }

  /** Length of the common part of [lo1, hi1] and [lo2, hi2], clamped at zero. */
  function Overlap(lo1: real, hi1: real, lo2: real, hi2: real): (r: real)
    ensures r >= 0.0
    ensures r > 0.0 <==> lo1 < hi1 && lo2 < hi2 && lo1 < hi2 && lo2 < hi1
    ensures r <= Max(0.0, hi1 - lo1) && r <= Max(0.0, hi2 - lo2)
  {
    Max(0.0, Min(hi1, hi2) - Max(lo1, lo2))
  }

  /** Area of the overlap of two boxes, zero when they are apart on either axis. */
  function Intersection(a: Box, b: Box): real
  {
    Overlap(a.x1, a.x2, b.x1, b.x2) * Overlap(a.y1, a.y2, b.y1, b.y2)
  }

  /** Intersection over union of a detected box and the user's box; zero
      whenever the union is not positive. */
  function IoU(box: Box, user: Box): (r: real)
    ensures r >= 0.0
  {
    var inter := Intersection(box, user);
    var union := Area(box) + Area(user) - inter;
    NonNegativeProduct(Overlap(box.x1, box.x2, user.x1, user.x2), Overlap(box.y1, box.y2, user.y1, user.y2));
    if union > 0.0 then inter / union else 0.0
  }

  lemma NonNegativeProduct(a: real, b: real)
    requires a >= 0.0 && b >= 0.0
    ensures a * b >= 0.0
  {
  }

  lemma MulMonotone(a: real, b: real, c: real, d: real)
    requires 0.0 <= a <= c && 0.0 <= b <= d
    ensures a * b <= c * d
  {
    assert a * b <= c * b by { assert (c - a) * b >= 0.0; }
    assert c * b <= c * d by { assert c * (d - b) >= 0.0; }
  }

  /** A box with positive width and height matches itself perfectly. */
  lemma IoUSelf(b: Box)
    requires b.x1 < b.x2 && b.y1 < b.y2
    ensures IoU(b, b) == 1.0
  {
    var w, h := b.x2 - b.x1, b.y2 - b.y1;
    assert Intersection(b, b) == w * h;
    assert w * h > 0.0;
    assert Area(b) + Area(b) - Intersection(b, b) == w * h;
    RatioOfEqual(w * h);
  }

  /** Boxes that do not overlap on some axis score zero. */
  lemma IoUApart(a: Box, b: Box)
    requires a.x2 <= b.x1 || b.x2 <= a.x1 || a.y2 <= b.y1 || b.y2 <= a.y1
    ensures IoU(a, b) == 0.0
  {
    ZeroOverlapNoIntersection(a, b);
  }

  /** A user box with no width or no height, or with its corners swapped on
      some axis (dragged up or to the left), scores zero against every box. */
  lemma IoUFlatUserBox(box: Box, user: Box)
    requires user.x2 <= user.x1 || user.y2 <= user.y1
    ensures IoU(box, user) == 0.0
  {
    ZeroOverlapNoIntersection(box, user);
  }

  /** A zero overlap on either axis gives a zero intersection and a zero score. */
  lemma ZeroOverlapNoIntersection(a: Box, b: Box)
    requires Overlap(a.x1, a.x2, b.x1, b.x2) == 0.0 || Overlap(a.y1, a.y2, b.y1, b.y2) == 0.0
    ensures Intersection(a, b) == 0.0 && IoU(a, b) == 0.0
  {
    var ox := Overlap(a.x1, a.x2, b.x1, b.x2);
    var oy := Overlap(a.y1, a.y2, b.y1, b.y2);
    assert ox * oy == 0.0;
    var union := Area(a) + Area(b) - ox * oy;
    if union > 0.0 {
      assert 0.0 / union == 0.0;
    }
  }

  /** The score never exceeds 1, whichever way the corners of either box lie. */
  lemma IoUAtMostOne(a: Box, b: Box)
    ensures IoU(a, b) <= 1.0
  {
    if b.x2 <= b.x1 || b.y2 <= b.y1 {
      IoUFlatUserBox(a, b);
    } else if a.x2 < a.x1 || a.y2 < a.y1 {
      ZeroOverlapNoIntersection(a, b);
    } else {
      OrderedIoUAtMostOne(a, b);
    }
  }

  /** For boxes with their corners in order the score is a ratio in [0, 1]. */
  lemma OrderedIoUAtMostOne(a: Box, b: Box)
    requires a.x1 <= a.x2 && a.y1 <= a.y2 && b.x1 <= b.x2 && b.y1 <= b.y2
    ensures IoU(a, b) <= 1.0
  {
    IntersectionInsideBoth(a, b);
    var inter := Intersection(a, b);
    var union := Area(a) + Area(b) - inter;
    if union > 0.0 {
      RatioAtMostOne(inter, union);
    }
  }

  /** The overlap of two boxes with ordered corners is no larger than either. */
  lemma IntersectionInsideBoth(a: Box, b: Box)
    requires a.x1 <= a.x2 && a.y1 <= a.y2 && b.x1 <= b.x2 && b.y1 <= b.y2
    ensures 0.0 <= Intersection(a, b) <= Area(a)
    ensures Intersection(a, b) <= Area(b)
  {
    IntersectionBelowFirst(a, b);
    IntersectionBelowSecond(a, b);
  }

  lemma IntersectionBelowFirst(a: Box, b: Box)
    requires a.x1 <= a.x2 && a.y1 <= a.y2 && b.x1 <= b.x2 && b.y1 <= b.y2
    ensures 0.0 <= Intersection(a, b) <= Area(a)
  {
    OverlapWithin(a.x1, a.x2, b.x1, b.x2);
    OverlapWithin(a.y1, a.y2, b.y1, b.y2);
    ProductWithinArea(Overlap(a.x1, a.x2, b.x1, b.x2), Overlap(a.y1, a.y2, b.y1, b.y2), a);
  }

  lemma IntersectionBelowSecond(a: Box, b: Box)
    requires a.x1 <= a.x2 && a.y1 <= a.y2 && b.x1 <= b.x2 && b.y1 <= b.y2
    ensures Intersection(a, b) <= Area(b)
  {
    OverlapWithin(a.x1, a.x2, b.x1, b.x2);
    OverlapWithin(a.y1, a.y2, b.y1, b.y2);
    ProductWithinArea(Overlap(a.x1, a.x2, b.x1, b.x2), Overlap(a.y1, a.y2, b.y1, b.y2), b);
  }

  lemma OverlapWithin(lo1: real, hi1: real, lo2: real, hi2: real)
    requires lo1 <= hi1 && lo2 <= hi2
    ensures Overlap(lo1, hi1, lo2, hi2) <= hi1 - lo1 && Overlap(lo1, hi1, lo2, hi2) <= hi2 - lo2
  {
  }

  /** A rectangle of sides ox <= width and oy <= height fits in the box's area. */
  lemma ProductWithinArea(ox: real, oy: real, c: Box)
    requires 0.0 <= ox <= c.x2 - c.x1 && 0.0 <= oy <= c.y2 - c.y1
    ensures 0.0 <= ox * oy <= Area(c)
  {
    NonNegativeProduct(ox, oy);
    MulMonotone(ox, oy, c.x2 - c.x1, c.y2 - c.y1);
  }

  lemma RatioAtMostOne(a: real, b: real)
    requires 0.0 <= a <= b && b > 0.0
    ensures a / b <= 1.0
  {
    var q := a / b;
    assert q * b == a;
    if q > 1.0 {
      PositiveProduct(q - 1.0, b);
    }
  }

  lemma RatioOfEqual(b: real)
    requires b > 0.0
    ensures b / b == 1.0
  {
  }

  lemma PositiveProduct(a: real, b: real)
    requires a > 0.0 && b > 0.0
    ensures a * b > 0.0
  {
  }
}
