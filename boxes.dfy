/**
 * Detection boxes (`android.graphics.Rect`), YOLO predictions and the
 * intersection-over-union overlap measure used by non-max suppression.
 */
module Boxes {
  import opened KotlinNum

  /** `android.graphics.Rect`: integer pixel coordinates. */
  datatype Rect = Rect(left: int, top: int, right: int, bottom: int)

  /** `YoloPredictResult`: class index, objectness score and pixel box. */
  datatype Prediction = Prediction(classIdx: int, score: real, box: Rect)

  /** The signed area `(right - left) * (bottom - top)` computed in `Int`. */
  function Area(r: Rect): int
  {
    (r.right - r.left) * (r.bottom - r.top)
  }

  /** A box whose edges are in order, so that it covers a positive area. */
  predicate Proper(r: Rect)
  {
    r.left < r.right && r.top < r.bottom
  }

  /** `(hi - lo).coerceAtLeast(0f)`. */
  function ClampedExtent(lo: int, hi: int): (e: real)
    ensures e >= 0.0
  {
    if hi - lo >= 0 then (hi - lo) as real else 0.0
  }

  /** The area shared by the two boxes, as the source computes it (height times width). */
  function Intersection(a: Rect, b: Rect): (r: real)
    ensures r >= 0.0
  {
    InterHeight(a, b) * InterWidth(a, b)
  }

  /**
   * `IOU(a, b)`: zero when either box has a non-positive area, otherwise the
   * intersection divided by the union.
   */
  function Iou(a: Rect, b: Rect): (r: real)
    ensures Area(a) <= 0 || Area(b) <= 0 ==> r == 0.0
  {
    var areaA := Area(a) as real;
    if areaA <= 0.0 then 0.0
    else
      var areaB := Area(b) as real;
      if areaB <= 0.0 then 0.0
      else
        var inter := Intersection(a, b);
        IntersectionBound(a, b);
        inter / (areaA + areaB - inter)
  }

  lemma CastMul(x: int, y: int)
    ensures (x * y) as real == (x as real) * (y as real)
  {
  }

  lemma MulMono(x: real, y: real, X: real, Y: real)
    requires 0.0 <= x <= X && 0.0 <= y <= Y
    ensures x * y <= X * Y
  {
    assert x * y <= X * y;
    assert X * y <= X * Y;
  }

  /** The two extents whose product is the intersection. */
  function InterHeight(a: Rect, b: Rect): real
  {
    ClampedExtent(Max(a.top, b.top), Min(a.bottom, b.bottom))
  }

  function InterWidth(a: Rect, b: Rect): real
  {
    ClampedExtent(Max(a.left, b.left), Min(a.right, b.right))
  }

  /** The intersection never exceeds the area of either box. */
  lemma IntersectionBound(a: Rect, b: Rect)
    requires Area(a) as real > 0.0 && Area(b) as real > 0.0
    ensures Intersection(a, b) <= Area(a) as real
    ensures Intersection(a, b) <= Area(b) as real
  {
    ExtentsWithin(a, b);
    ExtentsWithin(b, a);
    IntersectionSymmetric(a, b);
  }

  lemma IntersectionSymmetric(a: Rect, b: Rect)
    ensures Intersection(a, b) == Intersection(b, a)
  {
    assert InterHeight(a, b) == InterHeight(b, a);
    assert InterWidth(a, b) == InterWidth(b, a);
  }

  /** The intersection is at most the area of its first argument. */
  lemma ExtentsWithin(a: Rect, b: Rect)
    requires Area(a) as real > 0.0
    ensures Intersection(a, b) <= Area(a) as real
  {
    var h := InterHeight(a, b);
    var w := InterWidth(a, b);
    var ha, wa := (a.bottom - a.top) as real, (a.right - a.left) as real;
    CastMul(a.right - a.left, a.bottom - a.top);
    if h > 0.0 && w > 0.0 {
      calc {
        Intersection(a, b);
        h * w;
      <= { ProductWithin(h, w, ha, wa); }
        wa * ha;
        Area(a) as real;
      }
    } else {
      ZeroProduct(h, w);
    }
  }

  lemma ProductWithin(h: real, w: real, ha: real, wa: real)
    requires 0.0 < h <= ha && 0.0 < w <= wa
    ensures h * w <= wa * ha
  {
    MulMono(h, w, ha, wa);
  }

  lemma ZeroProduct(h: real, w: real)
    requires h == 0.0 || w == 0.0
    ensures h * w == 0.0
  {
  }

  /** The overlap ratio always lies in [0, 1]. */
  lemma IouBounds(a: Rect, b: Rect)
    ensures 0.0 <= Iou(a, b) <= 1.0
  {
    var areaA, areaB := Area(a) as real, Area(b) as real;
    if areaA > 0.0 && areaB > 0.0 {
      IntersectionBound(a, b);
      var inter := Intersection(a, b);
      var union := areaA + areaB - inter;
      assert union >= areaB > 0.0;
      assert 0.0 <= inter <= union;
      assert Iou(a, b) == inter / union;
      DivAtMostOne(inter, union);
    }
  }

  lemma SelfRatio(x: real)
    requires x > 0.0
    ensures x / (x + x - x) == 1.0
  {
  }

  lemma DivAtMostOne(n: real, d: real)
    requires 0.0 <= n <= d && d > 0.0
    ensures 0.0 <= n / d <= 1.0
  {
  }

  /** The overlap ratio does not depend on the order of its arguments. */
  lemma IouSymmetric(a: Rect, b: Rect)
    ensures Iou(a, b) == Iou(b, a)
  {
    assert Intersection(a, b) == Intersection(b, a);
  }

  /** A proper box overlaps itself completely. */
  lemma IouSelf(a: Rect)
    requires Proper(a)
    ensures Iou(a, a) == 1.0
  {
    var h := (a.bottom - a.top) as real;
    var w := (a.right - a.left) as real;
    CastMul(a.right - a.left, a.bottom - a.top);
    assert Area(a) as real == w * h;
    assert InterHeight(a, a) == h && InterWidth(a, a) == w;
    assert Intersection(a, a) == h * w;
    assert w * h > 0.0;
    SelfRatio(Area(a) as real);
  }

  /**
   * A box given with both pairs of edges swapped has a positive `Int` area,
   * yet its clamped self-intersection is empty, so its overlap with itself is 0.
   */
  lemma IouSelfInverted(a: Rect)
    requires a.right < a.left && a.bottom < a.top
    ensures Area(a) > 0
    ensures Iou(a, a) == 0.0
  {
    assert Area(a) == (a.left - a.right) * (a.top - a.bottom);
  }

  /** Boxes separated horizontally or vertically do not overlap. */
  lemma IouDisjoint(a: Rect, b: Rect)
    requires a.right <= b.left || b.right <= a.left || a.bottom <= b.top || b.bottom <= a.top
    ensures Iou(a, b) == 0.0
  {
    if Area(a) > 0 && Area(b) > 0 {
      var h := InterHeight(a, b);
      var w := InterWidth(a, b);
      assert Intersection(a, b) == h * w;
      assert h == 0.0 || w == 0.0;
      assert Intersection(a, b) == 0.0;
    }
  }
}
