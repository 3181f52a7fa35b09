/**
 * `AutoFitSurfaceView`: a camera preview surface that remembers the aspect
 * ratio of the camera resolution and measures itself so that the preview
 * covers the space it is given (a center crop).
 */
module AutoFit {
  import opened Wrappers
  import opened KotlinNum

  const RequireFailed := "IllegalArgumentException"

  /** `roundToInt()` on a `Float`, which saturates at the bounds of `Int`. */
  function RoundSat(x: real): (r: int)
    ensures InIntRange(r)
    ensures InIntRange(RoundToInt(x)) ==> r == RoundToInt(x)
  {
    var n := RoundToInt(x);
    if n > IntMax then IntMax else if n < IntMin then IntMin else n
  }

  /** `actualRatio`: the stored ratio for a landscape space, its reciprocal otherwise. */
  function ActualRatio(aspectRatio: real, width: int, height: int): (r: real)
    requires aspectRatio != 0.0
    ensures r != 0.0
    ensures aspectRatio > 0.0 ==> r > 0.0
  {
    if width > height then aspectRatio else 1.0 / aspectRatio
  }

  /** `side * ratio` for an `Int` side and a `Float` ratio. */
  function Scale(side: int, ratio: real): real
  {
    (side as real) * ratio
  }

  /** `side / ratio` for an `Int` side and a `Float` ratio. */
  function Shrink(side: int, ratio: real): real
    requires ratio != 0.0
  {
    (side as real) / ratio
  }

  /** The dimensions `onMeasure` sets for the given width and height. */
  function MeasureOf(aspectRatio: real, width: int, height: int): (int, int)
  {
    if aspectRatio == 0.0 then (width, height)
    else
      var actualRatio := ActualRatio(aspectRatio, width, height);
      if (width as real) < Scale(height, actualRatio)
      then (RoundSat(Scale(height, actualRatio)), height)
      else (width, RoundSat(Shrink(width, actualRatio)))
  }

  class AutoFitSurfaceView {
    var aspectRatio: real

    /** The dimensions last passed to `setMeasuredDimension`. */
    var measuredWidth: int
    var measuredHeight: int

    /** The ratio is 0 until one is set, and positive afterwards. */
    predicate Valid()
      reads this
    {
      aspectRatio >= 0.0
    }

    constructor()
      ensures Valid() && aspectRatio == 0.0
    {
      aspectRatio := 0.0;
      measuredWidth := 0;
      measuredHeight := 0;
    }

    /**
     * `setAspectRatio(width, height)`: a non-positive side is rejected before
     * anything changes; otherwise the ratio becomes `width / height`.
     */
    method SetAspectRatio(width: int, height: int) returns (thrown: Option<string>)
      requires Valid()
      modifies this
      ensures Valid()
      ensures !(width > 0 && height > 0) ==> thrown == Some(RequireFailed) && aspectRatio == old(aspectRatio)
      ensures width > 0 && height > 0 ==>
        thrown == None && aspectRatio == (width as real) / (height as real) && aspectRatio > 0.0
      ensures measuredWidth == old(measuredWidth) && measuredHeight == old(measuredHeight)
    {
      if !(width > 0 && height > 0) {
        return Some(RequireFailed);
      }
      aspectRatio := (width as real) / (height as real);
      thrown := None;
    }

    /** `onMeasure`: the measured dimensions for the space given, the ratio unchanged. */
    method OnMeasure(width: int, height: int)
      requires Valid()
      modifies this
      ensures Valid() && aspectRatio == old(aspectRatio)
      ensures (measuredWidth, measuredHeight) == MeasureOf(aspectRatio, width, height)
    {
      var ratio := aspectRatio;
      if ratio == 0.0 {
        measuredWidth, measuredHeight := width, height;
      } else {
        var newWidth: int;
        var newHeight: int;
        var actualRatio := ActualRatio(ratio, width, height);
        if (width as real) < Scale(height, actualRatio) {
          newHeight := height;
          newWidth := RoundSat(Scale(height, actualRatio));
        } else {
          newWidth := width;
          newHeight := RoundSat(Shrink(width, actualRatio));
        }
        measuredWidth, measuredHeight := newWidth, newHeight;
      }
    }
  }

  /** While no ratio is set the view takes exactly the space it is given. */
  lemma MeasureWithoutRatio(width: int, height: int)
    ensures MeasureOf(0.0, width, height) == (width, height)
  {
  }

  /**
   * Center crop: with a positive ratio the measured size covers the given
   * size, one side is kept, and the other is the kept side scaled by the
   * effective ratio, rounded to the nearest `Int`.
   */
  lemma MeasureCentreCrop(aspectRatio: real, width: int, height: int)
    requires aspectRatio > 0.0 && InIntRange(width) && 0 <= height <= IntMax
    ensures var (w, h) := MeasureOf(aspectRatio, width, height);
      w >= width && h >= height
    ensures var (w, h) := MeasureOf(aspectRatio, width, height);
      var r := ActualRatio(aspectRatio, width, height);
      (h == height && (width as real) < Scale(height, r) && w == RoundSat(Scale(height, r))) ||
      (w == width && Scale(height, r) <= width as real && h == RoundSat(Shrink(width, r)))
  {
    var r := ActualRatio(aspectRatio, width, height);
    if !((width as real) < Scale(height, r)) {
      assert Shrink(width, r) >= height as real by {
        DivideMonotone(height as real, r, width as real);
      }
    }
  }

  /** `x * r <= y` and `r > 0` give `x <= y / r`. */
  lemma DivideMonotone(x: real, r: real, y: real)
    requires r > 0.0 && x * r <= y
    ensures x <= y / r
  {
    assert (y / r) * r == y;
  }

  /** `gcd(a, b)`: Euclid's algorithm on Kotlin's truncating remainder. */
  function Gcd(a: int, b: int): int
    decreases Abs(b)
  {
    if b != 0 then Gcd(b, TruncRem(a, b)) else a
  }

  function Times(d: int, k: int): int
  {
    d * k
  }

  /** `d` divides `x`. */
  ghost predicate Divides(d: int, x: int)
  {
    exists k :: Times(d, k) == x
  }

  /** A divisor of `x` divides `x * q + y` exactly when it divides `y`. */
  lemma DividesCombination(d: int, x: int, q: int, y: int)
    requires Divides(d, x)
    ensures Divides(d, x * q + y) <==> Divides(d, y)
  {
    var m :| Times(d, m) == x;
    assert x * q == Times(d, m * q);
    if Divides(d, y) {
      var n :| Times(d, n) == y;
      assert x * q + y == Times(d, m * q + n);
    }
    if Divides(d, x * q + y) {
      var t :| Times(d, t) == x * q + y;
      assert y == Times(d, t - m * q);
    }
  }

  /** `gcd(a, b)` is a common divisor of `a` and `b` that every common divisor divides. */
  lemma {:induction false} GcdIsGreatestCommonDivisor(a: int, b: int)
    ensures Divides(Gcd(a, b), a) && Divides(Gcd(a, b), b)
    ensures forall d :: Divides(d, a) && Divides(d, b) ==> Divides(d, Gcd(a, b))
    decreases Abs(b)
  {
    if b == 0 {
      assert Times(a, 1) == a && Times(a, 0) == b;
    } else {
      var r := TruncRem(a, b);
      var q := TruncDiv(a, b);
      assert a == b * q + r;
      GcdIsGreatestCommonDivisor(b, r);
      var g := Gcd(b, r);
      DividesCombination(g, b, q, r);
      forall d | Divides(d, a) && Divides(d, b)
        ensures Divides(d, g)
      {
        DividesCombination(d, b, q, r);
      }
    }
  }

  /** On non-negative sides `gcd` is non-negative, and 0 only for `gcd(0, 0)`. */
  lemma {:induction false} GcdPositive(a: int, b: int)
    requires a >= 0 && b >= 0
    ensures Gcd(a, b) >= 0
    ensures Gcd(a, b) == 0 <==> a == 0 && b == 0
    decreases b
  {
    if b != 0 {
      GcdPositive(b, TruncRem(a, b));
    }
  }

  /** `gcd(a, 0)` is `a`, and a non-zero `b` hands over to `gcd(b, a % b)`. */
  lemma GcdSteps(a: int, b: int)
    ensures Gcd(a, 0) == a
    ensures b != 0 ==> Gcd(a, b) == Gcd(b, TruncRem(a, b))
  {
  }
}
