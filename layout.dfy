/**
 * `makeLayoutImage`: a 480 by 480 raster filled with the first palette colour,
 * on which every detection's rectangle, scaled by 0.75, is painted with the
 * palette colour of its class. A pixel keeps the list of colours painted on it
 * so far and shows their truncating integer mean.
 */
module Layout {
  import opened KotlinNum
  import opened Boxes

  /** Width and height of the layout bitmap. */
  const Size: int := 480

  /** Lowest and highest packed colour with alpha 0xFF, as signed `Int`s. */
  const OpaqueMin: int := -0x100_0000
  const OpaqueMax: int := -1

  /** The two's-complement bits of an `Int` value. */
  function Bits(v: int): bv32
  {
    (v % 0x1_0000_0000) as bv32
  }

  /** The signed `Int` with the given bits. */
  function Signed(w: bv32): int
  {
    if w as int >= 0x8000_0000 then w as int - 0x1_0000_0000 else w as int
  }

  /** The bits `0xff000000 | (r shl 16) | (g shl 8) | b` that `Color.rgb` packs. */
  function Word(r: int, g: int, b: int): bv32
  {
    0xFF00_0000 | (Bits(r) << 16) | (Bits(g) << 8) | Bits(b)
  }

  /**
   * `Color.rgb(r, g, b)`: whatever the channel values, the alpha byte is
   * 0xFF, so the colour is a negative `Int`.
   */
  function ColorRgb(r: int, g: int, b: int): (c: int)
    ensures OpaqueMin <= c <= OpaqueMax
  {
    AlphaSet((Bits(r) << 16) | (Bits(g) << 8) | Bits(b));
    Signed(Word(r, g, b))
  }

  lemma AlphaSet(lo: bv32)
    ensures (0xFF00_0000 | lo) as int >= 0xFF00_0000
  {
    assert (0xFF00_0000 | lo) >= 0xFF00_0000;
  }

  /** Channels that fit a byte are packed into the red, green and blue bytes, under alpha 0xFF. */
  lemma WordBytes(r: int, g: int, b: int)
    requires Bits(r) < 0x100 && Bits(g) < 0x100 && Bits(b) < 0x100
    ensures var w := Word(r, g, b);
      && w >> 24 == 0xFF && (w >> 16) & 0xFF == Bits(r)
      && (w >> 8) & 0xFF == Bits(g) && w & 0xFF == Bits(b)
  {
  }

  /** The packed colour of a palette row. */
  function Packed(rgb: seq<int>): (c: int)
    requires |rgb| >= 3
    ensures OpaqueMin <= c <= OpaqueMax
  {
    ColorRgb(rgb[0], rgb[1], rgb[2])
  }

  /** `(0.75 * v).toInt()`. */
  function Scale(v: int): int
  {
    ToInt(0.75 * v as real)
  }

  function ScaledRect(r: Rect): Rect
  {
    Rect(Scale(r.left), Scale(r.top), Scale(r.right), Scale(r.bottom))
  }

  /** The painting loops `for (y in top until bottom) for (x in left until right)` visit (x, y). */
  predicate Covers(r: Rect, x: int, y: int)
  {
    r.left <= x < r.right && r.top <= y < r.bottom
  }

  predicate NonEmpty(r: Rect)
  {
    r.left < r.right && r.top < r.bottom
  }

  predicate InCanvas(r: Rect)
  {
    0 <= r.left && 0 <= r.top && r.right <= Size && r.bottom <= Size
  }

  /**
   * Painting `d` raises no exception: a rectangle that covers any pixel lies
   * inside the canvas and its class has a palette row of three channels.
   */
  predicate Paintable(d: Prediction, palette: seq<seq<int>>)
  {
    var r := ScaledRect(d.box);
    NonEmpty(r) ==>
      InCanvas(r) && 0 <= d.classIdx + 1 < |palette| && |palette[d.classIdx + 1]| >= 3
  }

  /** `makeLayoutImage` returns a bitmap rather than throwing. */
  predicate LayoutOk(dets: seq<Prediction>, palette: seq<seq<int>>)
  {
    && |palette| > 0 && |palette[0]| >= 3
    && forall k :: 0 <= k < |dets| ==> Paintable(dets[k], palette)
  }

  /** The colour detection `d` paints. */
  function ClassColor(d: Prediction, palette: seq<seq<int>>): int
    requires Paintable(d, palette) && NonEmpty(ScaledRect(d.box))
  {
    Packed(palette[d.classIdx + 1])
  }

  /** The colours painted on pixel (x, y) by `dets`, in paint order. */
  function CoverColors(dets: seq<Prediction>, palette: seq<seq<int>>, x: int, y: int): (cs: seq<int>)
    requires forall k :: 0 <= k < |dets| ==> Paintable(dets[k], palette)
    ensures |cs| <= |dets|
    ensures forall k :: 0 <= k < |cs| ==> OpaqueMin <= cs[k] <= OpaqueMax
  {
    if |dets| == 0 then []
    else
      var last := dets[|dets| - 1];
      CoverColors(dets[..|dets| - 1], palette, x, y)
        + (if Covers(ScaledRect(last.box), x, y) then [ClassColor(last, palette)] else [])
  }

  /** `initPixelData[y][x].sum() / initPixelData[y][x].size`, with `Int` wrap-around of the sum. */
  function Mean(cs: seq<int>): int
    requires cs != []
  {
    TruncDiv(Wrap32(SumInt(cs)), |cs|)
  }

  /** What the bitmap shows for a pixel with colour list `cs`. */
  function Shade(background: int, cs: seq<int>): int
  {
    if |cs| == 0 then background else Mean(cs)
  }

  /** The layout pixel at (x, y): the background, or the mean of the colours painted there. */
  function LayoutPixel(dets: seq<Prediction>, palette: seq<seq<int>>, x: int, y: int): int
    requires LayoutOk(dets, palette)
  {
    Shade(Packed(palette[0]), CoverColors(dets, palette, x, y))
  }

  // ---------------------------------------------------------------------
  // Properties of the layout raster

  /** A pixel no scaled rectangle covers keeps the background colour. */
  lemma UncoveredKeepsBackground(dets: seq<Prediction>, palette: seq<seq<int>>, x: int, y: int)
    requires LayoutOk(dets, palette)
    requires forall k :: 0 <= k < |dets| ==> !Covers(ScaledRect(dets[k].box), x, y)
    ensures CoverColors(dets, palette, x, y) == []
    ensures LayoutPixel(dets, palette, x, y) == Packed(palette[0])
  {
    NoCoverColors(dets, palette, x, y);
  }

  /** With no detections the raster is uniformly the background colour. */
  lemma EmptyLayoutUniform(palette: seq<seq<int>>, x: int, y: int)
    requires LayoutOk([], palette)
    ensures LayoutPixel([], palette, x, y) == Packed(palette[0])
  {
    UncoveredKeepsBackground([], palette, x, y);
  }

  /** Sums of at most 128 opaque colours stay inside the `Int` range. */
  lemma OpaqueSumFits(cs: seq<int>)
    requires |cs| <= 128
    requires forall k :: 0 <= k < |cs| ==> OpaqueMin <= cs[k] <= OpaqueMax
    ensures InIntRange(SumInt(cs))
    ensures Wrap32(SumInt(cs)) == SumInt(cs)
  {
    SumIntBounds(cs, OpaqueMin, OpaqueMax);
  }

  /** The truncating mean of values in [lo, hi] lies in [lo, hi]. */
  lemma MeanWithin(cs: seq<int>, lo: int, hi: int)
    requires cs != [] && lo <= hi <= 0
    requires forall k :: 0 <= k < |cs| ==> lo <= cs[k] <= hi
    requires InIntRange(SumInt(cs))
    ensures lo <= Mean(cs) <= hi
  {
    var n := |cs|;
    var s := SumInt(cs);
    SumIntBounds(cs, lo, hi);
    assert n * lo <= s <= n * hi;
    MeanOfBounded(s, n, lo, hi);
  }

  /** n * lo <= s <= n * hi with lo <= hi <= 0 gives lo <= s / n <= hi, truncating. */
  lemma MeanOfBounded(s: int, n: nat, lo: int, hi: int)
    requires n > 0 && lo <= hi <= 0 && n * lo <= s <= n * hi
    ensures lo <= TruncDiv(s, n) <= hi
  {
    var q := Abs(s) / n;
    assert s <= 0;
    assert TruncDiv(s, n) == -q;
    assert Abs(s) == -s;
    assert -s <= n * (-lo);
    DivLe(-s, n, -lo);
    assert q <= -lo;
    assert n * (-hi) <= -s;
    DivGe(-s, n, -hi);
    assert q >= -hi;
  }

  lemma DivLe(a: nat, n: nat, m: nat)
    requires n > 0 && a <= n * m
    ensures a / n <= m
  {
  }

  lemma DivGe(a: nat, n: nat, m: nat)
    requires n > 0 && n * m <= a
    ensures m <= a / n
  {
    var q, r := a / n, a % n;
    assert a == n * q + r && r < n;
    assert n * (q + 1) == n * q + n;
    MulStrict(n, m, q + 1);
  }

  /** Cancelling a positive factor in a strict inequality. */
  lemma MulStrict(n: int, x: int, y: int)
    requires n > 0 && n * x < n * y
    ensures x < y
  {
    assert n * y - n * x == n * (y - x);
    PositiveFactor(n, y - x);
  }

  lemma PositiveFactor(n: int, t: int)
    requires n > 0 && n * t > 0
    ensures t > 0
  {
  }

  /**
   * With at most 128 detections no pixel sum overflows, and every pixel of the
   * raster is an opaque packed colour.
   */
  lemma LayoutPixelOpaque(dets: seq<Prediction>, palette: seq<seq<int>>, x: int, y: int)
    requires LayoutOk(dets, palette) && |dets| <= 128
    ensures OpaqueMin <= LayoutPixel(dets, palette, x, y) <= OpaqueMax
  {
    var cs := CoverColors(dets, palette, x, y);
    if |cs| > 0 {
      OpaqueSumFits(cs);
      MeanWithin(cs, OpaqueMin, OpaqueMax);
    }
  }

  /** Painting the same colour between 1 and 128 times leaves that colour. */
  lemma {:induction false} RepeatedColorIsStable(cs: seq<int>, c: int)
    requires cs != [] && |cs| <= 128 && OpaqueMin <= c <= OpaqueMax
    requires forall k :: 0 <= k < |cs| ==> cs[k] == c
    ensures Mean(cs) == c
  {
    OpaqueSumFits(cs);
    MeanWithin(cs, c, c);
  }

  /** A pixel covered by exactly one detection shows that detection's class colour. */
  lemma SingleCoverShowsClassColor(dets: seq<Prediction>, palette: seq<seq<int>>, x: int, y: int, k: nat)
    requires LayoutOk(dets, palette) && k < |dets|
    requires Covers(ScaledRect(dets[k].box), x, y)
    requires forall j :: 0 <= j < |dets| && j != k ==> !Covers(ScaledRect(dets[j].box), x, y)
    ensures CoverColors(dets, palette, x, y) == [ClassColor(dets[k], palette)]
    ensures LayoutPixel(dets, palette, x, y) == ClassColor(dets[k], palette)
  {
    SingleCoverColors(dets, palette, x, y, k);
    var c := ClassColor(dets[k], palette);
    RepeatedColorIsStable([c], c);
  }

  /** The colour list of a pixel covered by exactly one detection. */
  lemma {:induction false} SingleCoverColors(dets: seq<Prediction>, palette: seq<seq<int>>, x: int, y: int, k: nat)
    requires (forall j :: 0 <= j < |dets| ==> Paintable(dets[j], palette)) && k < |dets|
    requires Covers(ScaledRect(dets[k].box), x, y)
    requires forall j :: 0 <= j < |dets| && j != k ==> !Covers(ScaledRect(dets[j].box), x, y)
    ensures CoverColors(dets, palette, x, y) == [ClassColor(dets[k], palette)]
  {
    var init := dets[..|dets| - 1];
    assert forall j :: 0 <= j < |init| ==> init[j] == dets[j];
    assert CoverColors(dets, palette, x, y) == CoverColors(init, palette, x, y)
      + (if Covers(ScaledRect(dets[|dets| - 1].box), x, y) then [ClassColor(dets[|dets| - 1], palette)] else []);
    if k == |dets| - 1 {
      NoCoverColors(init, palette, x, y);
    } else {
      SingleCoverColors(init, palette, x, y, k);
    }
  }

  /** A pixel no detection covers has an empty colour list. */
  lemma {:induction false} NoCoverColors(dets: seq<Prediction>, palette: seq<seq<int>>, x: int, y: int)
    requires forall j :: 0 <= j < |dets| ==> Paintable(dets[j], palette)
    requires forall j :: 0 <= j < |dets| ==> !Covers(ScaledRect(dets[j].box), x, y)
    ensures CoverColors(dets, palette, x, y) == []
  {
    if |dets| > 0 {
      var init := dets[..|dets| - 1];
      assert forall j :: 0 <= j < |init| ==> init[j] == dets[j];
      NoCoverColors(init, palette, x, y);
    }
  }

  /**
   * When every detection covering a pixel paints the same colour `c`, the
   * pixel's list holds only `c`, and it is non-empty when some detection covers
   * the pixel.
   */
  lemma {:induction false} CoverColorsUniform(dets: seq<Prediction>, palette: seq<seq<int>>,
                                              x: int, y: int, c: int)
    requires forall j :: 0 <= j < |dets| ==> Paintable(dets[j], palette)
    requires forall j :: 0 <= j < |dets| && Covers(ScaledRect(dets[j].box), x, y) ==>
      ClassColor(dets[j], palette) == c
    ensures forall i :: 0 <= i < |CoverColors(dets, palette, x, y)| ==> CoverColors(dets, palette, x, y)[i] == c
    ensures forall j :: 0 <= j < |dets| && Covers(ScaledRect(dets[j].box), x, y) ==>
      |CoverColors(dets, palette, x, y)| > 0
  {
    if |dets| > 0 {
      var init := dets[..|dets| - 1];
      forall j | 0 <= j < |init| ensures Paintable(init[j], palette) && init[j] == dets[j] {
        assert init[j] == dets[j];
      }
      CoverColorsUniform(init, palette, x, y, c);
    }
  }

  /**
   * With at most 128 detections, a pixel that some detection covers, and on
   * which every covering detection paints the colour `c`, shows `c`.
   */
  lemma UniformCoverShowsColor(dets: seq<Prediction>, palette: seq<seq<int>>, x: int, y: int, k: nat, c: int)
    requires LayoutOk(dets, palette) && |dets| <= 128 && k < |dets|
    requires Covers(ScaledRect(dets[k].box), x, y)
    requires forall j :: 0 <= j < |dets| && Covers(ScaledRect(dets[j].box), x, y) ==>
      ClassColor(dets[j], palette) == c
    ensures LayoutPixel(dets, palette, x, y) == c
  {
    CoverColorsUniform(dets, palette, x, y, c);
    var cs := CoverColors(dets, palette, x, y);
    assert ClassColor(dets[k], palette) == c;
    RepeatedColorIsStable(cs, c);
  }

  // ---------------------------------------------------------------------
  // The imperative painting

  /** The bitmap shows, at every pixel, the shade of that pixel's colour list. */
  predicate Consistent(bitmap: array2<int>, pixels: array2<seq<int>>, background: int)
    reads bitmap, pixels
    requires bitmap.Length0 == pixels.Length0 && bitmap.Length1 == pixels.Length1
  {
    forall y, x :: 0 <= y < bitmap.Length0 && 0 <= x < bitmap.Length1 ==>
      bitmap[y, x] == Shade(background, pixels[y, x])
  }

  /**
   * Paints `color` on every pixel of `rect`, row by row, appending it to the
   * pixel's colour list and showing the new mean.
   */
  method PaintRect(bitmap: array2<int>, pixels: array2<seq<int>>, rect: Rect, color: int, background: int)
    requires bitmap != pixels as object
    requires bitmap.Length0 == pixels.Length0 == Size && bitmap.Length1 == pixels.Length1 == Size
    requires NonEmpty(rect) ==> InCanvas(rect)
    requires Consistent(bitmap, pixels, background)
    modifies bitmap, pixels
    ensures Consistent(bitmap, pixels, background)
    ensures forall y, x :: 0 <= y < Size && 0 <= x < Size ==>
      pixels[y, x] == old(pixels[y, x]) + (if Covers(rect, x, y) then [color] else [])
  {
    var y := rect.top;
    while y < rect.bottom
      invariant rect.top <= y && (y <= rect.bottom || rect.bottom <= rect.top)
      invariant Consistent(bitmap, pixels, background)
      invariant forall yy, xx :: 0 <= yy < Size && 0 <= xx < Size ==>
        pixels[yy, xx] == old(pixels[yy, xx]) + (if Covers(rect, xx, yy) && yy < y then [color] else [])
      decreases rect.bottom - y
    {
      var x := rect.left;
      while x < rect.right
        invariant rect.left <= x && (x <= rect.right || x == rect.left)
        invariant Consistent(bitmap, pixels, background)
        invariant forall yy, xx :: 0 <= yy < Size && 0 <= xx < Size ==>
          pixels[yy, xx] == old(pixels[yy, xx])
            + (if Covers(rect, xx, yy) && (yy < y || (yy == y && xx < x)) then [color] else [])
        decreases rect.right - x
      {
        pixels[y, x] := pixels[y, x] + [color];
        var avgColor := Mean(pixels[y, x]);
        bitmap[y, x] := avgColor;
        x := x + 1;
      }
      y := y + 1;
    }
  }

  /**
   * `makeLayoutImage(yoloResult)`: `ok` is false where the source throws (an
   * empty or short palette row, a covering rectangle outside the canvas);
   * otherwise every pixel of `bitmap` is `LayoutPixel`.
   */
  method MakeLayoutImage(yoloResult: seq<Prediction>, palette: seq<seq<int>>)
    returns (ok: bool, bitmap: array2<int>)
    ensures fresh(bitmap) && bitmap.Length0 == Size && bitmap.Length1 == Size
    ensures ok == LayoutOk(yoloResult, palette)
    ensures ok ==> forall y, x :: 0 <= y < Size && 0 <= x < Size ==>
      bitmap[y, x] == LayoutPixel(yoloResult, palette, x, y)
  {
    bitmap := new int[Size, Size];
    if |palette| == 0 || |palette[0]| < 3 {
      return false, bitmap;
    }
    var background := Packed(palette[0]);
    // eraseColor
    forall y, x | 0 <= y < Size && 0 <= x < Size {
      bitmap[y, x] := background;
    }
    var pixels := new seq<int>[Size, Size]((_, _) => []);
    ok := PaintDetections(bitmap, pixels, yoloResult, palette, background);
  }

  /** The loop over `yoloResult`, painting each detection's rectangle in turn. */
  method PaintDetections(bitmap: array2<int>, pixels: array2<seq<int>>, yoloResult: seq<Prediction>,
                         palette: seq<seq<int>>, background: int) returns (ok: bool)
    requires bitmap != pixels as object
    requires bitmap.Length0 == pixels.Length0 == Size && bitmap.Length1 == pixels.Length1 == Size
    requires |palette| > 0 && |palette[0]| >= 3 && background == Packed(palette[0])
    requires forall y, x :: 0 <= y < Size && 0 <= x < Size ==> pixels[y, x] == [] && bitmap[y, x] == background
    modifies bitmap, pixels
    ensures ok == LayoutOk(yoloResult, palette)
    ensures ok ==> forall y, x :: 0 <= y < Size && 0 <= x < Size ==>
      bitmap[y, x] == LayoutPixel(yoloResult, palette, x, y)
  {
    var d := 0;
    while d < |yoloResult|
      invariant 0 <= d <= |yoloResult|
      invariant LayoutOk(yoloResult[..d], palette)
      invariant Consistent(bitmap, pixels, background)
      invariant forall y, x :: 0 <= y < Size && 0 <= x < Size ==>
        pixels[y, x] == CoverColors(yoloResult[..d], palette, x, y)
    {
      var predictResult := yoloResult[d];
      var rect := ScaledRect(predictResult.box);
      var targetColorIdx := predictResult.classIdx + 1;
      if NonEmpty(rect) {
        if !InCanvas(rect) || !(0 <= targetColorIdx < |palette|) || |palette[targetColorIdx]| < 3 {
          assert !Paintable(yoloResult[d], palette);
          return false;
        }
      }
      assert Paintable(predictResult, palette);
      var color := if NonEmpty(rect) then Packed(palette[targetColorIdx]) else 0;
      PaintRect(bitmap, pixels, rect, color, background);
      NextCoverColors(yoloResult, palette, d);
      d := d + 1;
    }
    assert yoloResult[..d] == yoloResult;
    return true;
  }

  /** One more detection extends the colour lists of exactly the pixels it covers. */
  lemma NextCoverColors(dets: seq<Prediction>, palette: seq<seq<int>>, d: nat)
    requires d < |dets|
    requires LayoutOk(dets[..d], palette) && Paintable(dets[d], palette)
    ensures LayoutOk(dets[..d + 1], palette)
    ensures forall y, x :: (CoverColors(dets[..d + 1], palette, x, y)
      == CoverColors(dets[..d], palette, x, y)
        + (if Covers(ScaledRect(dets[d].box), x, y) then [ClassColor(dets[d], palette)] else []))
  {
    var next := dets[..d + 1];
    assert next[..d] == dets[..d];
    assert forall k :: 0 <= k < d ==> next[k] == dets[..d][k];
  }
}
