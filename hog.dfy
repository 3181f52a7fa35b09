/**
 * The histogram-of-gradients feature: `getHistogram` (one 16 by 16 cell),
 * the fusion and binarisation loops of `getHistogramMap`, and `getHOG`.
 * The per-channel magnitude and orientation maps that OpenCV computes are
 * inputs; a map is a square grid indexed `[row][col]`.
 */
module Hog {
  import opened KotlinNum

  /** `HogConfig.imageResize`: the resized image is 128 by 128. */
  const ImageSize: nat := 128
  /** `HogConfig.cellSize`. */
  const CellSize: nat := 16
  /** Cells per side of the histogram map. */
  const CellsPerSide: nat := 8
  /** `HogConfig.nBins`. */
  const NBins: nat := 9
  /** `maxDegree / nBins`: each bin spans 20 degrees. */
  const BinWidth: real := 20.0
  /** `HogConfig.magnitudeThreshold`. */
  const MagnitudeThreshold: real := 10.0

  type Grid = seq<seq<real>>

  predicate IsGrid(g: Grid)
  {
    |g| == ImageSize && forall r :: 0 <= r < |g| ==> |g[r]| == ImageSize
  }

  /** Orientations produced by the gradient step lie in [0, 180). */
  predicate IsOrientation(o: real) { 0.0 <= o < 180.0 }

  predicate OrientationGrid(g: Grid)
  {
    IsGrid(g) && forall r, c :: 0 <= r < ImageSize && 0 <= c < ImageSize ==> IsOrientation(g[r][c])
  }

  function Zeros(n: nat): (z: seq<real>)
    ensures |z| == n && forall k :: 0 <= k < n ==> z[k] == 0.0
  {
    seq(n, _ => 0.0)
  }

  // ---------------------------------------------------------------------
  // One pixel's vote

  /** The bin of orientation `o`: `(o / 20).toInt()`. */
  function BinIndex(o: real): (i: nat)
    requires IsOrientation(o)
    ensures i < NBins
    ensures i as real * 20.0 <= o < (i + 1) as real * 20.0
  {
    Trunc(o / 20.0)
  }

  /** How far `o` lies into its bin, as a fraction of the bin width. */
  function Fraction(o: real): (f: real)
    requires IsOrientation(o)
    ensures 0.0 <= f < 1.0
  {
    (o - BinIndex(o) as real * 20.0) / 20.0
  }

  /**
   * The two updates of the pixel loop: bin `BinIndex(o)` gains `m * (1 - f)`
   * and the next bin, modulo 9, gains `m * f`.
   */
  function AddPixel(h: seq<real>, m: real, o: real): (r: seq<real>)
    requires |h| == NBins && IsOrientation(o)
    ensures |r| == NBins
  {
    SplitVote(h, BinIndex(o), Fraction(o), m)
  }

  /** Bin `i` gains the part `1 - f` of `m`, the next bin the part `f`. */
  function SplitVote(h: seq<real>, i: nat, f: real, m: real): (r: seq<real>)
    requires |h| == NBins && i < NBins
    ensures |r| == NBins
  {
    Vote(h, i, Share(m, 1.0 - f), Share(m, f))
  }

  /** Bin `i` gains `a`, and bin `i + 1` modulo 9 gains `b`. */
  function Vote(h: seq<real>, i: nat, a: real, b: real): (r: seq<real>)
    requires |h| == NBins && i < NBins
    ensures |r| == NBins
  {
    Bump(Bump(h, i, a), (i + 1) % 9, b)
  }

  /** The part `m * f` of a magnitude. */
  function Share(m: real, f: real): real
  {
    m * f
  }

  /** Bin `k` of `h` gains `v`. */
  function Bump(h: seq<real>, k: nat, v: real): (r: seq<real>)
    requires k < |h|
    ensures |r| == |h|
  {
    h[k := h[k] + v]
  }

  /** Adding `v` to one bin grows the histogram's mass by exactly `v`. */
  lemma BumpMass(h: seq<real>, k: nat, v: real)
    requires k < |h|
    ensures Sum(Bump(h, k, v)) == Sum(h) + v
  {
    var x := h[k] + v;
    var b := Bump(h, k, v);
    assert b == h[k := x];
    SumUpdate(h, k, x);
    assert Sum(b) == Sum(h) - h[k] + x;
  }

  /** The two shares of a vote add up to the pixel's magnitude. */
  lemma AddPixelMass(h: seq<real>, m: real, o: real)
    requires |h| == NBins && IsOrientation(o)
    ensures Sum(AddPixel(h, m, o)) == Sum(h) + m
  {
    SplitVoteMass(h, BinIndex(o), Fraction(o), m);
  }

  lemma SplitVoteMass(h: seq<real>, i: nat, f: real, m: real)
    requires |h| == NBins && i < NBins
    ensures Sum(SplitVote(h, i, f, m)) == Sum(h) + m
  {
    VoteMass(h, i, Share(m, 1.0 - f), Share(m, f));
    Shares(m, f);
  }

  lemma VoteMass(h: seq<real>, i: nat, a: real, b: real)
    requires |h| == NBins && i < NBins
    ensures Sum(Vote(h, i, a, b)) == Sum(h) + a + b
  {
    BumpMass(h, i, a);
    BumpMass(Bump(h, i, a), (i + 1) % 9, b);
  }

  lemma Shares(m: real, f: real)
    ensures Share(m, 1.0 - f) + Share(m, f) == m
  {
  }

  /** A vote of non-negative magnitude never lowers a bin. */
  lemma AddPixelMonotone(h: seq<real>, m: real, o: real)
    requires |h| == NBins && IsOrientation(o) && m >= 0.0
    ensures forall k :: 0 <= k < NBins ==> h[k] <= AddPixel(h, m, o)[k]
  {
    var f := Fraction(o);
    MulNonNeg(m, 1.0 - f);
    MulNonNeg(m, f);
  }

  lemma MulNonNeg(a: real, b: real)
    requires a >= 0.0 && b >= 0.0
    ensures Share(a, b) >= 0.0
  {
  }

  // ---------------------------------------------------------------------
  // One cell: `for (x in 0 until width) for (y in 0 until height)`

  /** A 16 by 16 cell of a map, indexed `[row][col]`. */
  type Cell = seq<seq<real>>

  predicate IsCell(c: Cell)
  {
    |c| == CellSize && forall r :: 0 <= r < |c| ==> |c[r]| == CellSize
  }

  predicate OrientationCell(c: Cell)
  {
    IsCell(c) && forall r, k :: 0 <= r < CellSize && 0 <= k < CellSize ==> IsOrientation(c[r][k])
  }

  /** Votes of pixels `(x, 0)` to `(x, y - 1)` of a cell, added to `h`. */
  function CellColumn(h: seq<real>, mag: Cell, ori: Cell, x: nat, y: nat): (r: seq<real>)
    requires |h| == NBins && IsCell(mag) && OrientationCell(ori)
    requires x < CellSize && y <= CellSize
    ensures |r| == NBins
  {
    if y == 0 then h
    else AddPixel(CellColumn(h, mag, ori, x, y - 1), mag[x][y - 1], ori[x][y - 1])
  }

  /** Votes of the first `x` rows of a cell, from an empty histogram. */
  function CellRows(mag: Cell, ori: Cell, x: nat): (r: seq<real>)
    requires IsCell(mag) && OrientationCell(ori) && x <= CellSize
    ensures |r| == NBins
  {
    if x == 0 then Zeros(NBins)
    else CellColumn(CellRows(mag, ori, x - 1), mag, ori, x - 1, CellSize)
  }

  lemma CellRowsNext(mag: Cell, ori: Cell, x: nat)
    requires IsCell(mag) && OrientationCell(ori) && x < CellSize
    ensures CellRows(mag, ori, x + 1) == CellColumn(CellRows(mag, ori, x), mag, ori, x, CellSize)
  {
  }

  /** The accumulated, not yet binarised histogram of a cell. */
  function RawHistogram(mag: Cell, ori: Cell): (r: seq<real>)
    requires IsCell(mag) && OrientationCell(ori)
    ensures |r| == NBins
  {
    CellRows(mag, ori, CellSize)
  }

  /** Sum of the magnitudes of pixels `(x, 0)` to `(x, y - 1)` of a cell. */
  function ColumnMass(mag: Cell, x: nat, y: nat): real
    requires IsCell(mag) && x < CellSize && y <= CellSize
  {
    if y == 0 then 0.0 else ColumnMass(mag, x, y - 1) + mag[x][y - 1]
  }

  /** Sum of the magnitudes of the first `x` rows of a cell. */
  function CellMass(mag: Cell, x: nat): real
    requires IsCell(mag) && x <= CellSize
  {
    if x == 0 then 0.0 else CellMass(mag, x - 1) + ColumnMass(mag, x - 1, CellSize)
  }

  lemma {:induction false} CellColumnMass(h: seq<real>, mag: Cell, ori: Cell, x: nat, y: nat)
    requires |h| == NBins && IsCell(mag) && OrientationCell(ori)
    requires x < CellSize && y <= CellSize
    ensures Sum(CellColumn(h, mag, ori, x, y)) == Sum(h) + ColumnMass(mag, x, y)
  {
    if y > 0 {
      CellColumnMass(h, mag, ori, x, y - 1);
      AddPixelMass(CellColumn(h, mag, ori, x, y - 1), mag[x][y - 1], ori[x][y - 1]);
    }
  }

  lemma {:induction false} SumZeros(n: nat)
    ensures Sum(Zeros(n)) == 0.0
  {
    if n > 0 {
      assert Zeros(n)[1..] == Zeros(n - 1);
      SumZeros(n - 1);
    }
  }

  lemma {:induction false} CellRowsMass(mag: Cell, ori: Cell, x: nat)
    requires IsCell(mag) && OrientationCell(ori) && x <= CellSize
    ensures Sum(CellRows(mag, ori, x)) == CellMass(mag, x)
  {
    if x == 0 {
      SumZeros(NBins);
    } else {
      CellRowsMass(mag, ori, x - 1);
      CellColumnMass(CellRows(mag, ori, x - 1), mag, ori, x - 1, CellSize);
    }
  }

  /** The raw histogram of a cell holds exactly the cell's total magnitude. */
  lemma RawHistogramMass(mag: Cell, ori: Cell)
    requires IsCell(mag) && OrientationCell(ori)
    ensures Sum(RawHistogram(mag, ori)) == CellMass(mag, CellSize)
  {
    CellRowsMass(mag, ori, CellSize);
  }

  // ---------------------------------------------------------------------
  // Binarisation of a histogram

  /** `histogram.max()`. */
  function MaxOf(h: seq<real>): (mx: real)
    requires |h| > 0
    ensures forall k :: 0 <= k < |h| ==> h[k] <= mx
    ensures exists k :: 0 <= k < |h| && h[k] == mx
  {
    if |h| == 1 then h[0]
    else
      var m := MaxOf(h[1..]);
      assert forall k :: 1 <= k < |h| ==> h[k] == h[1..][k - 1];
      if h[0] >= m then h[0] else m
  }

  /** Every bin equal to a non-zero maximum becomes 1, every other bin 0. */
  function Binarize(h: seq<real>): (b: seq<real>)
    requires |h| > 0
    ensures |b| == |h|
  {
    var mx := MaxOf(h);
    seq(|h|, k requires 0 <= k < |h| => if h[k] == mx && mx != 0.0 then 1.0 else 0.0)
  }

  /**
   * The binarised histogram holds only 0 and 1; a 1 marks a bin that attains
   * the maximum, every maximal bin is marked when the maximum is non-zero, and
   * nothing is marked when it is zero.
   */
  lemma BinarizeMarksMaxima(h: seq<real>)
    requires |h| > 0
    ensures var b := Binarize(h);
      && (forall k :: 0 <= k < |h| ==> b[k] == 0.0 || b[k] == 1.0)
      && (forall k :: 0 <= k < |h| && b[k] == 1.0 ==> forall j :: 0 <= j < |h| ==> h[j] <= h[k])
      && (MaxOf(h) != 0.0 ==> exists k :: 0 <= k < |h| && b[k] == 1.0)
      && (MaxOf(h) != 0.0 ==> forall k :: 0 <= k < |h| && h[k] == MaxOf(h) ==> b[k] == 1.0)
      && (MaxOf(h) == 0.0 ==> forall k :: 0 <= k < |h| ==> b[k] == 0.0)
  {
  }

  /** The histogram `getHistogram` returns for a cell. */
  function CellHistogramOf(mag: Cell, ori: Cell): (b: seq<real>)
    requires IsCell(mag) && OrientationCell(ori)
    ensures |b| == NBins
  {
    Binarize(RawHistogram(mag, ori))
  }

  // ---------------------------------------------------------------------
  // A uniform cell: magnitude 1 and orientation 0 everywhere

  predicate Uniform(mag: Cell, ori: Cell)
  {
    IsCell(mag) && OrientationCell(ori)
    && forall r, k :: 0 <= r < CellSize && 0 <= k < CellSize ==> mag[r][k] == 1.0 && ori[r][k] == 0.0
  }

  /** The histogram with only bin 0 set. */
  function UnitHistogram(): (h: seq<real>)
    ensures |h| == NBins
  {
    Zeros(NBins)[0 := 1.0]
  }

  /** A pixel of magnitude 1 at orientation 0 adds its whole magnitude to bin 0. */
  lemma AddUnitPixel(h: seq<real>)
    requires |h| == NBins
    ensures AddPixel(h, 1.0, 0.0) == h[0 := h[0] + 1.0]
  {
    assert BinIndex(0.0) == 0;
    assert Fraction(0.0) == 0.0;
    assert Share(1.0, 1.0 - 0.0) == 1.0 && Share(1.0, 0.0) == 0.0;
  }

  lemma {:induction false} UniformColumn(h: seq<real>, mag: Cell, ori: Cell, x: nat, y: nat)
    requires |h| == NBins && Uniform(mag, ori) && x < CellSize && y <= CellSize
    ensures CellColumn(h, mag, ori, x, y) == h[0 := h[0] + y as real]
  {
    if y > 0 {
      UniformColumn(h, mag, ori, x, y - 1);
      AddUnitPixel(h[0 := h[0] + (y - 1) as real]);
    }
  }

  lemma {:induction false} UniformRows(mag: Cell, ori: Cell, x: nat)
    requires Uniform(mag, ori) && x <= CellSize
    ensures CellRows(mag, ori, x) == Zeros(NBins)[0 := (16 * x) as real]
  {
    if x > 0 {
      UniformRows(mag, ori, x - 1);
      UniformColumn(CellRows(mag, ori, x - 1), mag, ori, x - 1, CellSize);
    }
  }

  /** Every pixel of a uniform cell votes for bin 0, so its histogram is `[1, 0, ..., 0]`. */
  lemma UniformCellHistogram(mag: Cell, ori: Cell)
    requires Uniform(mag, ori)
    ensures CellHistogramOf(mag, ori) == UnitHistogram()
  {
    UniformRows(mag, ori, CellSize);
    var h := RawHistogram(mag, ori);
    assert h == Zeros(NBins)[0 := 256.0];
    assert MaxOf(h) == 256.0;
  }

  /** `getHistogram(cellMagnitude, cellOrientation)`. */
  method GetHistogram(magnitude: Cell, orientation: Cell) returns (result: seq<real>)
    requires IsCell(magnitude) && OrientationCell(orientation)
    ensures result == CellHistogramOf(magnitude, orientation)
  {
    var histogram := new real[NBins](_ => 0.0);
    assert histogram[..] == Zeros(NBins);
    var x := 0;
    while x < CellSize
      invariant 0 <= x <= CellSize
      invariant histogram[..] == CellRows(magnitude, orientation, x)
    {
      AddColumn(histogram, magnitude, orientation, x);
      CellRowsNext(magnitude, orientation, x);
      x := x + 1;
    }
    var h := histogram[..];
    var maxVal := MaxOf(h);
    result := seq(NBins, k requires 0 <= k < NBins => if h[k] == maxVal && maxVal != 0.0 then 1.0 else 0.0);
  }

  /** The inner loop of `getHistogram`: the votes of row `x` of the cell. */
  method AddColumn(histogram: array<real>, magnitude: Cell, orientation: Cell, x: nat)
    requires histogram.Length == NBins && IsCell(magnitude) && OrientationCell(orientation)
    requires x < CellSize
    modifies histogram
    ensures histogram[..] == CellColumn(old(histogram[..]), magnitude, orientation, x, CellSize)
  {
    ghost var start := histogram[..];
    var y := 0;
    while y < CellSize
      invariant 0 <= y <= CellSize
      invariant histogram[..] == CellColumn(start, magnitude, orientation, x, y)
    {
      AddVote(histogram, magnitude[x][y], orientation[x][y]);
      y := y + 1;
    }
  }

  /** The body of the pixel loop: the vote of magnitude `magValue` at `orientationValue`. */
  method AddVote(histogram: array<real>, magValue: real, orientationValue: real)
    requires histogram.Length == NBins && IsOrientation(orientationValue)
    modifies histogram
    ensures histogram[..] == AddPixel(old(histogram[..]), magValue, orientationValue)
  {
    ghost var h0 := histogram[..];
    var index := BinIndex(orientationValue);
    var deg := index as real * 20.0;
    assert (orientationValue - deg) / 20.0 == Fraction(orientationValue);
    assert magValue * (1.0 - (orientationValue - deg) / 20.0) == Share(magValue, 1.0 - Fraction(orientationValue));
    assert magValue * ((orientationValue - deg) / 20.0) == Share(magValue, Fraction(orientationValue));
    histogram[index] := histogram[index] + magValue * (1.0 - (orientationValue - deg) / 20.0);
    ghost var h1 := histogram[..];
    assert h1 == Bump(h0, index, Share(magValue, 1.0 - Fraction(orientationValue)));
    var nextIndex := (index + 1) % NBins;
    histogram[nextIndex] := histogram[nextIndex] + magValue * ((orientationValue - deg) / 20.0);
    assert histogram[..] == Bump(h1, nextIndex, Share(magValue, Fraction(orientationValue)));
  }
}
