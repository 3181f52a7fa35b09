/**
 * `getHistogramMap` and `getHOG`: the gradient maps of the colour channels
 * are fused pixel by pixel, the fused magnitude is binarised against its
 * mean, every 16 by 16 cell gets the histogram of `getHistogram`, and the
 * 8 by 8 histograms are concatenated row by row.  The per-channel maps that
 * OpenCV computes (`getGradient`) are inputs.
 */
module HogMap {
  import opened KotlinNum
  import opened Hog
  import opened KotlinText

  /** `HogConfig.blockSize`: blocks of one cell. */
  const BlockSize: nat := 1

  // ---------------------------------------------------------------------
  // The fused maps, pixel by pixel

  /** One magnitude map and one orientation map per colour channel. */
  predicate IsChannels(mags: seq<Grid>, oris: seq<Grid>)
  {
    |mags| == |oris| && forall i :: 0 <= i < |mags| ==> IsGrid(mags[i]) && OrientationGrid(oris[i])
  }

  predicate IsPixel(r: nat, c: nat)
  {
    r < ImageSize && c < ImageSize
  }

  /** `resMagnitude` after the first `k` channels: the sum of their magnitudes. */
  function MagSum(mags: seq<Grid>, oris: seq<Grid>, k: nat, r: nat, c: nat): real
    requires IsChannels(mags, oris) && k <= |mags| && IsPixel(r, c)
  {
    if k == 0 then 0.0 else MagSum(mags, oris, k - 1, r, c) + mags[k - 1][r][c]
  }

  /** `resOrientation` after the first `k` channels: orientations of non-zero magnitudes only. */
  function OriSum(mags: seq<Grid>, oris: seq<Grid>, k: nat, r: nat, c: nat): real
    requires IsChannels(mags, oris) && k <= |mags| && IsPixel(r, c)
  {
    if k == 0 then 0.0
    else OriSum(mags, oris, k - 1, r, c) + (if mags[k - 1][r][c] != 0.0 then oris[k - 1][r][c] else 0.0)
  }

  /** `cnt` after the first `k` channels: how many of them have a non-zero magnitude. */
  function Count(mags: seq<Grid>, oris: seq<Grid>, k: nat, r: nat, c: nat): nat
    requires IsChannels(mags, oris) && k <= |mags| && IsPixel(r, c)
  {
    if k == 0 then 0
    else Count(mags, oris, k - 1, r, c) + (if mags[k - 1][r][c] != 0.0 then 1 else 0)
  }

  /** The fused magnitude: the channel sum, divided by the count where it is non-zero. */
  function FusedMag(mags: seq<Grid>, oris: seq<Grid>, r: nat, c: nat): real
    requires IsChannels(mags, oris) && IsPixel(r, c)
  {
    var n := Count(mags, oris, |mags|, r, c);
    if n != 0 then MagSum(mags, oris, |mags|, r, c) / n as real else MagSum(mags, oris, |mags|, r, c)
  }

  /** The fused orientation: the mean orientation of the channels with a non-zero magnitude. */
  function FusedOri(mags: seq<Grid>, oris: seq<Grid>, r: nat, c: nat): real
    requires IsChannels(mags, oris) && IsPixel(r, c)
  {
    var n := Count(mags, oris, |mags|, r, c);
    if n != 0 then OriSum(mags, oris, |mags|, r, c) / n as real else OriSum(mags, oris, |mags|, r, c)
  }

  /** `Core.sumElems`: the sum of every element of a map. */
  function GridSum(g: Grid): real
  {
    if |g| == 0 then 0.0 else Sum(g[0]) + GridSum(g[1..])
  }

  /** `sumElems(m) / (width * height)`. */
  function MeanOf(g: Grid): real
  {
    GridSum(g) / (ImageSize * ImageSize) as real
  }

  /** The binarisation of one pixel: 0 below `ave * 10 / 10`, else 1. */
  function BinMag(m: real, ave: real): (b: real)
  {
    if ave * MagnitudeThreshold as real / 10.0 > m then 0.0 else 1.0
  }

  function FusedMagGrid(mags: seq<Grid>, oris: seq<Grid>): (g: Grid)
    requires IsChannels(mags, oris)
    ensures IsGrid(g)
  {
    seq(ImageSize, r requires 0 <= r < ImageSize =>
      seq(ImageSize, c requires 0 <= c < ImageSize => FusedMag(mags, oris, r, c)))
  }

  function FusedOriGrid(mags: seq<Grid>, oris: seq<Grid>): (g: Grid)
    requires IsChannels(mags, oris)
    ensures IsGrid(g)
  {
    seq(ImageSize, r requires 0 <= r < ImageSize =>
      seq(ImageSize, c requires 0 <= c < ImageSize => FusedOri(mags, oris, r, c)))
  }

  /** The binarised magnitude map that the cells are computed from. */
  function BinaryGrid(mags: seq<Grid>, oris: seq<Grid>): (g: Grid)
    requires IsChannels(mags, oris)
    ensures IsGrid(g)
  {
    var ave := MeanOf(FusedMagGrid(mags, oris));
    seq(ImageSize, r requires 0 <= r < ImageSize =>
      seq(ImageSize, c requires 0 <= c < ImageSize => BinMag(FusedMag(mags, oris, r, c), ave)))
  }

  // ---------------------------------------------------------------------
  // Properties of the fused maps

  lemma {:induction false} OriSumBounds(mags: seq<Grid>, oris: seq<Grid>, k: nat, r: nat, c: nat)
    requires IsChannels(mags, oris) && k <= |mags| && IsPixel(r, c)
    ensures Count(mags, oris, k, r, c) <= k
    ensures 0.0 <= OriSum(mags, oris, k, r, c)
    ensures Count(mags, oris, k, r, c) == 0 ==> OriSum(mags, oris, k, r, c) == 0.0
    ensures Count(mags, oris, k, r, c) > 0 ==> OriSum(mags, oris, k, r, c) < 180.0 * Count(mags, oris, k, r, c) as real
  {
    if k > 0 {
      OriSumBounds(mags, oris, k - 1, r, c);
      assert IsOrientation(oris[k - 1][r][c]);
    }
  }

  lemma DivBelow(s: real, n: real)
    requires 0.0 <= s && 0.0 < n && s < 180.0 * n
    ensures 0.0 <= s / n < 180.0
  {
    assert s / n * n == s;
  }

  /** The fused orientation is again an orientation in [0, 180). */
  lemma FusedOriInRange(mags: seq<Grid>, oris: seq<Grid>, r: nat, c: nat)
    requires IsChannels(mags, oris) && IsPixel(r, c)
    ensures IsOrientation(FusedOri(mags, oris, r, c))
  {
    OriSumBounds(mags, oris, |mags|, r, c);
    var n := Count(mags, oris, |mags|, r, c);
    if n != 0 {
      DivBelow(OriSum(mags, oris, |mags|, r, c), n as real);
    }
  }

  lemma FusedOriGridInRange(mags: seq<Grid>, oris: seq<Grid>)
    requires IsChannels(mags, oris)
    ensures OrientationGrid(FusedOriGrid(mags, oris))
  {
    forall r, c | 0 <= r < ImageSize && 0 <= c < ImageSize
      ensures IsOrientation(FusedOriGrid(mags, oris)[r][c])
    {
      FusedOriInRange(mags, oris, r, c);
    }
  }

  /** A binarised pixel is 0 or 1, and it is 1 exactly when it reaches the mean. */
  lemma BinMagIsThreshold(m: real, ave: real)
    ensures BinMag(m, ave) == 0.0 || BinMag(m, ave) == 1.0
    ensures BinMag(m, ave) == 1.0 <==> m >= ave
  {
  }

  lemma BinaryGridValues(mags: seq<Grid>, oris: seq<Grid>, r: nat, c: nat)
    requires IsChannels(mags, oris) && IsPixel(r, c)
    ensures var b := BinaryGrid(mags, oris)[r][c];
      (b == 0.0 || b == 1.0) && (b == 1.0 <==> FusedMag(mags, oris, r, c) >= MeanOf(FusedMagGrid(mags, oris)))
  {
  }

  // ---------------------------------------------------------------------
  // A flat image: every channel has zero magnitude everywhere

  predicate Flat(mags: seq<Grid>, oris: seq<Grid>)
  {
    IsChannels(mags, oris) && forall i, r, c :: 0 <= i < |mags| && 0 <= r < ImageSize && 0 <= c < ImageSize ==> mags[i][r][c] == 0.0
  }

  lemma {:induction false} FlatSums(mags: seq<Grid>, oris: seq<Grid>, k: nat, r: nat, c: nat)
    requires Flat(mags, oris) && k <= |mags| && IsPixel(r, c)
    ensures MagSum(mags, oris, k, r, c) == 0.0 && OriSum(mags, oris, k, r, c) == 0.0
    ensures Count(mags, oris, k, r, c) == 0
  {
    if k > 0 {
      FlatSums(mags, oris, k - 1, r, c);
    }
  }

  lemma {:induction false} SumZeroRows(g: Grid)
    requires forall r :: 0 <= r < |g| ==> forall c :: 0 <= c < |g[r]| ==> g[r][c] == 0.0
    ensures GridSum(g) == 0.0
  {
    if |g| > 0 {
      ZeroSum(g[0]);
      assert forall r :: 0 <= r < |g[1..]| ==> g[1..][r] == g[r + 1];
      SumZeroRows(g[1..]);
    }
  }

  lemma {:induction false} ZeroSum(s: seq<real>)
    requires forall c :: 0 <= c < |s| ==> s[c] == 0.0
    ensures Sum(s) == 0.0
  {
    if |s| > 0 {
      ZeroSum(s[1..]);
    }
  }

  /**
   * On a flat image the fused magnitude and orientation are 0 everywhere, the
   * mean is 0, and so every pixel of the binarised map is 1.
   */
  lemma FlatImageMaps(mags: seq<Grid>, oris: seq<Grid>)
    requires Flat(mags, oris)
    ensures forall r, c :: 0 <= r < ImageSize && 0 <= c < ImageSize ==>
      BinaryGrid(mags, oris)[r][c] == 1.0 && FusedOriGrid(mags, oris)[r][c] == 0.0
  {
    forall r, c | 0 <= r < ImageSize && 0 <= c < ImageSize
      ensures FusedMagGrid(mags, oris)[r][c] == 0.0 && FusedOriGrid(mags, oris)[r][c] == 0.0
    {
      FlatSums(mags, oris, |mags|, r, c);
    }
    SumZeroRows(FusedMagGrid(mags, oris));
    var ave := MeanOf(FusedMagGrid(mags, oris));
    assert ave == 0.0;
    forall r, c | 0 <= r < ImageSize && 0 <= c < ImageSize
      ensures BinaryGrid(mags, oris)[r][c] == 1.0
    {
      assert BinaryGrid(mags, oris)[r][c] == BinMag(FusedMagGrid(mags, oris)[r][c], ave);
    }
  }

  // ---------------------------------------------------------------------
  // The cells of the map and the HOG vector

  /** `submat(x0, x0 + 16, y0, y0 + 16)`. */
  function SubCell(g: Grid, x0: nat, y0: nat): (c: Cell)
    requires IsGrid(g) && x0 + CellSize <= ImageSize && y0 + CellSize <= ImageSize
    ensures IsCell(c) && forall r, k :: 0 <= r < CellSize && 0 <= k < CellSize ==> c[r][k] == g[x0 + r][y0 + k]
  {
    seq(CellSize, r requires 0 <= r < CellSize => g[x0 + r][y0 .. y0 + CellSize])
  }

  lemma SubCellOrientation(g: Grid, x0: nat, y0: nat)
    requires OrientationGrid(g) && x0 + CellSize <= ImageSize && y0 + CellSize <= ImageSize
    ensures OrientationCell(SubCell(g, x0, y0))
  {
  }

  /** Entry `(i, j)` of the histogram map: the histogram of the cell at pixel `(16 i, 16 j)`. */
  function MapCell(mags: seq<Grid>, oris: seq<Grid>, i: nat, j: nat): (h: seq<real>)
    requires IsChannels(mags, oris) && i < CellsPerSide && j < CellsPerSide
    ensures |h| == NBins
  {
    FusedOriGridInRange(mags, oris);
    SubCellOrientation(FusedOriGrid(mags, oris), 16 * i, 16 * j);
    CellHistogramOf(SubCell(BinaryGrid(mags, oris), 16 * i, 16 * j), SubCell(FusedOriGrid(mags, oris), 16 * i, 16 * j))
  }

  /** The cell histograms in the order `getHOG` visits them: row by row. */
  function CellsInOrder(mags: seq<Grid>, oris: seq<Grid>): (cells: seq<seq<real>>)
    requires IsChannels(mags, oris)
    ensures |cells| == CellsPerSide * CellsPerSide
  {
    seq(CellsPerSide * CellsPerSide, k requires 0 <= k < CellsPerSide * CellsPerSide => MapCell(mags, oris, k / 8, k % 8))
  }

  lemma CellsInOrderAt(mags: seq<Grid>, oris: seq<Grid>, i: nat, j: nat)
    requires IsChannels(mags, oris) && i < CellsPerSide && j < CellsPerSide
    ensures CellsInOrder(mags, oris)[8 * i + j] == MapCell(mags, oris, i, j)
  {
    assert (8 * i + j) / 8 == i && (8 * i + j) % 8 == j;
  }

  /** The vector `getHOG` returns. */
  function HogOf(mags: seq<Grid>, oris: seq<Grid>): seq<real>
    requires IsChannels(mags, oris)
  {
    Concat(CellsInOrder(mags, oris))
  }

  /** Concatenated 9-bin histograms: value `p` is bin `p % 9` of histogram `p / 9`. */
  lemma {:induction false} ConcatIndex(ss: seq<seq<real>>)
    requires forall k :: 0 <= k < |ss| ==> |ss[k]| == NBins
    ensures |Concat(ss)| == 9 * |ss|
    ensures forall p :: 0 <= p < 9 * |ss| ==> Concat(ss)[p] == ss[p / 9][p % 9]
  {
    if |ss| > 0 {
      var front := ss[..|ss| - 1];
      ConcatIndex(front);
      ConcatSnoc(ss);
      forall p | 0 <= p < 9 * |ss|
        ensures Concat(ss)[p] == ss[p / 9][p % 9]
      {
        if p < 9 * |front| {
          assert Concat(ss)[p] == Concat(front)[p];
        } else {
          assert p / 9 == |front|;
        }
      }
    }
  }

  /** Every bin of a cell histogram in the map is 0 or 1. */
  lemma MapCellValues(mags: seq<Grid>, oris: seq<Grid>, i: nat, j: nat)
    requires IsChannels(mags, oris) && i < CellsPerSide && j < CellsPerSide
    ensures forall b :: 0 <= b < NBins ==> MapCell(mags, oris, i, j)[b] == 0.0 || MapCell(mags, oris, i, j)[b] == 1.0
  {
    FusedOriGridInRange(mags, oris);
    SubCellOrientation(FusedOriGrid(mags, oris), 16 * i, 16 * j);
    BinarizeMarksMaxima(RawHistogram(SubCell(BinaryGrid(mags, oris), 16 * i, 16 * j), SubCell(FusedOriGrid(mags, oris), 16 * i, 16 * j)));
  }

  /** The HOG vector has one 9-bin histogram per cell, 576 values, each 0 or 1. */
  lemma HogShape(mags: seq<Grid>, oris: seq<Grid>)
    requires IsChannels(mags, oris)
    ensures |HogOf(mags, oris)| == 576
    ensures forall p :: 0 <= p < 576 ==> HogOf(mags, oris)[p] == 0.0 || HogOf(mags, oris)[p] == 1.0
  {
    var cells := CellsInOrder(mags, oris);
    forall k, b | 0 <= k < 64 && 0 <= b < NBins
      ensures cells[k][b] == 0.0 || cells[k][b] == 1.0
    {
      MapCellValues(mags, oris, k / 8, k % 8);
    }
    ConcatIndex(cells);
  }

  /** On a flat image every cell of the map is a uniform cell. */
  lemma FlatMapCell(mags: seq<Grid>, oris: seq<Grid>, i: nat, j: nat)
    requires Flat(mags, oris) && i < CellsPerSide && j < CellsPerSide
    ensures MapCell(mags, oris, i, j) == UnitHistogram()
  {
    FlatImageMaps(mags, oris);
    FusedOriGridInRange(mags, oris);
    SubCellOrientation(FusedOriGrid(mags, oris), 16 * i, 16 * j);
    UniformCellHistogram(SubCell(BinaryGrid(mags, oris), 16 * i, 16 * j), SubCell(FusedOriGrid(mags, oris), 16 * i, 16 * j));
  }

  /** On a flat image the HOG vector is `[1, 0, ..., 0]` once per cell. */
  lemma FlatImageHog(mags: seq<Grid>, oris: seq<Grid>)
    requires Flat(mags, oris)
    ensures |HogOf(mags, oris)| == 576
    ensures forall p :: 0 <= p < 576 ==> HogOf(mags, oris)[p] == (if p % 9 == 0 then 1.0 else 0.0)
  {
    var cells := CellsInOrder(mags, oris);
    forall k | 0 <= k < 64
      ensures cells[k] == UnitHistogram()
    {
      FlatMapCell(mags, oris, k / 8, k % 8);
    }
    ConcatIndex(cells);
  }

  // ---------------------------------------------------------------------
  // The loops of `getHistogramMap` on the 128 by 128 `Mat`s

  predicate Plane(a: array2<real>)
  {
    a.Length0 == ImageSize && a.Length1 == ImageSize
  }

  /** The values of a `Mat`. */
  function Contents(a: array2<real>): (g: Grid)
    reads a
    requires Plane(a)
    ensures IsGrid(g) && forall r, c :: 0 <= r < ImageSize && 0 <= c < ImageSize ==> g[r][c] == a[r, c]
  {
    seq(ImageSize, r requires 0 <= r < ImageSize reads a =>
      seq(ImageSize, c requires 0 <= c < ImageSize reads a => a[r, c]))
  }

  lemma ContentsAre(a: array2<real>, g: Grid)
    requires Plane(a) && IsGrid(g)
    requires forall r, c :: 0 <= r < ImageSize && 0 <= c < ImageSize ==> a[r, c] == g[r][c]
    ensures Contents(a) == g
  {
    forall r | 0 <= r < ImageSize
      ensures Contents(a)[r] == g[r]
    {
    }
  }

  /** Row `row` of the loop over one channel's maps. */
  method AddChannelRow(resMagnitude: array2<real>, resOrientation: array2<real>, cnt: array2<real>,
                       magnitude: Grid, orientation: Grid, row: nat)
    requires Plane(resMagnitude) && Plane(resOrientation) && Plane(cnt)
    requires resMagnitude != resOrientation && resMagnitude != cnt && resOrientation != cnt
    requires IsGrid(magnitude) && IsGrid(orientation) && row < ImageSize
    modifies resMagnitude, resOrientation, cnt
    ensures forall r, c :: 0 <= r < ImageSize && 0 <= c < ImageSize ==>
      && resMagnitude[r, c] == (if r == row then old(resMagnitude[r, c]) + magnitude[r][c] else old(resMagnitude[r, c]))
      && resOrientation[r, c] == (if r == row && magnitude[r][c] != 0.0 then old(resOrientation[r, c]) + orientation[r][c] else old(resOrientation[r, c]))
      && cnt[r, c] == (if r == row && magnitude[r][c] != 0.0 then old(cnt[r, c]) + 1.0 else old(cnt[r, c]))
  {
    var col := 0;
    while col < ImageSize
      invariant 0 <= col <= ImageSize
      invariant forall r, c :: 0 <= r < ImageSize && 0 <= c < ImageSize ==>
        && resMagnitude[r, c] == (if r == row && c < col then old(resMagnitude[r, c]) + magnitude[r][c] else old(resMagnitude[r, c]))
        && resOrientation[r, c] == (if r == row && c < col && magnitude[r][c] != 0.0 then old(resOrientation[r, c]) + orientation[r][c] else old(resOrientation[r, c]))
        && cnt[r, c] == (if r == row && c < col && magnitude[r][c] != 0.0 then old(cnt[r, c]) + 1.0 else old(cnt[r, c]))
    {
      resMagnitude[row, col] := resMagnitude[row, col] + magnitude[row][col];
      if magnitude[row][col] != 0.0 {
        resOrientation[row, col] := resOrientation[row, col] + orientation[row][col];
        cnt[row, col] := cnt[row, col] + 1.0;
      }
      col := col + 1;
    }
  }

  /** The loop over one channel: its magnitudes are added everywhere, its orientations where the magnitude is non-zero. */
  method AddChannel(resMagnitude: array2<real>, resOrientation: array2<real>, cnt: array2<real>,
                    magnitude: Grid, orientation: Grid)
    requires Plane(resMagnitude) && Plane(resOrientation) && Plane(cnt)
    requires resMagnitude != resOrientation && resMagnitude != cnt && resOrientation != cnt
    requires IsGrid(magnitude) && IsGrid(orientation)
    modifies resMagnitude, resOrientation, cnt
    ensures forall r, c :: 0 <= r < ImageSize && 0 <= c < ImageSize ==>
      && resMagnitude[r, c] == old(resMagnitude[r, c]) + magnitude[r][c]
      && resOrientation[r, c] == (if magnitude[r][c] != 0.0 then old(resOrientation[r, c]) + orientation[r][c] else old(resOrientation[r, c]))
      && cnt[r, c] == (if magnitude[r][c] != 0.0 then old(cnt[r, c]) + 1.0 else old(cnt[r, c]))
  {
    var row := 0;
    while row < ImageSize
      invariant 0 <= row <= ImageSize
      invariant forall r, c :: 0 <= r < ImageSize && 0 <= c < ImageSize ==>
        && resMagnitude[r, c] == (if r < row then old(resMagnitude[r, c]) + magnitude[r][c] else old(resMagnitude[r, c]))
        && resOrientation[r, c] == (if r < row && magnitude[r][c] != 0.0 then old(resOrientation[r, c]) + orientation[r][c] else old(resOrientation[r, c]))
        && cnt[r, c] == (if r < row && magnitude[r][c] != 0.0 then old(cnt[r, c]) + 1.0 else old(cnt[r, c]))
    {
      AddChannelRow(resMagnitude, resOrientation, cnt, magnitude, orientation, row);
      row := row + 1;
    }
  }

  /** `resList.forEachIndexed`: the three accumulators after every channel. */
  method FuseChannels(mags: seq<Grid>, oris: seq<Grid>)
    returns (resMagnitude: array2<real>, resOrientation: array2<real>, cnt: array2<real>)
    requires IsChannels(mags, oris)
    ensures fresh(resMagnitude) && fresh(resOrientation) && fresh(cnt)
    ensures Plane(resMagnitude) && Plane(resOrientation) && Plane(cnt)
    ensures resMagnitude != resOrientation && resMagnitude != cnt && resOrientation != cnt
    ensures forall r, c :: 0 <= r < ImageSize && 0 <= c < ImageSize ==>
      && resMagnitude[r, c] == MagSum(mags, oris, |mags|, r, c)
      && resOrientation[r, c] == OriSum(mags, oris, |mags|, r, c)
      && cnt[r, c] == Count(mags, oris, |mags|, r, c) as real
  {
    resMagnitude := new real[ImageSize, ImageSize]((_, _) => 0.0);
    resOrientation := new real[ImageSize, ImageSize]((_, _) => 0.0);
    cnt := new real[ImageSize, ImageSize]((_, _) => 0.0);
    var idx := 0;
    while idx < |mags|
      invariant 0 <= idx <= |mags|
      invariant forall r, c :: 0 <= r < ImageSize && 0 <= c < ImageSize ==>
        && resMagnitude[r, c] == MagSum(mags, oris, idx, r, c)
        && resOrientation[r, c] == OriSum(mags, oris, idx, r, c)
        && cnt[r, c] == Count(mags, oris, idx, r, c) as real
    {
      AddChannel(resMagnitude, resOrientation, cnt, mags[idx], oris[idx]);
      idx := idx + 1;
    }
  }

  /** Row `row` of the averaging loop. */
  method AverageRow(resMagnitude: array2<real>, resOrientation: array2<real>, cnt: array2<real>, row: nat)
    requires Plane(resMagnitude) && Plane(resOrientation) && Plane(cnt)
    requires resMagnitude != resOrientation && resMagnitude != cnt && resOrientation != cnt && row < ImageSize
    modifies resMagnitude, resOrientation
    ensures forall r, c :: 0 <= r < ImageSize && 0 <= c < ImageSize ==>
      && resMagnitude[r, c] == (if r == row && cnt[r, c] != 0.0 then old(resMagnitude[r, c]) / cnt[r, c] else old(resMagnitude[r, c]))
      && resOrientation[r, c] == (if r == row && cnt[r, c] != 0.0 then old(resOrientation[r, c]) / cnt[r, c] else old(resOrientation[r, c]))
  {
    var col := 0;
    while col < ImageSize
      invariant 0 <= col <= ImageSize
      invariant forall r, c :: 0 <= r < ImageSize && 0 <= c < ImageSize ==>
        && resMagnitude[r, c] == (if r == row && c < col && cnt[r, c] != 0.0 then old(resMagnitude[r, c]) / cnt[r, c] else old(resMagnitude[r, c]))
        && resOrientation[r, c] == (if r == row && c < col && cnt[r, c] != 0.0 then old(resOrientation[r, c]) / cnt[r, c] else old(resOrientation[r, c]))
    {
      var currentCnt := cnt[row, col];
      if currentCnt != 0.0 {
        resMagnitude[row, col] := resMagnitude[row, col] / currentCnt;
        resOrientation[row, col] := resOrientation[row, col] / currentCnt;
      }
      col := col + 1;
    }
  }

  /** The second loop of `getHistogramMap`: pixels seen by some channel are divided by their count. */
  method AverageByCount(resMagnitude: array2<real>, resOrientation: array2<real>, cnt: array2<real>)
    requires Plane(resMagnitude) && Plane(resOrientation) && Plane(cnt)
    requires resMagnitude != resOrientation && resMagnitude != cnt && resOrientation != cnt
    modifies resMagnitude, resOrientation
    ensures forall r, c :: 0 <= r < ImageSize && 0 <= c < ImageSize ==>
      && resMagnitude[r, c] == (if cnt[r, c] != 0.0 then old(resMagnitude[r, c]) / cnt[r, c] else old(resMagnitude[r, c]))
      && resOrientation[r, c] == (if cnt[r, c] != 0.0 then old(resOrientation[r, c]) / cnt[r, c] else old(resOrientation[r, c]))
  {
    var row := 0;
    while row < ImageSize
      invariant 0 <= row <= ImageSize
      invariant forall r, c :: 0 <= r < ImageSize && 0 <= c < ImageSize ==>
        && resMagnitude[r, c] == (if r < row && cnt[r, c] != 0.0 then old(resMagnitude[r, c]) / cnt[r, c] else old(resMagnitude[r, c]))
        && resOrientation[r, c] == (if r < row && cnt[r, c] != 0.0 then old(resOrientation[r, c]) / cnt[r, c] else old(resOrientation[r, c]))
    {
      AverageRow(resMagnitude, resOrientation, cnt, row);
      row := row + 1;
    }
  }

  /** Row `row` of the binarisation loop, against the mean `ave`. */
  method BinarizeRow(resMagnitude: array2<real>, ave: real, row: nat)
    requires Plane(resMagnitude) && row < ImageSize
    modifies resMagnitude
    ensures forall r, c :: 0 <= r < ImageSize && 0 <= c < ImageSize ==>
      resMagnitude[r, c] == (if r == row then BinMag(old(resMagnitude[r, c]), ave) else old(resMagnitude[r, c]))
  {
    var col := 0;
    while col < ImageSize
      invariant 0 <= col <= ImageSize
      invariant forall r, c :: 0 <= r < ImageSize && 0 <= c < ImageSize ==>
        resMagnitude[r, c] == (if r == row && c < col then BinMag(old(resMagnitude[r, c]), ave) else old(resMagnitude[r, c]))
    {
      resMagnitude[row, col] := if ave * MagnitudeThreshold as real / 10.0 > resMagnitude[row, col] then 0.0 else 1.0;
      col := col + 1;
    }
  }

  /** The third loop of `getHistogramMap`: every pixel becomes 0 or 1 against the map's mean. */
  method BinarizeByMean(resMagnitude: array2<real>)
    requires Plane(resMagnitude)
    modifies resMagnitude
    ensures forall r, c :: 0 <= r < ImageSize && 0 <= c < ImageSize ==>
      resMagnitude[r, c] == BinMag(old(resMagnitude[r, c]), MeanOf(old(Contents(resMagnitude))))
  {
    var ave := GridSum(Contents(resMagnitude)) / (ImageSize * ImageSize) as real;
    var row := 0;
    while row < ImageSize
      invariant 0 <= row <= ImageSize
      invariant forall r, c :: 0 <= r < ImageSize && 0 <= c < ImageSize ==>
        resMagnitude[r, c] == (if r < row then BinMag(old(resMagnitude[r, c]), ave) else old(resMagnitude[r, c]))
    {
      BinarizeRow(resMagnitude, ave, row);
      row := row + 1;
    }
  }

  /** The histogram of cell `(i, j)` of a binarised magnitude map and an orientation map. */
  function CellOf(bin: Grid, ori: Grid, i: nat, j: nat): (h: seq<real>)
    requires IsGrid(bin) && OrientationGrid(ori) && i < CellsPerSide && j < CellsPerSide
    ensures |h| == NBins
  {
    SubCellOrientation(ori, 16 * i, 16 * j);
    CellHistogramOf(SubCell(bin, 16 * i, 16 * j), SubCell(ori, 16 * i, 16 * j))
  }

  /** Row `x / 16` of the cell loop: the histograms of the cells whose top row is `x`. */
  method MapRow(histogramMap: array2<seq<real>>, magGrid: Grid, oriGrid: Grid, x: nat)
    requires histogramMap.Length0 == CellsPerSide && histogramMap.Length1 == CellsPerSide
    requires IsGrid(magGrid) && OrientationGrid(oriGrid) && x % 16 == 0 && x < ImageSize
    modifies histogramMap
    ensures forall j :: 0 <= j < CellsPerSide ==> histogramMap[x / 16, j] == CellOf(magGrid, oriGrid, x / 16, j)
    ensures forall i, j :: 0 <= i < CellsPerSide && 0 <= j < CellsPerSide && i != x / 16 ==>
      histogramMap[i, j] == old(histogramMap[i, j])
  {
    var row := x / 16;
    ghost var done := 0;
    var y := 0;
    while y < ImageSize
      invariant 0 <= done <= CellsPerSide && y == 16 * done
      invariant forall j :: 0 <= j < done ==> histogramMap[row, j] == CellOf(magGrid, oriGrid, row, j)
      invariant forall i, j :: 0 <= i < CellsPerSide && 0 <= j < CellsPerSide && i != row ==>
        histogramMap[i, j] == old(histogramMap[i, j])
    {
      var histogram := CellHistogramAt(magGrid, oriGrid, x, y);
      var col := y / 16;
      assert col == done;
      histogramMap[row, col] := histogram;
      y := y + 16;
      done := done + 1;
    }
  }

  /** One step of the cell loop: `getHistogram` on the submatrices at `(x, y)`. */
  method CellHistogramAt(magGrid: Grid, oriGrid: Grid, x: nat, y: nat) returns (histogram: seq<real>)
    requires IsGrid(magGrid) && OrientationGrid(oriGrid) && x % 16 == 0 && x < ImageSize && y % 16 == 0 && y < ImageSize
    ensures histogram == CellOf(magGrid, oriGrid, x / 16, y / 16)
  {
    var cellMagnitude := SubCell(magGrid, x, y);
    var cellOrientation := SubCell(oriGrid, x, y);
    SubCellOrientation(oriGrid, x, y);
    histogram := GetHistogram(cellMagnitude, cellOrientation);
    assert 16 * (x / 16) == x && 16 * (y / 16) == y;
  }

  /** The three per-pixel loops of `getHistogramMap`: the binarised magnitude and the fused orientation. */
  method FusedMaps(mags: seq<Grid>, oris: seq<Grid>) returns (resMagnitude: array2<real>, resOrientation: array2<real>)
    requires IsChannels(mags, oris)
    ensures Plane(resMagnitude) && Plane(resOrientation)
    ensures Contents(resMagnitude) == BinaryGrid(mags, oris) && Contents(resOrientation) == FusedOriGrid(mags, oris)
  {
    var cnt;
    resMagnitude, resOrientation, cnt := FuseChannels(mags, oris);
    AverageByCount(resMagnitude, resOrientation, cnt);
    ContentsAre(resMagnitude, FusedMagGrid(mags, oris));
    ContentsAre(resOrientation, FusedOriGrid(mags, oris));
    BinarizeByMean(resMagnitude);
    ContentsAre(resMagnitude, BinaryGrid(mags, oris));
  }

  /** `getHistogramMap`: the 8 by 8 map of cell histograms of the fused, binarised maps. */
  method GetHistogramMap(mags: seq<Grid>, oris: seq<Grid>) returns (histogramMap: array2<seq<real>>)
    requires IsChannels(mags, oris)
    ensures histogramMap.Length0 == CellsPerSide && histogramMap.Length1 == CellsPerSide
    ensures forall i, j :: 0 <= i < CellsPerSide && 0 <= j < CellsPerSide ==> histogramMap[i, j] == MapCell(mags, oris, i, j)
  {
    var resMagnitude, resOrientation := FusedMaps(mags, oris);
    var magGrid := Contents(resMagnitude);
    var oriGrid := Contents(resOrientation);
    FusedOriGridInRange(mags, oris);
    histogramMap := new seq<real>[CellsPerSide, CellsPerSide]((_, _) => Zeros(NBins));
    var x := 0;
    while x < ImageSize
      invariant 0 <= x <= ImageSize && x % 16 == 0
      invariant forall i, j :: 0 <= i < x / 16 && 0 <= j < CellsPerSide ==> histogramMap[i, j] == CellOf(magGrid, oriGrid, i, j)
    {
      MapRow(histogramMap, magGrid, oriGrid, x);
      x := x + 16;
    }
  }

  lemma ConcatStep(ss: seq<seq<real>>, n: nat)
    requires n < |ss|
    ensures Concat(ss[..n + 1]) == Concat(ss[..n]) + ss[n]
  {
    assert ss[..n + 1][..n] == ss[..n];
    ConcatSnoc(ss[..n + 1]);
  }

  /** The block loops at cell `(x, y)`: with blocks of one cell they append that cell's histogram. */
  method AddBlock(histogramMap: array2<seq<real>>, hog: seq<real>, x: nat, y: nat) returns (hog': seq<real>)
    requires histogramMap.Length0 == CellsPerSide && histogramMap.Length1 == CellsPerSide
    requires x < CellsPerSide && y < CellsPerSide
    ensures hog' == hog + histogramMap[x, y]
  {
    hog' := hog;
    var histogramVector: seq<real> := [];
    var blockX := x;
    while blockX < x + BlockSize
      invariant x <= blockX <= x + BlockSize
      invariant blockX == x ==> histogramVector == [] && hog' == hog
      invariant blockX > x ==> histogramVector == histogramMap[x, y] && hog' == hog + histogramMap[x, y]
    {
      var blockY := y;
      while blockY < y + BlockSize
        invariant y <= blockY <= y + BlockSize
        invariant histogramVector == if blockY == y then [] else histogramMap[x, y]
      {
        histogramVector := histogramVector + histogramMap[blockX, blockY];
        blockY := blockY + 1;
      }
      hog' := hog' + histogramVector;
      blockX := blockX + 1;
    }
  }

  /** The two cell loops of `getHOG`, over a map whose cell `(i, j)` is `cells[8 i + j]`. */
  method AssembleHog(histogramMap: array2<seq<real>>, ghost cells: seq<seq<real>>) returns (hog: seq<real>)
    requires histogramMap.Length0 == CellsPerSide && histogramMap.Length1 == CellsPerSide && |cells| == 64
    requires forall i, j :: 0 <= i < CellsPerSide && 0 <= j < CellsPerSide ==> histogramMap[i, j] == cells[8 * i + j]
    ensures hog == Concat(cells)
  {
    hog := [];
    var x := 0;
    while x < CellsPerSide - BlockSize + 1
      invariant 0 <= x <= CellsPerSide
      invariant hog == Concat(cells[..8 * x])
    {
      var y := 0;
      while y < CellsPerSide - BlockSize + 1
        invariant 0 <= y <= CellsPerSide
        invariant hog == Concat(cells[..8 * x + y])
      {
        ConcatStep(cells, 8 * x + y);
        hog := AddBlock(histogramMap, hog, x, y);
        y := y + 1;
      }
      x := x + 1;
    }
    assert cells[..64] == cells;
  }

  /** `getHOG`: the histograms of the map, cell by cell and row by row. */
  method GetHog(mags: seq<Grid>, oris: seq<Grid>) returns (hog: seq<real>)
    requires IsChannels(mags, oris)
    ensures hog == HogOf(mags, oris)
  {
    var histogramMap := GetHistogramMap(mags, oris);
    ghost var cells := CellsInOrder(mags, oris);
    forall i, j | 0 <= i < CellsPerSide && 0 <= j < CellsPerSide
      ensures histogramMap[i, j] == cells[8 * i + j]
    {
      CellsInOrderAt(mags, oris, i, j);
    }
    hog := AssembleHog(histogramMap, cells);
  }
}
