/**
 * The distance between a query (its HOG vector and its ResNet-50 embedding)
 * and a catalog centroid, and the choice of the nearest centroid, whose
 * pose list is the recommendation.
 */
module Distance {
  import opened Wrappers
  import opened KotlinNum
  import opened KotlinText
  import Catalog

  const RequireFailed := "IllegalArgumentException"
  const IndexOutOfBounds := "IndexOutOfBoundsException"
  /** `reduce` on an empty list. */
  const EmptyReduce := "UnsupportedOperationException"

  /**
   * A `Double` as the distance code can leave it: an ordinary value, or the
   * NaN or Infinity produced by a division by zero. Such a value compares
   * false with every number, so it never wins the selection.
   */
  datatype Measure = Finite(v: real) | NonFinite

  /** `x / n` for a `Double` divided by an `Int`. */
  function Divide(x: real, n: int): (m: Measure)
    ensures m.NonFinite? <==> n == 0
    ensures n != 0 ==> m.v * (n as real) == x
  {
    if n == 0 then NonFinite else Finite(x / n as real)
  }

  function RealAbs(x: real): (r: real)
    ensures r >= 0.0 && (r == x || r == -x)
  {
    if x < 0.0 then -x else x
  }

  // ---------------------------------------------------------------------
  // reshapeList
  // ---------------------------------------------------------------------

  /** `newShape.reduce { acc, i -> acc * i }` in `Int` arithmetic. */
  function Product(shape: seq<int>): int
    requires |shape| > 0
  {
    if |shape| == 1 then shape[0] else Wrap32(Product(shape[..|shape| - 1]) * shape[|shape| - 1])
  }

  /**
   * The consecutive sublists of `input` whose lengths are the entries of
   * `shape`, the first one starting at `start`; `subList` throws when a
   * piece runs past the end or its end lies before its start.
   */
  function Cuts(input: seq<real>, shape: seq<int>, start: int): Result<seq<seq<real>>, string>
    requires 0 <= start <= |input|
    decreases |shape|
  {
    if |shape| == 0 then Success([])
    else
      var stop := Wrap32(start + shape[0]);
      if stop > |input| then Failure(IndexOutOfBounds)
      else if start > stop then Failure(RequireFailed)
      else match Cuts(input, shape[1..], stop)
        case Failure(e) => Failure(e)
        case Success(rest) => Success([input[start..stop]] + rest)
  }

  /** `reshapeList(inputList, newShape)`. */
  function Reshape(input: seq<real>, shape: seq<int>): Result<seq<seq<real>>, string>
  {
    if |shape| == 0 then Failure(EmptyReduce)
    else if |input| != Product(shape) then Failure(RequireFailed)
    else Cuts(input, shape, 0)
  }

  function Prepend(done: seq<seq<real>>, r: Result<seq<seq<real>>, string>): Result<seq<seq<real>>, string>
  {
    match r
    case Failure(e) => Failure(e)
    case Success(rest) => Success(done + rest)
  }

  /**
   * Cutting succeeds exactly when every length is non-negative and their sum
   * fits in what is left after `start`.
   */
  lemma {:induction false} CutsSucceeds(input: seq<real>, shape: seq<int>, start: int)
    requires 0 <= start <= |input| <= IntMax
    requires forall k :: 0 <= k < |shape| ==> InIntRange(shape[k])
    ensures Cuts(input, shape, start).Success? <==>
      (forall k :: 0 <= k < |shape| ==> shape[k] >= 0) && start + SumInt(shape) <= |input|
    decreases |shape|
  {
    if |shape| > 0 {
      var d := shape[0];
      WrapAdd(start, d);
      var stop := Wrap32(start + d);
      var tail := shape[1..];
      assert forall k :: 0 <= k < |tail| ==> tail[k] == shape[k + 1];
      SumIntNonNeg(tail);
      if start <= stop <= |input| {
        CutsSucceeds(input, tail, stop);
      }
    }
  }

  /**
   * The pieces of a successful cut have the requested lengths and run
   * together to the slice of `input` that starts at `start`.
   */
  lemma {:induction false} CutsPieces(input: seq<real>, shape: seq<int>, start: int)
    requires 0 <= start <= |input| <= IntMax
    requires forall k :: 0 <= k < |shape| ==> InIntRange(shape[k])
    requires Cuts(input, shape, start).Success?
    ensures 0 <= SumInt(shape) && start + SumInt(shape) <= |input|
    ensures var rows := Cuts(input, shape, start).value;
      |rows| == |shape| && (forall k :: 0 <= k < |rows| ==> |rows[k]| == shape[k]) &&
      Concat(rows) == input[start..start + SumInt(shape)]
    decreases |shape|
  {
    if |shape| > 0 {
      CutsHead(input, shape, start);
      var stop := start + shape[0];
      var tail := shape[1..];
      assert forall k :: 0 <= k < |tail| ==> tail[k] == shape[k + 1];
      CutsPieces(input, tail, stop);
      var rows := Cuts(input, shape, start).value;
      var rest := Cuts(input, tail, stop).value;
      assert rows[0] == input[start..stop] && rows[1..] == rest;
      forall k | 0 <= k < |rows|
        ensures |rows[k]| == shape[k]
      {
        if k > 0 { assert rows[k] == rest[k - 1]; }
      }
      SliceJoin(input, start, stop, stop + SumInt(tail));
    }
  }

  /** A successful cut takes its first piece, of length `shape[0]`, and cuts the rest after it. */
  lemma CutsHead(input: seq<real>, shape: seq<int>, start: int)
    requires 0 <= start <= |input| <= IntMax && |shape| > 0 && InIntRange(shape[0])
    requires Cuts(input, shape, start).Success?
    ensures var stop := start + shape[0];
      && start <= stop <= |input|
      && Cuts(input, shape[1..], stop).Success?
      && Cuts(input, shape, start).value == [input[start..stop]] + Cuts(input, shape[1..], stop).value
  {
    WrapAdd(start, shape[0]);
  }

  lemma SliceJoin(s: seq<real>, a: int, b: int, c: int)
    requires 0 <= a <= b <= c <= |s|
    ensures s[a..b] + s[b..c] == s[a..c]
  {
  }

  lemma {:induction false} SumIntNonNeg(s: seq<int>)
    ensures (forall k :: 0 <= k < |s| ==> s[k] >= 0) ==> SumInt(s) >= 0
  {
    if |s| > 0 {
      SumIntNonNeg(s[1..]);
      assert forall k :: 1 <= k < |s| ==> s[1..][k - 1] == s[k];
    }
  }

  /**
   * For a HOG vector of 576 values the shape `[64, 9]` cuts two rows, of 64
   * and of 9 values: the lengths of the pieces, not a 64 x 9 matrix.
   */
  lemma ReshapeHog(hog: seq<real>)
    requires |hog| == 576
    ensures Reshape(hog, [64, 9]) == Success([hog[..64], hog[64..73]])
  {
    var shape := [64, 9];
    assert shape[..1] == [64];
    assert Product(shape) == 576;
    assert shape[1..] == [9] && [9][1..] == [];
    assert Wrap32(64 + 9) == 73;
    assert Cuts(hog, [], 73) == Success([]);
    assert [hog[64..73]] + [] == [hog[64..73]];
    assert Cuts(hog, [9], 64) == Success([hog[64..73]]);
    assert Wrap32(0 + 64) == 64;
    assert hog[0..64] == hog[..64];
    assert Cuts(hog, shape, 0) == Success([hog[0..64]] + [hog[64..73]]);
    assert [hog[0..64]] + [hog[64..73]] == [hog[..64], hog[64..73]];
    assert Reshape(hog, shape) == Cuts(hog, shape, 0);
  }

  /**
   * `reshapeList` succeeds exactly when the shape is non-empty, its `Int`
   * product is the input's size, and its entries are non-negative lengths
   * that fit; the rows then have those lengths and run through the input
   * from its start.
   */
  lemma ReshapeCases(input: seq<real>, shape: seq<int>)
    requires |input| <= IntMax && forall k :: 0 <= k < |shape| ==> InIntRange(shape[k])
    ensures Reshape(input, shape).Success? <==>
      |shape| > 0 && |input| == Product(shape) &&
      (forall k :: 0 <= k < |shape| ==> shape[k] >= 0) && 0 <= SumInt(shape) <= |input|
    ensures Reshape(input, shape).Success? ==>
      var rows := Reshape(input, shape).value;
      |rows| == |shape| && (forall k :: 0 <= k < |rows| ==> |rows[k]| == shape[k]) &&
      Concat(rows) == input[..SumInt(shape)]
  {
    SumIntNonNeg(shape);
    if |shape| > 0 && |input| == Product(shape) {
      CutsSucceeds(input, shape, 0);
      if Cuts(input, shape, 0).Success? {
        CutsPieces(input, shape, 0);
      }
    }
  }

  /** One turn of the cutting loop. */
  lemma CutsStep(input: seq<real>, shape: seq<int>, i: nat, start: int)
    requires i < |shape| && 0 <= start <= |input|
    ensures var stop := Wrap32(start + shape[i]);
      Cuts(input, shape[i..], start) ==
        if stop > |input| then Failure(IndexOutOfBounds)
        else if start > stop then Failure(RequireFailed)
        else Prepend([input[start..stop]], Cuts(input, shape[i + 1..], stop))
  {
    assert shape[i..][1..] == shape[i + 1..];
  }

  lemma PrependNothing(r: Result<seq<seq<real>>, string>)
    ensures Prepend([], r) == r
  {
    if r.Success? {
      assert [] + r.value == r.value;
    }
  }

  lemma PrependTwice(done: seq<seq<real>>, piece: seq<seq<real>>, r: Result<seq<seq<real>>, string>)
    ensures Prepend(done, Prepend(piece, r)) == Prepend(done + piece, r)
  {
    if r.Success? {
      assert done + (piece + r.value) == (done + piece) + r.value;
    }
  }

  /** `reshapeList`, with its `currentIndex` loop over the entries of `newShape`. */
  method ReshapeList(inputList: seq<real>, newShape: seq<int>) returns (r: Result<seq<seq<real>>, string>)
    ensures r == Reshape(inputList, newShape)
  {
    if |newShape| == 0 {
      return Failure(EmptyReduce);
    }
    var totalElements := |inputList|;
    var newTotalElements := Product(newShape);
    if totalElements != newTotalElements {
      return Failure(RequireFailed);
    }
    var result: seq<seq<real>> := [];
    var currentIndex := 0;
    var i := 0;
    assert newShape[0..] == newShape;
    PrependNothing(Cuts(inputList, newShape, 0));
    while i < |newShape|
      invariant 0 <= i <= |newShape| && 0 <= currentIndex <= |inputList|
      invariant Cuts(inputList, newShape, 0) == Prepend(result, Cuts(inputList, newShape[i..], currentIndex))
    {
      var dimension := newShape[i];
      CutsStep(inputList, newShape, i, currentIndex);
      var stop := Wrap32(currentIndex + dimension);
      if stop > |inputList| {
        return Failure(IndexOutOfBounds);
      }
      if currentIndex > stop {
        return Failure(RequireFailed);
      }
      PrependTwice(result, [inputList[currentIndex..stop]], Cuts(inputList, newShape[i + 1..], stop));
      result := result + [inputList[currentIndex..stop]];
      currentIndex := stop;
      i := i + 1;
    }
    assert newShape[i..] == [];
    assert result + [] == result;
    r := Success(result);
  }

  // ---------------------------------------------------------------------
  // addZDimension
  // ---------------------------------------------------------------------

  /** `sublist.all { abs(it) < 1e-6 }`. */
  predicate Negligible(row: seq<real>)
  {
    forall k :: 0 <= k < |row| ==> RealAbs(row[k]) < 0.000001
  }

  /** `normArr` (ones at indices 0 and 1) for a row found negligible, `zeroArr` otherwise; each as long as there are rows. */
  function ZFlags(rows: seq<seq<real>>): (flags: seq<seq<real>>)
    requires |rows| >= 2
    ensures |flags| == |rows| && forall i :: 0 <= i < |rows| ==> |flags[i]| == |rows|
  {
    var n := |rows|;
    seq(n, i requires 0 <= i < n =>
      if Negligible(rows[i]) then seq(n, j => if j < 2 then 1.0 else 0.0) else seq(n, j => 0.0))
  }

  /** `arrConcat`: row `k` followed by entry `k` of the flattened flag matrix. */
  function AddZ(rows: seq<seq<real>>): seq<seq<real>>
    requires |rows| >= 2
  {
    var flat := Concat(ZFlags(rows));
    seq(|rows|, k requires 0 <= k < |rows| => rows[k] + [flat[k]])
  }

  /** `addZDimension` on a list, which throws when it is too short to set `normArr[1]`. */
  function WithZDimension(rows: seq<seq<real>>): Result<seq<seq<real>>, string>
  {
    if |rows| < 2 then Failure(IndexOutOfBounds) else Success(AddZ(rows))
  }

  /**
   * Entry `k` of the flattened flags lies in the first row of the flag
   * matrix, so every row is extended according to whether the FIRST row is
   * negligible: 1.0 for rows 0 and 1 when it is, 0.0 everywhere else.
   */
  lemma AddZReadsFirstRow(rows: seq<seq<real>>)
    requires |rows| >= 2
    ensures |AddZ(rows)| == |rows|
    ensures forall k :: 0 <= k < |rows| ==>
      AddZ(rows)[k] == rows[k] + [if Negligible(rows[0]) && k < 2 then 1.0 else 0.0]
  {
    var flags := ZFlags(rows);
    var flat := Concat(flags);
    assert forall k :: 0 <= k < |rows| ==> flat[k] == flags[0][k];
  }

  /**
   * `addZDimension(arr)`: on success every row gains one value and nothing
   * else changes; a list of fewer than two rows throws and is left as it was.
   */
  method AddZDimension(arr: array<seq<real>>) returns (thrown: Option<string>)
    modifies arr
    ensures arr.Length < 2 ==> thrown == Some(IndexOutOfBounds) && arr[..] == old(arr[..])
    ensures arr.Length >= 2 ==> thrown == None && arr[..] == AddZ(old(arr[..]))
  {
    var arrShape := arr.Length;
    if arrShape < 2 {
      return Some(IndexOutOfBounds);
    }
    var arrZDimReshaped := Concat(ZFlags(arr[..]));
    ghost var before := arr[..];
    forall k | 0 <= k < arrShape {
      arr[k] := arr[k] + [arrZDimReshaped[k]];
    }
    thrown := None;
  }

  // ---------------------------------------------------------------------
  // calculateDistance
  // ---------------------------------------------------------------------

  /** The sum of `(aVal - bVal)^2` over the pairs of two rows of one length. */
  function SquaredDistance(x: seq<real>, y: seq<real>): (s: real)
    requires |x| == |y|
    ensures s >= 0.0
  {
    if |x| == 0 then 0.0 else (x[0] - y[0]) * (x[0] - y[0]) + SquaredDistance(x[1..], y[1..])
  }

  /** `diffSquaredSum`: the inner `require` throws at the first pair of rows of different sizes. */
  function RowsSquared(a: seq<seq<real>>, b: seq<seq<real>>): Result<real, string>
    requires |a| == |b|
  {
    if |a| == 0 then Success(0.0)
    else if |a[0]| != |b[0]| then Failure(RequireFailed)
    else match RowsSquared(a[1..], b[1..])
      case Failure(e) => Failure(e)
      case Success(s) => Success(SquaredDistance(a[0], b[0]) + s)
  }

  /** `calculateDistance(a, b)`: the root of the summed squared differences over `a.size * a[0].size`. */
  function CalculateDistance(a: seq<seq<real>>, b: seq<seq<real>>, sqrt: real -> real): Result<Measure, string>
  {
    if !(|a| == |b| && |a| > 0) then Failure(RequireFailed)
    else
      var numElements := Wrap32(|a| * |a[0]|);
      match RowsSquared(a, b)
      case Failure(e) => Failure(e)
      case Success(s) => Success(Divide(sqrt(s), numElements))
  }

  /** The summed squares exist exactly when paired rows have equal sizes, and are never negative. */
  lemma {:induction false} RowsSquaredCases(a: seq<seq<real>>, b: seq<seq<real>>)
    requires |a| == |b|
    ensures RowsSquared(a, b).Success? <==> forall k :: 0 <= k < |a| ==> |a[k]| == |b[k]|
    ensures RowsSquared(a, b).Success? ==> RowsSquared(a, b).value >= 0.0
    ensures RowsSquared(a, b).Failure? ==> RowsSquared(a, b).error == RequireFailed
  {
    if |a| > 0 {
      RowsSquaredCases(a[1..], b[1..]);
      assert forall k :: 1 <= k < |a| ==> a[1..][k - 1] == a[k] && b[1..][k - 1] == b[k];
    }
  }

  /** `calculateDistance` throws exactly when the outer sizes differ or are zero, or some paired rows differ in size. */
  lemma CalculateDistanceFails(a: seq<seq<real>>, b: seq<seq<real>>, sqrt: real -> real)
    ensures CalculateDistance(a, b, sqrt).Failure? <==>
      |a| != |b| || |a| == 0 || !(forall k :: 0 <= k < |a| ==> |a[k]| == |b[k]|)
    ensures CalculateDistance(a, b, sqrt).Failure? ==> CalculateDistance(a, b, sqrt).error == RequireFailed
  {
    if |a| == |b| {
      RowsSquaredCases(a, b);
    }
  }

  lemma {:induction false} SquaredDistanceSelf(x: seq<real>)
    ensures SquaredDistance(x, x) == 0.0
  {
    if |x| > 0 {
      SquaredDistanceSelf(x[1..]);
    }
  }

  lemma {:induction false} RowsSquaredSelf(a: seq<seq<real>>)
    ensures RowsSquared(a, a) == Success(0.0)
  {
    if |a| > 0 {
      SquaredDistanceSelf(a[0]);
      RowsSquaredSelf(a[1..]);
    }
  }

  /** A list is at distance 0 from itself (given that the root of 0 is 0 and the element count is a positive `Int`). */
  lemma CalculateDistanceSelf(a: seq<seq<real>>, sqrt: real -> real)
    requires |a| > 0 && 0 < |a| * |a[0]| <= IntMax && sqrt(0.0) == 0.0
    ensures CalculateDistance(a, a, sqrt) == Success(Finite(0.0))
  {
    RowsSquaredSelf(a);
  }

  lemma {:induction false} SquaredDistanceSymmetric(x: seq<real>, y: seq<real>)
    requires |x| == |y|
    ensures SquaredDistance(x, y) == SquaredDistance(y, x)
  {
    if |x| > 0 {
      SquaredDistanceSymmetric(x[1..], y[1..]);
      assert (x[0] - y[0]) * (x[0] - y[0]) == (y[0] - x[0]) * (y[0] - x[0]);
    }
  }

  lemma {:induction false} RowsSquaredSymmetric(a: seq<seq<real>>, b: seq<seq<real>>)
    requires |a| == |b|
    ensures RowsSquared(a, b) == RowsSquared(b, a)
  {
    if |a| > 0 && |a[0]| == |b[0]| {
      SquaredDistanceSymmetric(a[0], b[0]);
      RowsSquaredSymmetric(a[1..], b[1..]);
    }
  }

  /** `calculateDistance` does not depend on the order of its arguments. */
  lemma CalculateDistanceSymmetric(a: seq<seq<real>>, b: seq<seq<real>>, sqrt: real -> real)
    ensures CalculateDistance(a, b, sqrt) == CalculateDistance(b, a, sqrt)
  {
    if |a| == |b| && |a| > 0 {
      RowsSquaredSymmetric(a, b);
      RowsSquaredCases(a, b);
    }
  }

  // ---------------------------------------------------------------------
  // distanceHog and getDistance
  // ---------------------------------------------------------------------

  /**
   * `distanceHog(aHog, bHog)`: both vectors reshaped with `[histCnt, binCnt]`,
   * where `histCnt = (128.0 / 16.0).pow(2).toInt() = 64` and `binCnt = 9`,
   * extended by `addZDimension`, then compared.
   */
  function DistanceHog(aHog: seq<real>, bHog: seq<real>, sqrt: real -> real): Result<Measure, string>
  {
    match Reshape(aHog, [64, 9])
    case Failure(e) => Failure(e)
    case Success(ra) =>
      match WithZDimension(ra)
      case Failure(e) => Failure(e)
      case Success(za) =>
        match Reshape(bHog, [64, 9])
        case Failure(e) => Failure(e)
        case Success(rb) =>
          match WithZDimension(rb)
          case Failure(e) => Failure(e)
          case Success(zb) => CalculateDistance(za, zb, sqrt)
  }

  /** The two rows `hog[..64]` and `hog[64..73]`, each extended by one value. */
  function HogRows(hog: seq<real>): seq<seq<real>>
    requires |hog| == 576
  {
    AddZ([hog[..64], hog[64..73]])
  }

  /**
   * For two vectors of 576 values the distance compares the rows of 65 and
   * 10 values cut from their first 73 entries, and divides by 2 * 65 = 130.
   */
  lemma DistanceHogShape(aHog: seq<real>, bHog: seq<real>, sqrt: real -> real)
    requires |aHog| == 576 && |bHog| == 576
    ensures RowsSquared(HogRows(aHog), HogRows(bHog)).Success?
    ensures DistanceHog(aHog, bHog, sqrt) ==
      Success(Finite(sqrt(RowsSquared(HogRows(aHog), HogRows(bHog)).value) / 130.0))
  {
    ReshapeHog(aHog);
    ReshapeHog(bHog);
    var za := HogRows(aHog);
    var zb := HogRows(bHog);
    AddZReadsFirstRow([aHog[..64], aHog[64..73]]);
    AddZReadsFirstRow([bHog[..64], bHog[64..73]]);
    assert |za[0]| == 65 && |zb[0]| == 65 && |za[1]| == 10 && |zb[1]| == 10;
    RowsSquaredCases(za, zb);
  }

  /** A HOG vector of any length other than 576 makes `distanceHog` throw. */
  lemma DistanceHogFails(aHog: seq<real>, bHog: seq<real>, sqrt: real -> real)
    requires |aHog| != 576 || |bHog| != 576
    ensures DistanceHog(aHog, bHog, sqrt) == Failure(RequireFailed)
  {
    assert Product([64, 9]) == 576 by {
      assert [64, 9][..1] == [64];
    }
    if |aHog| == 576 {
      ReshapeHog(aHog);
    }
  }

  /** `distanceResNet50`: the mean of `sqrt(abs(q^2 - c^2))` over the pairs `zip` forms; NaN when there are none. */
  function EmbeddingDistance(query: seq<real>, centroid: seq<real>, sqrt: real -> real): Measure
  {
    Divide(Sum(EmbeddingTerms(query, centroid, sqrt)), Min(|query|, |centroid|))
  }

  /** `sqrt(abs(q.pow(2) - c.pow(2)))` for one pair of the zipped lists. */
  function Term(q: real, c: real, sqrt: real -> real): real
  {
    sqrt(RealAbs(q * q - c * c))
  }

  /** `zip` then `map`: one term per pair, as many as the shorter list has values. */
  function EmbeddingTerms(query: seq<real>, centroid: seq<real>, sqrt: real -> real): (terms: seq<real>)
    ensures |terms| == Min(|query|, |centroid|)
    ensures forall i :: 0 <= i < |terms| ==> terms[i] == Term(query[i], centroid[i], sqrt)
  {
    if |query| == 0 || |centroid| == 0 then []
    else
      var rest := EmbeddingTerms(query[1..], centroid[1..], sqrt);
      var terms := [Term(query[0], centroid[0], sqrt)] + rest;
      assert forall i :: 1 <= i < |terms| ==>
        terms[i] == rest[i - 1] && query[1..][i - 1] == query[i] && centroid[1..][i - 1] == centroid[i];
      terms
  }

  /** `weight * distanceHog + distanceResNet50` with `weight = 50.0`; NaN and Infinity propagate. */
  function Combine(hog: Measure, embedding: Measure): Measure
  {
    if hog.Finite? && embedding.Finite? then Finite(50.0 * hog.v + embedding.v) else NonFinite
  }

  /**
   * `getDistance(hog, resnet50, centroidIdx)`: the first 2048 values of the
   * centroid are its ResNet-50 part, the rest its HOG part.
   */
  function GetDistance(hog: seq<real>, resnet50: seq<real>, centroids: seq<seq<real>>, centroidIdx: int,
                       sqrt: real -> real): Result<Measure, string>
  {
    if !(0 <= centroidIdx < |centroids|) then Failure(IndexOutOfBounds)
    else
      var c := centroids[centroidIdx];
      if |c| < 2048 then Failure(IndexOutOfBounds)
      else
        var distanceResNet50 := EmbeddingDistance(resnet50, c[..2048], sqrt);
        match DistanceHog(hog, c[2048..], sqrt)
        case Failure(e) => Failure(e)
        case Success(distanceHog) => Success(Combine(distanceHog, distanceResNet50))
  }

  lemma {:induction false} SumAllZero(s: seq<real>)
    requires forall k :: 0 <= k < |s| ==> s[k] == 0.0
    ensures Sum(s) == 0.0
  {
    if |s| > 0 {
      assert forall k :: 0 <= k < |s| - 1 ==> s[1..][k] == s[k + 1];
      SumAllZero(s[1..]);
    }
  }

  /** A query is at distance 0 from the centroid made of its own embedding and HOG vector. */
  lemma GetDistanceSelf(hog: seq<real>, resnet50: seq<real>, centroids: seq<seq<real>>, centroidIdx: int,
                        sqrt: real -> real)
    requires |hog| == 576 && |resnet50| == 2048 && sqrt(0.0) == 0.0
    requires 0 <= centroidIdx < |centroids| && centroids[centroidIdx] == resnet50 + hog
    ensures GetDistance(hog, resnet50, centroids, centroidIdx, sqrt) == Success(Finite(0.0))
  {
    var c := centroids[centroidIdx];
    assert c[..2048] == resnet50 && c[2048..] == hog;
    var terms := EmbeddingTerms(resnet50, c[..2048], sqrt);
    assert forall i :: 0 <= i < |terms| ==> terms[i] == Term(resnet50[i], resnet50[i], sqrt) == sqrt(0.0);
    SumAllZero(terms);
    assert EmbeddingDistance(resnet50, c[..2048], sqrt) == Finite(0.0);
    DistanceHogShape(hog, hog, sqrt);
    RowsSquaredSelf(HogRows(hog));
  }

  // ---------------------------------------------------------------------
  // The nearest centroid
  // ---------------------------------------------------------------------

  /** The indices the selection loop visits: `0 until centroid.size - 2`. */
  function Candidates(centroids: seq<seq<real>>): nat
  {
    if |centroids| >= 2 then |centroids| - 2 else 0
  }

  /** The distances to centroids `0 .. n - 1`, in order; the first exception ends the loop. */
  function Distances(hog: seq<real>, resnet50: seq<real>, centroids: seq<seq<real>>, sqrt: real -> real, n: nat)
    : Result<seq<Measure>, string>
  {
    if n == 0 then Success([])
    else match Distances(hog, resnet50, centroids, sqrt, n - 1)
      case Failure(e) => Failure(e)
      case Success(ds) =>
        match GetDistance(hog, resnet50, centroids, n - 1, sqrt)
        case Failure(e) => Failure(e)
        case Success(d) => Success(ds + [d])
  }

  /** `res.second > calculatedDistance`, where only the initial +Infinity can be a non-finite `res.second`. */
  predicate Beats(d: Measure, best: Measure)
  {
    d.Finite? && (best.NonFinite? || d.v < best.v)
  }

  /** `res` after visiting `ds`, starting from `Pair(-1, POSITIVE_INFINITY)`. */
  function ArgMin(ds: seq<Measure>): (res: (int, Measure))
    ensures -1 <= res.0 < |ds|
  {
    if |ds| == 0 then (-1, NonFinite)
    else
      var prev := ArgMin(ds[..|ds| - 1]);
      if Beats(ds[|ds| - 1], prev.1) then (|ds| - 1, ds[|ds| - 1]) else prev
  }

  /**
   * The selection keeps the earliest index of the smallest finite distance:
   * its distance is no larger than any finite one and strictly smaller than
   * every finite one before it; it stays at -1 exactly when no distance is
   * finite.
   */
  lemma {:induction false} ArgMinIsEarliestMinimum(ds: seq<Measure>)
    ensures ArgMin(ds).0 == -1 <==> forall k :: 0 <= k < |ds| ==> ds[k].NonFinite?
    ensures ArgMin(ds).0 == -1 ==> ArgMin(ds).1 == NonFinite
    ensures ArgMin(ds).0 != -1 ==>
      var i := ArgMin(ds).0;
      ArgMin(ds).1 == ds[i] && ds[i].Finite? &&
      (forall k :: 0 <= k < |ds| && ds[k].Finite? ==> ds[i].v <= ds[k].v) &&
      (forall k :: 0 <= k < i && ds[k].Finite? ==> ds[i].v < ds[k].v)
    decreases |ds|
  {
    if |ds| > 0 {
      var front := ds[..|ds| - 1];
      ArgMinIsEarliestMinimum(front);
      assert forall k :: 0 <= k < |front| ==> front[k] == ds[k];
    }
  }

  /** `res` after the loop, or the exception that ended it. */
  function SelectOf(hog: seq<real>, resnet50: seq<real>, centroids: seq<seq<real>>, sqrt: real -> real)
    : Result<(int, Measure), string>
  {
    match Distances(hog, resnet50, centroids, sqrt, Candidates(centroids))
    case Failure(e) => Failure(e)
    case Success(ds) => Success(ArgMin(ds))
  }

  lemma {:induction false} DistancesStop(hog: seq<real>, resnet50: seq<real>, centroids: seq<seq<real>>,
                                         sqrt: real -> real, n: nat, m: nat)
    requires n <= m && Distances(hog, resnet50, centroids, sqrt, n).Failure?
    ensures Distances(hog, resnet50, centroids, sqrt, m) == Distances(hog, resnet50, centroids, sqrt, n)
    decreases m
  {
    if n < m {
      DistancesStop(hog, resnet50, centroids, sqrt, n, m - 1);
    }
  }

  /** The loop `for (i in 0 until centroid.size - 2)` of `recommendPose`. */
  method SelectCentroid(hog: seq<real>, resnet50: seq<real>, centroids: seq<seq<real>>, sqrt: real -> real)
    returns (r: Result<(int, Measure), string>)
    ensures r == SelectOf(hog, resnet50, centroids, sqrt)
  {
    var res := (-1, NonFinite);
    ghost var ds: seq<Measure> := [];
    var count := if |centroids| >= 2 then |centroids| - 2 else 0;
    var i := 0;
    while i < count
      invariant 0 <= i <= count && |ds| == i
      invariant Distances(hog, resnet50, centroids, sqrt, i) == Success(ds) && res == ArgMin(ds)
    {
      var calculatedDistance := GetDistance(hog, resnet50, centroids, i, sqrt);
      if calculatedDistance.Failure? {
        DistancesStop(hog, resnet50, centroids, sqrt, i + 1, count);
        return Failure(calculatedDistance.error);
      }
      assert (ds + [calculatedDistance.value])[..i] == ds;
      if Beats(calculatedDistance.value, res.1) {
        res := (i, calculatedDistance.value);
      }
      ds := ds + [calculatedDistance.value];
      i := i + 1;
    }
    r := Success(res);
  }

  /** `poseRanks[bestPoseId]`, which throws for the index -1 or one past the pose groups. */
  function RecommendOf(hog: seq<real>, resnet50: seq<real>, centroids: seq<seq<real>>,
                       poseRanks: seq<seq<Catalog.PoseData>>, sqrt: real -> real): Result<seq<Catalog.PoseData>, string>
  {
    match SelectOf(hog, resnet50, centroids, sqrt)
    case Failure(e) => Failure(e)
    case Success(res) =>
      if 0 <= res.0 < |poseRanks| then Success(poseRanks[res.0]) else Failure(IndexOutOfBounds)
  }

  /** The pose list `recommendPose` hands back for a query's HOG vector and embedding. */
  method RecommendPose(hog: seq<real>, resnet50: seq<real>, centroids: seq<seq<real>>,
                       poseRanks: seq<seq<Catalog.PoseData>>, sqrt: real -> real)
    returns (r: Result<seq<Catalog.PoseData>, string>)
    ensures r == RecommendOf(hog, resnet50, centroids, poseRanks, sqrt)
  {
    var res := SelectCentroid(hog, resnet50, centroids, sqrt);
    if res.Failure? {
      return Failure(res.error);
    }
    var bestPoseId := res.value.0;
    if !(0 <= bestPoseId < |poseRanks|) {
      return Failure(IndexOutOfBounds);
    }
    r := Success(poseRanks[bestPoseId]);
  }

  /** With two centroids or fewer the loop visits nothing, and `poseRanks[-1]` throws. */
  lemma FewCentroidsFail(hog: seq<real>, resnet50: seq<real>, centroids: seq<seq<real>>,
                         poseRanks: seq<seq<Catalog.PoseData>>, sqrt: real -> real)
    requires |centroids| <= 2
    ensures RecommendOf(hog, resnet50, centroids, poseRanks, sqrt) == Failure(IndexOutOfBounds)
  {
  }

  /**
   * A recommendation is the pose group of a visited centroid at the smallest
   * finite distance, the earliest such one, and never of the last two.
   */
  lemma RecommendIsNearest(hog: seq<real>, resnet50: seq<real>, centroids: seq<seq<real>>,
                           poseRanks: seq<seq<Catalog.PoseData>>, sqrt: real -> real)
    requires RecommendOf(hog, resnet50, centroids, poseRanks, sqrt).Success?
    ensures var ds := Distances(hog, resnet50, centroids, sqrt, Candidates(centroids)).value;
      var i := ArgMin(ds).0;
      0 <= i < |ds| && i < |centroids| - 2 && i < |poseRanks| &&
      RecommendOf(hog, resnet50, centroids, poseRanks, sqrt).value == poseRanks[i] &&
      ds[i].Finite? &&
      (forall k :: 0 <= k < |ds| && ds[k].Finite? ==> ds[i].v <= ds[k].v) &&
      (forall k :: 0 <= k < i && ds[k].Finite? ==> ds[i].v < ds[k].v)
  {
    var ds := Distances(hog, resnet50, centroids, sqrt, Candidates(centroids)).value;
    DistancesLength(hog, resnet50, centroids, sqrt, Candidates(centroids));
    ArgMinIsEarliestMinimum(ds);
  }

  lemma {:induction false} DistancesLength(hog: seq<real>, resnet50: seq<real>, centroids: seq<seq<real>>,
                                           sqrt: real -> real, n: nat)
    ensures Distances(hog, resnet50, centroids, sqrt, n).Success? ==>
      |Distances(hog, resnet50, centroids, sqrt, n).value| == n
  {
    if n > 0 {
      DistancesLength(hog, resnet50, centroids, sqrt, n - 1);
    }
  }
}
