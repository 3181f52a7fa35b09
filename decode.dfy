/**
 * `outputsToNMSPredictions`: the YOLO output buffer, `OutputRows` rows of
 * `OutputColumns` values each (box centre x and y, width, height, objectness,
 * then one score per class), becomes the list of candidate detections, which
 * then goes through `Nms.NonMaxSuppression`.
 */
module Decode {
  import opened Wrappers
  import opened KotlinNum
  import opened Boxes
  import opened Nms

  /** `YOLO_OUTPUT_ROW`. */
  const OutputRows: nat := 25200
  /** `YOLO_OUTPUT_COLUMN`. */
  const OutputColumns: nat := 85
  /** The class scores follow the four box values and the objectness. */
  const ClassCount: nat := 80

  /** What reading a `FloatArray` past its end throws. */
  const ArrayIndexOutOfBounds := "ArrayIndexOutOfBoundsException"

  /**
   * The row loop over the first `n` rows reads nothing past the end of `o`.
   * Its reads of a row rise from the objectness to the last class score, so
   * it is enough that the last row's objectness lies inside `o`, and the
   * whole last row when that objectness passes the threshold.
   */
  predicate Readable(o: seq<real>, n: nat)
  {
    n == 0 || ((n - 1) * 85 + 4 < |o| && (o[(n - 1) * 85 + 4] > Threshold ==> n * 85 <= |o|))
  }

  /** On a readable buffer every row's objectness is inside it, and so is every row that passes. */
  lemma ReadableRow(o: seq<real>, n: nat, row: nat)
    requires Readable(o, n) && row < n
    ensures row * 85 + 4 < |o|
    ensures o[row * 85 + 4] > Threshold ==> row * 85 + 85 <= |o|
  {
  }

  /** The full 25200 by 85 buffer the model produces is readable. */
  lemma FullBufferReadable(o: seq<real>)
    requires OutputRows * OutputColumns <= |o|
    ensures Readable(o, OutputRows)
  {
  }

  /** A loop whose first `m` rows read past the end of `o` does so over any more rows. */
  lemma UnreadableBeyond(o: seq<real>, m: nat, n: nat)
    requires m <= n && !Readable(o, m)
    ensures !Readable(o, n)
  {
  }

  /**
   * The running maximum of the class loop: the index of the first maximal
   * score, since a later score replaces the current one only when strictly
   * greater.
   */
  function FirstMaxIndex(scores: seq<real>): (r: nat)
    requires |scores| > 0
    ensures r < |scores|
    ensures forall k :: 0 <= k < |scores| ==> scores[k] <= scores[r]
    ensures forall k :: 0 <= k < r ==> scores[k] < scores[r]
    decreases |scores|
  {
    if |scores| == 1 then 0
    else
      var p := FirstMaxIndex(scores[..|scores| - 1]);
      if scores[|scores| - 1] > scores[p] then |scores| - 1 else p
  }

  /** The rectangle of a row with centre (x, y) and size w by h, scaled by (sw, sh). */
  function RowBox(sw: real, sh: real, x: real, y: real, w: real, h: real): Rect
  {
    Rect(ToInt(sw * (x - w / 2.0)), ToInt(sh * (y - h / 2.0)),
         ToInt(sw * (x + w / 2.0)), ToInt(sh * (y + h / 2.0)))
  }

  /** The class scores of row `row`. */
  function ClassScores(o: seq<real>, row: nat): (scores: seq<real>)
    requires row * 85 + 85 <= |o|
    ensures |scores| == ClassCount
  {
    o[row * 85 + 5..row * 85 + 85]
  }

  /** The detection that row `row` of the buffer `o` yields when it passes the threshold. */
  function RowPrediction(o: seq<real>, row: nat, sw: real, sh: real): (p: Prediction)
    requires row * 85 + 85 <= |o|
    ensures p.score == o[row * 85 + 4]
    ensures 0 <= p.classIdx < ClassCount
  {
    var b := row * 85;
    Prediction(FirstMaxIndex(ClassScores(o, row)), o[b + 4],
               RowBox(sw, sh, o[b], o[b + 1], o[b + 2], o[b + 3]))
  }

  /** The candidates of the first `n` rows, in row order. */
  function Candidates(o: seq<real>, n: nat, sw: real, sh: real): seq<Prediction>
    requires Readable(o, n)
  {
    if n == 0 then []
    else Candidates(o, n - 1, sw, sh)
         + (if o[(n - 1) * 85 + 4] > Threshold then [RowPrediction(o, n - 1, sw, sh)] else [])
  }

  /** The class of a row's detection is the first column with the highest class score. */
  lemma RowClassIsFirstMax(o: seq<real>, row: nat, sw: real, sh: real)
    requires row * 85 + 85 <= |o|
    ensures var p := RowPrediction(o, row, sw, sh); var c := ClassScores(o, row);
      && (forall k :: 0 <= k < ClassCount ==> c[k] <= c[p.classIdx])
      && (forall k :: 0 <= k < p.classIdx ==> c[k] < c[p.classIdx])
  {
  }

  /** Every candidate comes from a row whose objectness exceeds the threshold, in row order. */
  lemma {:induction false} CandidatesSound(o: seq<real>, n: nat, sw: real, sh: real)
    requires Readable(o, n)
    ensures |Candidates(o, n, sw, sh)| <= n
    ensures forall k :: 0 <= k < |Candidates(o, n, sw, sh)| ==>
      exists row :: (0 <= row < n && o[row * 85 + 4] > Threshold
        && Candidates(o, n, sw, sh)[k] == RowPrediction(o, row, sw, sh))
  {
    if n > 0 {
      CandidatesSound(o, n - 1, sw, sh);
      var c0 := Candidates(o, n - 1, sw, sh);
      var c := Candidates(o, n, sw, sh);
      forall k | 0 <= k < |c|
        ensures exists row :: (0 <= row < n && o[row * 85 + 4] > Threshold
          && c[k] == RowPrediction(o, row, sw, sh))
      {
        if k < |c0| {
          assert c[k] == c0[k];
          var row :| 0 <= row < n - 1 && o[row * 85 + 4] > Threshold
            && c0[k] == RowPrediction(o, row, sw, sh);
        } else {
          assert c[k] == RowPrediction(o, n - 1, sw, sh);
        }
      }
    }
  }

  /** Every row whose objectness exceeds the threshold yields a candidate. */
  lemma {:induction false} CandidatesComplete(o: seq<real>, n: nat, sw: real, sh: real)
    requires Readable(o, n)
    ensures forall row :: 0 <= row < n && o[row * 85 + 4] > Threshold ==>
      RowPrediction(o, row, sw, sh) in Candidates(o, n, sw, sh)
  {
    if n > 0 {
      CandidatesComplete(o, n - 1, sw, sh);
      var c0 := Candidates(o, n - 1, sw, sh);
      var c := Candidates(o, n, sw, sh);
      assert c[..|c0|] == c0;
      forall row | 0 <= row < n && o[row * 85 + 4] > Threshold
        ensures RowPrediction(o, row, sw, sh) in c
      {
        if row < n - 1 {
          var k :| 0 <= k < |c0| && c0[k] == RowPrediction(o, row, sw, sh);
          assert c[k] == c0[k];
        } else {
          assert c[|c| - 1] == RowPrediction(o, row, sw, sh);
        }
      }
    }
  }

  /**
   * Every detection the decoder returns is a candidate, so its score exceeds
   * the threshold and its class index is one of the class columns; there are
   * at most `Limit` of them.
   */
  lemma DecodedAreCandidates(o: seq<real>, n: nat, sw: real, sh: real)
    requires Readable(o, n)
    ensures var c := Candidates(o, n, sw, sh); var r := Suppress(SortByScore(c));
      && |r| <= Limit
      && forall p :: p in r ==> p in c && p.score > Threshold && 0 <= p.classIdx < ClassCount
  {
    var c := Candidates(o, n, sw, sh);
    var sorted := SortByScore(c);
    CandidatesSound(o, n, sw, sh);
    SortByScoreSortedPermutation(c);
    SuppressBounded(sorted);
    var idx := SelectedIndices(sorted, Iou);
    forall p | p in Suppress(sorted)
      ensures p in c && p.score > Threshold && 0 <= p.classIdx < ClassCount
    {
      var k :| 0 <= k < |Suppress(sorted)| && Suppress(sorted)[k] == p;
      assert p == sorted[idx[k]];
      assert p in multiset(sorted);
      assert p in c;
      var j :| 0 <= j < |c| && c[j] == p;
    }
  }

  /** The class loop over one row starting at `b`, with its strict comparison. */
  method ArgMaxClass(outputs: array<real>, b: nat) returns (clsIdx: nat)
    requires b + 85 <= outputs.Length
    ensures clsIdx == FirstMaxIndex(outputs[b + 5..b + 85])
  {
    ghost var scores := outputs[b + 5..b + 85];
    var maxValue := outputs[b + 5];
    clsIdx := 0;
    var j := 0;
    while j < ClassCount
      invariant 0 <= j <= ClassCount
      invariant j == 0 ==> clsIdx == 0
      invariant 0 < j ==> clsIdx == FirstMaxIndex(scores[..j])
      invariant clsIdx < ClassCount && maxValue == scores[clsIdx]
    {
      ghost var prev := clsIdx;
      assert outputs[b + 5 + j] == scores[j];
      if outputs[b + 5 + j] > maxValue {
        maxValue := outputs[b + 5 + j];
        clsIdx := j;
      }
      if j > 0 {
        ghost var prefix := scores[..j + 1];
        assert prefix[..j] == scores[..j];
        assert prefix[j] == scores[j] && prefix[prev] == scores[prev];
        assert FirstMaxIndex(prefix) == if prefix[j] > prefix[prev] then j else prev;
      }
      j := j + 1;
    }
    assert scores[..ClassCount] == scores;
  }

  /** The detection of a row, spelled out from the values the loop reads. */
  lemma RowPredictionOf(o: seq<real>, row: nat, sw: real, sh: real, clsIdx: nat,
                        score: real, x: real, y: real, w: real, h: real)
    requires row * 85 + 85 <= |o|
    requires clsIdx == FirstMaxIndex(o[row * 85 + 5..row * 85 + 85])
    requires score == o[row * 85 + 4]
    requires x == o[row * 85] && y == o[row * 85 + 1] && w == o[row * 85 + 2] && h == o[row * 85 + 3]
    ensures RowPrediction(o, row, sw, sh) == Prediction(clsIdx, score, RowBox(sw, sh, x, y, w, h))
  {
  }

  /** One more row: a candidate is appended exactly when the row passes the threshold. */
  lemma CandidatesNext(o: seq<real>, i: nat, sw: real, sh: real)
    requires Readable(o, i + 1)
    ensures Candidates(o, i + 1, sw, sh) == Candidates(o, i, sw, sh)
      + (if o[i * 85 + 4] > Threshold then [RowPrediction(o, i, sw, sh)] else [])
  {
  }

  /**
   * The row loop of `outputsToNMSPredictions`: the candidates, in row order,
   * or the exception of the first read past the end of a short buffer.
   */
  method CollectCandidates(sw: real, sh: real, outputs: array<real>)
    returns (r: Result<seq<Prediction>, string>)
    ensures Readable(outputs[..], OutputRows) ==> r == Success(Candidates(outputs[..], OutputRows, sw, sh))
    ensures !Readable(outputs[..], OutputRows) ==> r == Failure(ArrayIndexOutOfBounds)
  {
    ghost var o := outputs[..];
    var resultDataList := [];
    var i := 0;
    while i < OutputRows
      invariant 0 <= i <= OutputRows
      invariant Readable(o, i)
      invariant resultDataList == Candidates(o, i, sw, sh)
    {
      var b := i * 85;
      if outputs.Length <= b + 4 {
        UnreadableBeyond(o, i + 1, OutputRows);
        return Failure(ArrayIndexOutOfBounds);
      }
      if outputs[b + 4] > Threshold {
        if outputs.Length < b + 85 {
          UnreadableBeyond(o, i + 1, OutputRows);
          return Failure(ArrayIndexOutOfBounds);
        }
        CandidatesNext(o, i, sw, sh);
        var p := DecodeRow(sw, sh, outputs, i);
        resultDataList := resultDataList + [p];
      } else {
        CandidatesNext(o, i, sw, sh);
      }
      i := i + 1;
    }
    return Success(resultDataList);
  }

  /** The body of the row loop for a row that passes the threshold. */
  method DecodeRow(sw: real, sh: real, outputs: array<real>, i: nat) returns (p: Prediction)
    requires i * 85 + 85 <= outputs.Length
    ensures p == RowPrediction(outputs[..], i, sw, sh)
  {
    ghost var o := outputs[..];
    var b := i * 85;
    var score := outputs[b + 4];
    var x, y := outputs[b], outputs[b + 1];
    var w, h := outputs[b + 2], outputs[b + 3];
    var rect := RowBox(sw, sh, x, y, w, h);
    var clsIdx := ArgMaxClass(outputs, b);
    assert outputs[b + 5..b + 85] == o[i * 85 + 5..i * 85 + 85];
    RowPredictionOf(o, i, sw, sh, clsIdx, score, x, y, w, h);
    p := Prediction(clsIdx, score, rect);
  }

  /**
   * `outputsToNMSPredictions(scaleSize, outputs)`: collects the candidates of
   * every row, then returns the greedy suppression of them, sorted by score;
   * a buffer too short for the loop's reads throws.
   */
  method OutputsToNmsPredictions(sw: real, sh: real, outputs: array<real>)
    returns (r: Result<seq<Prediction>, string>)
    ensures Readable(outputs[..], OutputRows) ==>
      r == Success(Suppress(SortByScore(Candidates(outputs[..], OutputRows, sw, sh))))
    ensures !Readable(outputs[..], OutputRows) ==> r == Failure(ArrayIndexOutOfBounds)
  {
    var resultDataList := CollectCandidates(sw, sh, outputs);
    if resultDataList.Failure? {
      return Failure(resultDataList.error);
    }
    var c := resultDataList.value;
    var boxes := new Prediction[|c|](k requires 0 <= k < |c| => c[k]);
    assert boxes[..] == c;
    var selected := NonMaxSuppression(boxes);
    return Success(selected);
  }
}
