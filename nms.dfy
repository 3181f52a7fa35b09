/**
 * Greedy non-max suppression as `nonMaxSuppression` runs it: a stable sort by
 * ascending score, then a scan that selects every still-active box and
 * deactivates the later boxes that overlap it, stopping at `Limit` results.
 */
module Nms {
  import opened Boxes

  /** `YOLO_THRESHOLD` (0.3F), used for objectness and for overlap alike. */
  const Threshold: real := 0.3
  /** `YOLO_NMS_LIMIT`. */
  const Limit: nat := 15

  // ---------------------------------------------------------------------
  // The stable ascending sort (`boxes.sortWith { o1.score.compareTo(o2.score) }`)

  predicate SortedByScore(s: seq<Prediction>)
  {
    forall i, j :: 0 <= i < j < |s| ==> s[i].score <= s[j].score
  }

  /** Inserts `x` after every element whose score is at most its own. */
  function Insert(s: seq<Prediction>, x: Prediction): seq<Prediction>
  {
    if |s| == 0 then [x]
    else if s[|s| - 1].score <= x.score then s + [x]
    else Insert(s[..|s| - 1], x) + [s[|s| - 1]]
  }

  /** Insertion sort: the reference definition of the stable sort. */
  function SortByScore(s: seq<Prediction>): seq<Prediction>
  {
    if |s| == 0 then [] else Insert(SortByScore(s[..|s| - 1]), s[|s| - 1])
  }

  /** The elements of `s` whose score is `v`, in order. */
  function WithScore(s: seq<Prediction>, v: real): seq<Prediction>
  {
    if |s| == 0 then []
    else WithScore(s[..|s| - 1], v) + (if s[|s| - 1].score == v then [s[|s| - 1]] else [])
  }

  lemma {:induction false} InsertBound(s: seq<Prediction>, x: Prediction, b: real)
    requires forall k :: 0 <= k < |s| ==> s[k].score <= b
    requires x.score <= b
    ensures forall k :: 0 <= k < |Insert(s, x)| ==> Insert(s, x)[k].score <= b
  {
    if |s| > 0 && s[|s| - 1].score > x.score {
      InsertBound(s[..|s| - 1], x, b);
    }
  }

  lemma {:induction false} InsertFacts(s: seq<Prediction>, x: Prediction)
    requires SortedByScore(s)
    ensures SortedByScore(Insert(s, x))
    ensures multiset(Insert(s, x)) == multiset(s) + multiset{x}
    ensures |Insert(s, x)| == |s| + 1
  {
    if |s| == 0 {
    } else if s[|s| - 1].score <= x.score {
      SortedSnoc(s, x);
    } else {
      var init, last := s[..|s| - 1], s[|s| - 1];
      assert SortedByScore(init);
      InsertFacts(init, x);
      InsertBound(init, x, last.score);
      SortedSnoc(Insert(init, x), last);
      assert s == init + [last];
    }
  }

  lemma SortedSnoc(s: seq<Prediction>, x: Prediction)
    requires SortedByScore(s)
    requires forall k :: 0 <= k < |s| ==> s[k].score <= x.score
    ensures SortedByScore(s + [x])
  {
    var t := s + [x];
    forall i, j | 0 <= i < j < |t|
      ensures t[i].score <= t[j].score
    {
      assert t[i] == s[i];
      if j < |s| { assert t[j] == s[j]; }
    }
  }

  lemma {:induction false} InsertWithScore(s: seq<Prediction>, x: Prediction, v: real)
    ensures WithScore(Insert(s, x), v) == WithScore(s, v) + (if x.score == v then [x] else [])
  {
    if |s| == 0 {
      assert [x][..0] == [];
    } else if s[|s| - 1].score <= x.score {
      assert (s + [x])[..|s|] == s;
    } else {
      var init := s[..|s| - 1];
      InsertWithScore(init, x, v);
      var t := Insert(init, x);
      assert (t + [s[|s| - 1]])[..|t|] == t;
    }
  }

  /** The sort orders by score and keeps exactly the same elements. */
  lemma {:induction false} SortByScoreSortedPermutation(s: seq<Prediction>)
    ensures SortedByScore(SortByScore(s))
    ensures multiset(SortByScore(s)) == multiset(s)
    ensures |SortByScore(s)| == |s|
  {
    if |s| > 0 {
      SortByScoreSortedPermutation(s[..|s| - 1]);
      InsertFacts(SortByScore(s[..|s| - 1]), s[|s| - 1]);
      assert s == s[..|s| - 1] + [s[|s| - 1]];
    }
  }

  /** The sort is stable: boxes of equal score keep their relative order. */
  lemma {:induction false} SortByScoreStable(s: seq<Prediction>, v: real)
    ensures WithScore(SortByScore(s), v) == WithScore(s, v)
  {
    if |s| > 0 {
      SortByScoreStable(s[..|s| - 1], v);
      InsertWithScore(SortByScore(s[..|s| - 1]), s[|s| - 1], v);
    }
  }

  /** One shift of the inner loop: `key` goes before `p[j - 1]`. */
  lemma InsertShift(p: seq<Prediction>, j: nat, i: nat, key: Prediction)
    requires 0 < j <= i <= |p| && p[j - 1].score > key.score
    requires Insert(p, key) == Insert(p[..j], key) + p[j..i]
    ensures Insert(p, key) == Insert(p[..j - 1], key) + p[j - 1..i]
  {
    assert p[..j][..j - 1] == p[..j - 1];
    assert p[j - 1..i] == [p[j - 1]] + p[j..i];
  }

  /** The inner loop stops where `key` belongs. */
  lemma InsertStop(p: seq<Prediction>, j: nat, key: Prediction)
    requires j <= |p| && (j == 0 || p[j - 1].score <= key.score)
    ensures Insert(p[..j], key) == p[..j] + [key]
  {
  }

  /** Inserting the next element extends the sorted prefix. */
  lemma SortPrefixStep(orig: seq<Prediction>, i: nat)
    requires i < |orig|
    ensures SortByScore(orig[..i + 1]) == Insert(SortByScore(orig[..i]), orig[i])
  {
    assert orig[..i + 1][..i] == orig[..i];
  }

  /** Moves `a[i]` down into its place among `a[..i]`, shifting larger boxes up. */
  method InsertAt(a: array<Prediction>, i: nat)
    requires i < a.Length
    modifies a
    ensures a[..i + 1] == Insert(old(a[..i]), old(a[i]))
    ensures a[i + 1..] == old(a[i + 1..])
  {
    ghost var p := a[..i];
    ghost var rest := a[i + 1..];
    var key := a[i];
    var j := i;
    assert p[..j] == p && p[j..i] == [];
    assert a[..] == p[..j] + [a[j]] + p[j..i] + rest;
    while j > 0 && a[j - 1].score > key.score
      invariant 0 <= j <= i
      invariant a[..] == p[..j] + [a[j]] + p[j..i] + rest
      invariant Insert(p, key) == Insert(p[..j], key) + p[j..i]
    {
      InsertShift(p, j, i, key);
      ghost var before := a[..];
      ShiftSeq(p, j, i, rest, a[j]);
      a[j] := a[j - 1];
      assert a[..] == before[j := before[j - 1]];
      j := j - 1;
    }
    ghost var before := a[..];
    a[j] := key;
    assert a[..] == before[j := key];
    PlaceSeq(p, j, i, rest, before[j], key);
    InsertStop(p, j, key);
  }

  /** The shift `a[j] := a[j - 1]` moves the hole one place down. */
  lemma ShiftSeq(p: seq<Prediction>, j: nat, i: nat, rest: seq<Prediction>, x: Prediction)
    requires 0 < j <= i == |p|
    ensures (p[..j] + [x] + p[j..i] + rest)[j := p[j - 1]]
      == p[..j - 1] + [p[j - 1]] + p[j - 1..i] + rest
  {
    var l := (p[..j] + [x] + p[j..i] + rest)[j := p[j - 1]];
    var r := p[..j - 1] + [p[j - 1]] + p[j - 1..i] + rest;
    assert |l| == |r|;
    forall k | 0 <= k < |l| ensures l[k] == r[k] {
      if k < j - 1 {
      } else if k == j - 1 {
      } else if k == j {
      } else if k <= i {
        assert l[k] == p[j..i][k - j - 1];
        assert r[k] == p[j - 1..i][k - j];
      }
    }
  }

  /** Filling the hole with `key` gives the inserted prefix followed by the untouched rest. */
  lemma PlaceSeq(p: seq<Prediction>, j: nat, i: nat, rest: seq<Prediction>, x: Prediction, key: Prediction)
    requires 0 <= j <= i == |p|
    ensures var t := (p[..j] + [x] + p[j..i] + rest)[j := key];
      t[..i + 1] == p[..j] + [key] + p[j..i] && t[i + 1..] == rest
  {
    var t := (p[..j] + [x] + p[j..i] + rest)[j := key];
    assert t == (p[..j] + [key] + p[j..i]) + rest;
  }

  /** In-place insertion sort; the library's stable sort is specified by `SortByScore`. */
  method SortInPlace(a: array<Prediction>)
    modifies a
    ensures a[..] == SortByScore(old(a[..]))
  {
    ghost var orig := a[..];
    var i := 0;
    while i < a.Length
      invariant 0 <= i <= a.Length
      invariant a[..i] == SortByScore(orig[..i])
      invariant a[i..] == orig[i..]
      decreases a.Length - i
    {
      assert a[i] == orig[i];
      InsertAt(a, i);
      SortPrefixStep(orig, i);
      assert a[i + 1..] == orig[i + 1..];
      i := i + 1;
    }
    assert orig[..a.Length] == orig;
  }

  // ---------------------------------------------------------------------
  // The greedy scan, on the sorted boxes. It is stated for any overlap
  // measure `iou`; `Suppress` instantiates it with the source's `Boxes.Iou`.

  type Overlap = (Rect, Rect) -> real

  /** Box `b` is deactivated by the selected box `a`. */
  predicate Overlaps(iou: Overlap, a: Prediction, b: Prediction)
  {
    iou(a.box, b.box) > Threshold
  }

  predicate IndicesBelow(sel: seq<nat>, n: nat)
  {
    forall k :: 0 <= k < |sel| ==> sel[k] < n
  }

  predicate StrictlyIncreasing(sel: seq<nat>)
  {
    forall k1, k2 :: 0 <= k1 < k2 < |sel| ==> sel[k1] < sel[k2]
  }

  /** Box `j` overlaps some already selected box by more than the threshold. */
  predicate Suppressed(s: seq<Prediction>, sel: seq<nat>, j: nat, iou: Overlap)
    requires j < |s| && IndicesBelow(sel, |s|)
  {
    exists k :: 0 <= k < |sel| && Overlaps(iou, s[sel[k]], s[j])
  }

  /**
   * The scan from position `i` with selected positions `sel`: an unsuppressed
   * box is selected, and the scan stops as soon as `Limit` boxes are selected.
   */
  function Scan(s: seq<Prediction>, i: nat, sel: seq<nat>, iou: Overlap): (r: seq<nat>)
    requires i <= |s| && IndicesBelow(sel, |s|)
    ensures IndicesBelow(r, |s|)
    decreases |s| - i
  {
    if i == |s| then sel
    else if Suppressed(s, sel, i, iou) then Scan(s, i + 1, sel, iou)
    else if |sel| + 1 >= Limit then sel + [i]
    else Scan(s, i + 1, sel + [i], iou)
  }

  /** The positions, in `s`, of the boxes greedy suppression keeps. */
  function SelectedIndices(s: seq<Prediction>, iou: Overlap): (idx: seq<nat>)
    ensures IndicesBelow(idx, |s|)
  {
    Scan(s, 0, [], iou)
  }

  /** The boxes at the given positions, in the same order. */
  function Pick(s: seq<Prediction>, idx: seq<nat>): (r: seq<Prediction>)
    requires IndicesBelow(idx, |s|)
    ensures |r| == |idx|
    ensures forall k :: 0 <= k < |idx| ==> r[k] == s[idx[k]]
  {
    if |idx| == 0 then [] else [s[idx[0]]] + Pick(s, idx[1..])
  }

  /** Greedy suppression, with `Boxes.Iou`, over boxes already in scan order. */
  function Suppress(s: seq<Prediction>): seq<Prediction>
  {
    Pick(s, SelectedIndices(s, Iou))
  }

  /** No two selected boxes overlap by more than the threshold. */
  predicate PairwiseSeparate(s: seq<Prediction>, sel: seq<nat>, iou: Overlap)
    requires IndicesBelow(sel, |s|)
  {
    forall k1, k2 :: 0 <= k1 < k2 < |sel| ==> !Overlaps(iou, s[sel[k1]], s[sel[k2]])
  }

  /** Every box before `bound` that was not selected overlaps an earlier selected box. */
  predicate Covered(s: seq<Prediction>, sel: seq<nat>, bound: nat, iou: Overlap)
    requires bound <= |s| && IndicesBelow(sel, |s|)
  {
    forall j :: 0 <= j < bound && j !in sel ==> CoveredBefore(s, sel, j, iou)
  }

  /** Box `j` overlaps a box selected at an earlier position by more than the threshold. */
  predicate CoveredBefore(s: seq<Prediction>, sel: seq<nat>, j: nat, iou: Overlap)
    requires j < |s| && IndicesBelow(sel, |s|)
  {
    exists k :: 0 <= k < |sel| && sel[k] < j && Overlaps(iou, s[sel[k]], s[j])
  }

  /** The shape of `sel` after the scan has visited positions `0 .. i - 1`. */
  predicate Ordered(s: seq<Prediction>, i: nat, sel: seq<nat>)
  {
    i <= |s| && IndicesBelow(sel, i) && StrictlyIncreasing(sel) && |sel| < Limit
  }

  /** The scan extends `sel` with increasing positions from `i` on, up to `Limit` of them. */
  lemma {:induction false} ScanBasic(s: seq<Prediction>, i: nat, sel: seq<nat>, iou: Overlap)
    requires Ordered(s, i, sel)
    ensures var r := Scan(s, i, sel, iou);
      && |sel| <= |r| <= Limit
      && r[..|sel|] == sel
      && IndicesBelow(r, |s|)
      && StrictlyIncreasing(r)
      && (forall k :: |sel| <= k < |r| ==> i <= r[k])
    decreases |s| - i
  {
    if i < |s| {
      if Suppressed(s, sel, i, iou) {
        ScanBasic(s, i + 1, sel, iou);
      } else if |sel| + 1 < Limit {
        var sel' := sel + [i];
        assert Ordered(s, i + 1, sel');
        ScanBasic(s, i + 1, sel', iou);
        var r := Scan(s, i + 1, sel', iou);
        assert r[..|sel'|] == sel';
        assert r[..|sel|] == sel'[..|sel|];
      }
    }
  }

  /** Selecting an unsuppressed box keeps the selected boxes separate. */
  lemma StepSeparate(s: seq<Prediction>, i: nat, sel: seq<nat>, iou: Overlap)
    requires Ordered(s, i, sel) && i < |s| && PairwiseSeparate(s, sel, iou)
    requires !Suppressed(s, sel, i, iou)
    ensures PairwiseSeparate(s, sel + [i], iou)
  {
    var sel' := sel + [i];
    forall k1, k2 | 0 <= k1 < k2 < |sel'|
      ensures !Overlaps(iou, s[sel'[k1]], s[sel'[k2]])
    {
      if k2 == |sel| {
        assert sel'[k1] == sel[k1];
      } else {
        assert sel'[k1] == sel[k1] && sel'[k2] == sel[k2];
      }
    }
  }

  /** Selecting box `i` keeps every earlier unselected box covered. */
  lemma StepCovered(s: seq<Prediction>, i: nat, sel: seq<nat>, iou: Overlap)
    requires Ordered(s, i, sel) && i < |s| && Covered(s, sel, i, iou)
    ensures Covered(s, sel + [i], i + 1, iou)
  {
    var sel' := sel + [i];
    forall j | 0 <= j < i + 1 && j !in sel'
      ensures CoveredBefore(s, sel', j, iou)
    {
      assert j !in sel && j < i;
      assert CoveredBefore(s, sel, j, iou);
      var k :| 0 <= k < |sel| && sel[k] < j && Overlaps(iou, s[sel[k]], s[j]);
      assert sel'[k] == sel[k];
    }
  }

  /** Skipping a suppressed box `i` keeps it covered. */
  lemma SkipCovered(s: seq<Prediction>, i: nat, sel: seq<nat>, iou: Overlap)
    requires Ordered(s, i, sel) && i < |s| && Covered(s, sel, i, iou)
    requires Suppressed(s, sel, i, iou)
    ensures Covered(s, sel, i + 1, iou)
  {
    var k :| 0 <= k < |sel| && Overlaps(iou, s[sel[k]], s[i]);
    assert sel[k] < i;
    assert CoveredBefore(s, sel, i, iou);
  }

  /** The scan keeps the selected boxes pairwise separate. */
  lemma {:induction false} ScanSeparate(s: seq<Prediction>, i: nat, sel: seq<nat>, iou: Overlap)
    requires Ordered(s, i, sel) && PairwiseSeparate(s, sel, iou)
    ensures PairwiseSeparate(s, Scan(s, i, sel, iou), iou)
    decreases |s| - i
  {
    ScanBasic(s, i, sel, iou);
    if i < |s| {
      if Suppressed(s, sel, i, iou) {
        ScanSeparate(s, i + 1, sel, iou);
      } else {
        StepSeparate(s, i, sel, iou);
        if |sel| + 1 < Limit {
          assert Ordered(s, i + 1, sel + [i]);
          ScanSeparate(s, i + 1, sel + [i], iou);
        }
      }
    }
  }

  /**
   * Every box the scan skips overlaps an earlier selected box: all of them
   * when the scan ran to the end, those before the last selected box when it
   * stopped at `Limit`.
   */
  lemma {:induction false} ScanCovers(s: seq<Prediction>, i: nat, sel: seq<nat>, iou: Overlap)
    requires Ordered(s, i, sel) && Covered(s, sel, i, iou)
    ensures var r := Scan(s, i, sel, iou);
      && (|r| < Limit ==> Covered(s, r, |s|, iou))
      && (|r| == Limit ==> r[Limit - 1] <= |s| && Covered(s, r, r[Limit - 1], iou))
    decreases |s| - i
  {
    ScanBasic(s, i, sel, iou);
    var r := Scan(s, i, sel, iou);
    if i == |s| {
      assert r == sel;
    } else if Suppressed(s, sel, i, iou) {
      SkipCovered(s, i, sel, iou);
      ScanCovers(s, i + 1, sel, iou);
      assert r == Scan(s, i + 1, sel, iou);
    } else if |sel| + 1 < Limit {
      StepCovered(s, i, sel, iou);
      assert Ordered(s, i + 1, sel + [i]);
      ScanCovers(s, i + 1, sel + [i], iou);
      assert r == Scan(s, i + 1, sel + [i], iou);
    } else {
      assert r == sel + [i];
      assert r[Limit - 1] == i;
      StepCovered(s, i, sel, iou);
    }
  }

  /** Suppression keeps at most `Limit` boxes, and nothing of an empty list. */
  lemma SuppressBounded(s: seq<Prediction>)
    ensures |Suppress(s)| <= Limit
    ensures s == [] ==> Suppress(s) == []
  {
    ScanBasic(s, 0, [], Iou);
  }

  /**
   * The kept boxes are a subsequence of the scanned list; the first box of a
   * non-empty list is always kept, so on score-sorted input the first kept
   * box has the lowest score of all.
   */
  lemma SuppressSubsequence(s: seq<Prediction>)
    ensures StrictlyIncreasing(SelectedIndices(s, Iou))
    ensures Suppress(s) == Pick(s, SelectedIndices(s, Iou))
    ensures s != [] ==> |Suppress(s)| > 0 && Suppress(s)[0] == s[0]
    ensures s != [] && SortedByScore(s) ==>
      forall j :: 0 <= j < |s| ==> Suppress(s)[0].score <= s[j].score
  {
    ScanBasic(s, 0, [], Iou);
    if |s| > 0 {
      SelectedFirst(s);
      var idx := SelectedIndices(s, Iou);
      assert Suppress(s)[0] == s[idx[0]];
    }
  }

  /** The scan always selects the first box of a non-empty list. */
  lemma SelectedFirst(s: seq<Prediction>)
    requires s != []
    ensures |SelectedIndices(s, Iou)| > 0 && SelectedIndices(s, Iou)[0] == 0
  {
    assert !Suppressed(s, [], 0, Iou);
    assert Ordered(s, 1, [0]);
    ScanBasic(s, 1, [0], Iou);
    assert [] + [0] == [0];
    var r := Scan(s, 1, [0], Iou);
    assert SelectedIndices(s, Iou) == r;
    assert r[..1] == [0];
    assert r[0] == r[..1][0];
  }

  /**
   * No two kept boxes overlap by more than the threshold; when fewer than
   * `Limit` were kept, every dropped box overlaps an earlier kept one by more
   * than the threshold.
   */
  lemma SuppressSeparatesAndCovers(s: seq<Prediction>)
    ensures var idx := SelectedIndices(s, Iou);
      && PairwiseSeparate(s, idx, Iou)
      && (|idx| < Limit ==> Covered(s, idx, |s|, Iou))
  {
    assert Ordered(s, 0, []);
    ScanSeparate(s, 0, [], Iou);
    ScanCovers(s, 0, [], Iou);
  }

  // ---------------------------------------------------------------------
  // The imperative scan

  function CountTrue(s: seq<bool>): nat
  {
    if |s| == 0 then 0 else (if s[0] then 1 else 0) + CountTrue(s[1..])
  }

  lemma {:induction false} CountTrueClear(s: seq<bool>, j: nat)
    requires j < |s| && s[j]
    ensures CountTrue(s[j := false]) == CountTrue(s) - 1
  {
    if j > 0 {
      assert s[j := false][1..] == s[1..][j - 1 := false];
      CountTrueClear(s[1..], j - 1);
    } else {
      assert s[j := false][1..] == s[1..];
    }
  }

  lemma {:induction false} CountTruePositive(s: seq<bool>, i: nat)
    requires i < |s| && s[i]
    ensures CountTrue(s) >= 1
  {
    if i > 0 { CountTruePositive(s[1..], i - 1); }
  }

  lemma {:induction false} CountAllTrue(s: seq<bool>)
    requires forall k :: 0 <= k < |s| ==> s[k]
    ensures CountTrue(s) == |s|
  {
    if |s| > 0 { CountAllTrue(s[1..]); }
  }

  lemma {:induction false} PickSnoc(s: seq<Prediction>, sel: seq<nat>, i: nat)
    requires IndicesBelow(sel, |s|) && i < |s|
    ensures Pick(s, sel + [i]) == Pick(s, sel) + [s[i]]
  {
  }

  lemma SuppressedSnoc(s: seq<Prediction>, sel: seq<nat>, i: nat, m: nat, iou: Overlap)
    requires i < |s| && m < |s| && IndicesBelow(sel, |s|)
    ensures Suppressed(s, sel + [i], m, iou) <==>
      Suppressed(s, sel, m, iou) || Overlaps(iou, s[i], s[m])
  {
    var sel' := sel + [i];
    if Suppressed(s, sel', m, iou) {
      var k :| 0 <= k < |sel'| && Overlaps(iou, s[sel'[k]], s[m]);
      if k < |sel| { assert sel'[k] == sel[k]; }
    }
    if Suppressed(s, sel, m, iou) {
      var k :| 0 <= k < |sel| && Overlaps(iou, s[sel[k]], s[m]);
      assert sel'[k] == sel[k];
    }
    if Overlaps(iou, s[i], s[m]) {
      assert sel'[|sel|] == i;
    }
  }

  /**
   * The inner `for (j in i + 1 until boxes.size)` loop: clears `active[j]` for
   * every later active box that overlaps `boxes[i]` by more than the threshold,
   * keeping `numActive` equal to the number of set flags. The `done` exit is
   * never taken, because `active[i]` itself stays set.
   */
  method DeactivateOverlapping(boxes: array<Prediction>, active: array<bool>, i: nat, numActive0: int)
    returns (numActive: int, done: bool)
    requires active.Length == boxes.Length && i < boxes.Length && active[i]
    requires numActive0 == CountTrue(active[..])
    modifies active
    ensures !done
    ensures numActive == CountTrue(active[..]) >= 1
    ensures forall m :: 0 <= m < active.Length ==>
      active[m] == (old(active[m]) && !(i < m && Overlaps(Iou, boxes[i], boxes[m])))
  {
    numActive, done := numActive0, false;
    var boxA := boxes[i];
    var j := i + 1;
    while j < boxes.Length
      invariant i + 1 <= j <= boxes.Length
      invariant active[i]
      invariant numActive == CountTrue(active[..])
      invariant forall m :: 0 <= m < j ==>
        active[m] == (old(active[m]) && !(i < m && Overlaps(Iou, boxA, boxes[m])))
      invariant forall m :: j <= m < active.Length ==> active[m] == old(active[m])
    {
      if active[j] {
        var boxB := boxes[j];
        if Iou(boxA.box, boxB.box) > Threshold {
          CountTrueClear(active[..], j);
          active[j] := false;
          numActive := numActive - 1;
          CountTruePositive(active[..], i);
          if numActive <= 0 {
            assert false;
            done := true;
            break;
          }
        }
      }
      j := j + 1;
    }
    CountTruePositive(active[..], i);
  }

  /** From position `lo` on, a flag is set exactly when its box is not suppressed by `sel`. */
  predicate Tracks(act: seq<bool>, s: seq<Prediction>, sel: seq<nat>, lo: nat, iou: Overlap)
    requires |act| == |s| && IndicesBelow(sel, |s|)
  {
    forall m :: lo <= m < |s| ==> act[m] == !Suppressed(s, sel, m, iou)
  }

  /** One step of the scan at position `i`. */
  lemma ScanUnfold(s: seq<Prediction>, i: nat, sel: seq<nat>, iou: Overlap)
    requires Ordered(s, i, sel) && i < |s|
    ensures Suppressed(s, sel, i, iou) ==> Scan(s, i, sel, iou) == Scan(s, i + 1, sel, iou)
    ensures !Suppressed(s, sel, i, iou) && |sel| + 1 >= Limit ==> Scan(s, i, sel, iou) == sel + [i]
    ensures !Suppressed(s, sel, i, iou) && |sel| + 1 < Limit ==>
      Ordered(s, i + 1, sel + [i]) && Scan(s, i, sel, iou) == Scan(s, i + 1, sel + [i], iou)
  {
  }

  /** Selecting box `i` and clearing the flags of the boxes it overlaps keeps the flags in step. */
  lemma TracksSelect(before: seq<bool>, after: seq<bool>, s: seq<Prediction>, sel: seq<nat>, i: nat, iou: Overlap)
    requires |before| == |after| == |s| && i < |s| && IndicesBelow(sel, |s|)
    requires Tracks(before, s, sel, i, iou)
    requires forall m :: 0 <= m < |s| ==>
      after[m] == (before[m] && !(i < m && Overlaps(iou, s[i], s[m])))
    ensures Tracks(after, s, sel + [i], i + 1, iou)
  {
    forall m | i + 1 <= m < |s|
      ensures after[m] == !Suppressed(s, sel + [i], m, iou)
    {
      SuppressedSnoc(s, sel, i, m, iou);
    }
  }

  /** Selecting the active box `i` and clearing the flags it overlaps keeps the scan in step. */
  lemma SelectStep(s: seq<Prediction>, i: nat, sel: seq<nat>, before: seq<bool>, after: seq<bool>)
    requires Ordered(s, i, sel) && i < |s| && |sel| + 1 < Limit && !Suppressed(s, sel, i, Iou)
    requires |before| == |after| == |s| && Tracks(before, s, sel, i, Iou)
    requires Scan(s, i, sel, Iou) == SelectedIndices(s, Iou)
    requires forall m :: 0 <= m < |s| ==>
      after[m] == (before[m] && !(i < m && Overlaps(Iou, s[i], s[m])))
    ensures Ordered(s, i + 1, sel + [i])
    ensures Scan(s, i + 1, sel + [i], Iou) == SelectedIndices(s, Iou)
    ensures Tracks(after, s, sel + [i], i + 1, Iou)
  {
    ScanUnfold(s, i, sel, Iou);
    TracksSelect(before, after, s, sel, i, Iou);
  }

  /**
   * `nonMaxSuppression(boxes)`: sorts `boxes` in place, then returns the
   * greedy selection over the sorted list.
   */
  method NonMaxSuppression(boxes: array<Prediction>) returns (selected: seq<Prediction>)
    modifies boxes
    ensures boxes[..] == SortByScore(old(boxes[..]))
    ensures selected == Suppress(boxes[..])
  {
    SortInPlace(boxes);
    selected := SelectActive(boxes);
  }

  /**
   * The selection loop of `nonMaxSuppression` over the sorted boxes: every
   * still-active box is selected and deactivates the later boxes it overlaps.
   */
  method SelectActive(boxes: array<Prediction>) returns (selected: seq<Prediction>)
    ensures selected == Suppress(boxes[..])
  {
    ghost var s := boxes[..];
    selected := [];
    ghost var sel: seq<nat> := [];
    var active := new bool[boxes.Length](_ => true);
    var numActive := active.Length;
    var done := false;
    var i := 0;
    CountAllTrue(active[..]);
    while i < boxes.Length && !done
      invariant 0 <= i <= boxes.Length && boxes[..] == s && active.Length == boxes.Length
      invariant !done
      invariant Ordered(s, i, sel)
      invariant selected == Pick(s, sel)
      invariant Scan(s, i, sel, Iou) == SelectedIndices(s, Iou)
      invariant Tracks(active[..], s, sel, i, Iou)
      invariant numActive == CountTrue(active[..])
    {
      if active[i] {
        var boxA := boxes[i];
        ghost var sel0 := sel;
        ScanUnfold(s, i, sel0, Iou);
        PickSnoc(s, sel0, i);
        selected := selected + [boxA];
        sel := sel + [i];
        if |selected| >= Limit {
          break;
        }
        ghost var before := active[..];
        numActive, done := DeactivateOverlapping(boxes, active, i, numActive);
        SelectStep(s, i, sel0, before, active[..]);
      } else {
        ScanUnfold(s, i, sel, Iou);
      }
      i := i + 1;
    }
  }
}
