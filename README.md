# Pro_Pose: pose and composition pipeline, modelled in Dafny

This project models the classical (non-neural) logic of the Pro_Pose camera
assistant and proves properties of it. The logic lives in
`PoseDataSourceImpl.kt` and `AutoFitSurfaceView.kt`:

- **Detection decoding and non-max suppression** (`Decode`, `Nms`, `Boxes`).
  The YOLO output buffer of 25200 rows of 85 floats is decoded into rectangles;
  a buffer too short for the reads of the row loop throws.
  A row is kept when its objectness is above 0.3, and its class is the first
  maximal class score. The candidates are then sorted ascending by score with
  a stable sort, and reduced greedily with the `IOU` measure to at most 15.
  `nonMaxSuppression` is an in-place insertion sort on an `array` followed by
  the `active` flag loop.
- **Layout raster** (`Layout`). A 480 x 480 bitmap starts filled with
  `palette[0]`. Each detection paints its rectangle, scaled by 0.75, with the
  palette colour of its class. Each pixel keeps its list of colours and shows
  their truncating `Int` mean. The bitmap and the per-pixel lists are
  `array2`s that the methods update.
- **Histograms of oriented gradients** (`Hog`, `HogMap`):
  - `getHistogram` is the 9-bin vote of a 16 x 16 cell, then binarised.
  - The fusion, averaging and binarisation loops of `getHistogramMap` run
    over 128 x 128 planes.
  - The cell loop builds the 8 x 8 histogram map, and `getHOG` concatenates
    it into a 576-value vector.
- **Distances and the recommendation** (`Distance`): `reshapeList`,
  `addZDimension`, `calculateDistance`, `distanceHog`, `getDistance` and the
  nearest-centroid loop of `recommendPose`. The model follows the code
  literally. The shape `[64, 9]` cuts two rows of 64 and 9 values. The z-flag
  of every row is read from the first row of the flag matrix. The loop visits
  only the centroids `0 until size - 2`.
- **Catalog parsers** (`Catalog`, on the string operations of `KotlinText`):
  - the colour palette (`replace`, `split`, `removeSurrounding`, `toInt`);
  - the centroid rows of `centroids.csv`;
  - the pose-rank rows of `pose_ranks.csv`, turned into `PoseData` groups.
- **`AutoFitSurfaceView`** (`AutoFit`): a class with the `aspectRatio`
  field. `setAspectRatio` checks its arguments and sets the ratio; `onMeasure`
  applies the center-crop rule. The module also holds the `gcd` helper.

Modelling conventions:

- `Float` and `Double` are modelled as `real`.
- `Int` is modelled as `int`, with an explicit 32-bit wrap-around (`KotlinNum.Wrap32`)
  where a sum or product can leave the range.
- `toInt()` on a floating value truncates toward zero and saturates
  (`KotlinNum.ToInt`).
- `roundToInt()` rounds half up (`KotlinNum.RoundToInt`).
- Kotlin's `/` and `%` on `Int` truncate (`KotlinNum.TruncDiv`,
  `KotlinNum.TruncRem`).
- A thrown exception becomes `Failure(name)` of the `Result` type in
  `Wrappers`.
- A division by zero of a `Double` becomes `NonFinite` (`Distance.Measure`).
- The following are function parameters, left uninterpreted:
  - `kotlin.math.sqrt`;
  - `String.toInt()` and `String.toDouble()` (`None` is a
    `NumberFormatException`);
  - the drawable resource lookup.

Places where the literal code behaves differently from what its comments,
names or a first reading suggest. In each case the model follows the code,
and a lemma states the code's behaviour:

- The sort is ascending (line 644), although the comment above it says from
  high to low. The first selected box is therefore the lowest-scoring one
  (`Nms.SuppressSubsequence`).
- After `getHistogram` binarises, every bin equal to a non-zero maximum is 1,
  not only the first one (`Hog.BinarizeMarksMaxima`).
- Magnitudes binarise to 1 when they are at least the mean:
  `ave * 10 / 10 > m` gives 0. A flat image therefore gives all ones, and
  each cell histogram is `[1, 0, ..., 0]` (`HogMap.FlatImageHog`).
- `reshapeList(hog, [64, 9])` gives two rows, not 64 (`Distance.ReshapeHog`).
  `distanceHog` therefore compares only the first 73 values of each vector
  (`Distance.DistanceHogShape`).
- `addZDimension` takes entry `k` of the flattened flag matrix. That entry
  lies in the flag row of row 0, so every row's z-value depends only on row 0
  (`Distance.AddZReadsFirstRow`).
- With two centroids or fewer, `recommendPose` indexes `poseRanks[-1]` and
  throws (`Distance.FewCentroidsFail`).
- The `done` branch of `nonMaxSuppression` cannot be taken. Box `i` stays
  active, so `numActive` never reaches 0 (`Nms.DeactivateOverlapping`
  ensures `!done`).
- `IOU(a, a)` is 1 for a proper box. For a box with both edge pairs inverted
  the area is positive but the intersection is 0, so `IOU(a, a)` is 0
  (`Boxes.IouSelfInverted`).
- A centroid row of exactly two fields uses field 1 as both the first and the
  last value (`Catalog.CentroidRowOfTwo`).

## Model

| member | source | states |
|---|---|---|
| KotlinNum.Wrap32 | data/src/main/java/com/hanadulset/pro_poseapp/data/datasource/feature/PoseDataSourceImpl.kt:265 | the result is a 32-bit `Int`, equal to the input when that fits, and congruent to it modulo 2^32 |
| KotlinNum.WrapAdd | data/src/main/java/com/hanadulset/pro_poseapp/data/datasource/feature/PoseDataSourceImpl.kt:263-265 | adding an `Int` to a non-negative index either stays exact or wraps to a value below the index |
| KotlinNum.Trunc | data/src/main/java/com/hanadulset/pro_poseapp/data/datasource/feature/PoseDataSourceImpl.kt:597-600 | truncation toward zero: the result is within one of the input on the side of zero |
| KotlinNum.ToInt | data/src/main/java/com/hanadulset/pro_poseapp/data/datasource/feature/PoseDataSourceImpl.kt:597-600 | `toInt()` is the truncation when it fits in `Int`, and saturates at `Int.MAX_VALUE` / `Int.MIN_VALUE` otherwise |
| KotlinNum.RoundToInt | utils/src/main/java/com/example/proposeapplication/utils/camera/AutoFitSurfaceView.kt:73 | the result is within one half of the input, with halves rounded up |
| KotlinNum.TruncDiv | data/src/main/java/com/hanadulset/pro_poseapp/data/datasource/feature/PoseDataSourceImpl.kt:571 | the quotient's magnitude is the quotient of the magnitudes, with the sign of the exact quotient |
| KotlinNum.TruncRem | utils/src/main/java/com/example/proposeapplication/utils/camera/AutoFitSurfaceView.kt:48 | `a == b * (a / b) + a % b`, the remainder smaller than `b` in magnitude and signed like `a` |
| KotlinNum.SumIntBounds | data/src/main/java/com/hanadulset/pro_poseapp/data/datasource/feature/PoseDataSourceImpl.kt:571 | a sum of `n` values in `[lo, hi]` lies in `[n * lo, n * hi]` |
| KotlinText.Replace | data/src/main/java/com/hanadulset/pro_poseapp/data/datasource/feature/PoseDataSourceImpl.kt:48-52 | a string shorter than the pattern is returned unchanged |
| KotlinText.ReplaceMatch | data/src/main/java/com/hanadulset/pro_poseapp/data/datasource/feature/PoseDataSourceImpl.kt:48-52 | an occurrence at the start is replaced, and scanning resumes after it |
| KotlinText.ReplaceSkipFree | data/src/main/java/com/hanadulset/pro_poseapp/data/datasource/feature/PoseDataSourceImpl.kt:48-52 | a prefix without the pattern's first character passes through `replace` unchanged |
| KotlinText.ReplaceCharConcat | data/src/main/java/com/hanadulset/pro_poseapp/data/datasource/feature/PoseDataSourceImpl.kt:48 | replacing a one-character pattern distributes over concatenation |
| KotlinText.Split | data/src/main/java/com/hanadulset/pro_poseapp/data/datasource/feature/PoseDataSourceImpl.kt:53 | the parts are never empty as a list, contain no delimiter, and a delimiter-free string is its own single part |
| KotlinText.JoinSplit | data/src/main/java/com/hanadulset/pro_poseapp/data/datasource/feature/PoseDataSourceImpl.kt:53 | joining the parts of `split` with the delimiter gives the string back |
| KotlinText.SplitJoin | data/src/main/java/com/hanadulset/pro_poseapp/data/datasource/feature/PoseDataSourceImpl.kt:94 | splitting delimiter-free parts joined by the delimiter gives the parts back, in order |
| KotlinText.RemoveSurrounding | data/src/main/java/com/hanadulset/pro_poseapp/data/datasource/feature/PoseDataSourceImpl.kt:57 | with both affixes present and apart, affix + result + affix is the input; otherwise the input is returned |
| KotlinText.Concat | data/src/main/java/com/hanadulset/pro_poseapp/data/datasource/feature/PoseDataSourceImpl.kt:46-47 | an element occurs in the joined sequence exactly when it occurs in some part, and the result starts with the first part |
| Boxes.ClampedExtent | data/src/main/java/com/hanadulset/pro_poseapp/data/datasource/feature/PoseDataSourceImpl.kt:633-635 | `coerceAtLeast(0f)`: an extent is never negative |
| Boxes.Intersection | data/src/main/java/com/hanadulset/pro_poseapp/data/datasource/feature/PoseDataSourceImpl.kt:628-635 | the intersection area is never negative |
| Boxes.Iou | data/src/main/java/com/hanadulset/pro_poseapp/data/datasource/feature/PoseDataSourceImpl.kt:623-637 | `IOU` is 0 when either box's area is at most 0 |
| Boxes.IntersectionBound | data/src/main/java/com/hanadulset/pro_poseapp/data/datasource/feature/PoseDataSourceImpl.kt:628-636 | for boxes of positive area the intersection is no larger than either area, so the union is positive |
| Boxes.IntersectionSymmetric | data/src/main/java/com/hanadulset/pro_poseapp/data/datasource/feature/PoseDataSourceImpl.kt:628-635 | the intersection does not depend on the order of the boxes |
| Boxes.IouBounds | data/src/main/java/com/hanadulset/pro_poseapp/data/datasource/feature/PoseDataSourceImpl.kt:623-637 | `0 <= IOU(a, b) <= 1` for all boxes |
| Boxes.IouSymmetric | data/src/main/java/com/hanadulset/pro_poseapp/data/datasource/feature/PoseDataSourceImpl.kt:623-637 | `IOU(a, b) == IOU(b, a)` |
| Boxes.IouSelf | data/src/main/java/com/hanadulset/pro_poseapp/data/datasource/feature/PoseDataSourceImpl.kt:623-637 | `IOU(a, a) == 1` for a box with ordered edges |
| Boxes.IouSelfInverted | data/src/main/java/com/hanadulset/pro_poseapp/data/datasource/feature/PoseDataSourceImpl.kt:623-637 | a box with both edge pairs inverted has a positive area and `IOU(a, a) == 0` |
| Boxes.IouDisjoint | data/src/main/java/com/hanadulset/pro_poseapp/data/datasource/feature/PoseDataSourceImpl.kt:623-637 | boxes separated along either axis have `IOU` 0 |
| Nms.InsertFacts | data/src/main/java/com/hanadulset/pro_poseapp/data/datasource/feature/PoseDataSourceImpl.kt:644 | inserting into a sorted list keeps it sorted ascending, adds exactly the one element, and grows it by one |
| Nms.InsertWithScore | data/src/main/java/com/hanadulset/pro_poseapp/data/datasource/feature/PoseDataSourceImpl.kt:644 | insertion after equal scores keeps the order of the elements of each score |
| Nms.SortByScoreSortedPermutation | data/src/main/java/com/hanadulset/pro_poseapp/data/datasource/feature/PoseDataSourceImpl.kt:644 | `sortWith` by `score.compareTo` yields a permutation of the boxes, sorted ascending by score |
| Nms.SortByScoreStable | data/src/main/java/com/hanadulset/pro_poseapp/data/datasource/feature/PoseDataSourceImpl.kt:644 | the sort is stable: the boxes of each score keep their original order |
| Nms.InsertAt | data/src/main/java/com/hanadulset/pro_poseapp/data/datasource/feature/PoseDataSourceImpl.kt:644 | one insertion step in place: the prefix becomes the old prefix with element `i` inserted, the rest unchanged |
| Nms.SortInPlace | data/src/main/java/com/hanadulset/pro_poseapp/data/datasource/feature/PoseDataSourceImpl.kt:644 | the array afterwards holds the stable ascending sort of its old contents |
| Nms.Scan | data/src/main/java/com/hanadulset/pro_poseapp/data/datasource/feature/PoseDataSourceImpl.kt:655-677 | every index the greedy scan selects is an index of the box list |
| Nms.ScanBasic | data/src/main/java/com/hanadulset/pro_poseapp/data/datasource/feature/PoseDataSourceImpl.kt:657-677 | the scan extends what was already selected, with strictly increasing indices from the current position on, and never exceeds 15 |
| Nms.ScanSeparate | data/src/main/java/com/hanadulset/pro_poseapp/data/datasource/feature/PoseDataSourceImpl.kt:657-677 | the scan keeps "no two selected boxes overlap by more than 0.3" |
| Nms.ScanCovers | data/src/main/java/com/hanadulset/pro_poseapp/data/datasource/feature/PoseDataSourceImpl.kt:657-677 | every box the scan passes over without selecting overlaps an earlier selected box by more than 0.3, up to the end of the list, or up to the last selected box when the limit stopped the scan |
| Nms.SuppressBounded | data/src/main/java/com/hanadulset/pro_poseapp/data/datasource/feature/PoseDataSourceImpl.kt:641-686 | at most 15 boxes are selected, and none from an empty list |
| Nms.SuppressSubsequence | data/src/main/java/com/hanadulset/pro_poseapp/data/datasource/feature/PoseDataSourceImpl.kt:641-679 | the result picks the boxes at strictly increasing indices; for a non-empty list the first box is always selected, so on the ascending sort it has the lowest score |
| Nms.SelectedFirst | data/src/main/java/com/hanadulset/pro_poseapp/data/datasource/feature/PoseDataSourceImpl.kt:657-661 | on a non-empty list index 0 is selected first |
| Nms.SuppressSeparatesAndCovers | data/src/main/java/com/hanadulset/pro_poseapp/data/datasource/feature/PoseDataSourceImpl.kt:657-677 | no two selected boxes have `IOU > 0.3`; with fewer than 15 selected, every unselected box has `IOU > 0.3` with an earlier selected box |
| Nms.DeactivateOverlapping | data/src/main/java/com/hanadulset/pro_poseapp/data/datasource/feature/PoseDataSourceImpl.kt:662-674 | the inner loop clears exactly the flags of later boxes overlapping box `i` by more than 0.3, keeps `numActive` equal to the number of set flags, and never sets `done` |
| Nms.SelectActive | data/src/main/java/com/hanadulset/pro_poseapp/data/datasource/feature/PoseDataSourceImpl.kt:645-678 | the `active`-flag loop returns exactly the greedy selection `Suppress` of the sorted boxes |
| Nms.NonMaxSuppression | data/src/main/java/com/hanadulset/pro_poseapp/data/datasource/feature/PoseDataSourceImpl.kt:641-679 | `boxes` is left stably sorted ascending by score, and the result is the greedy selection on that order |
| Decode.ReadableRow | data/src/main/java/com/hanadulset/pro_poseapp/data/datasource/feature/PoseDataSourceImpl.kt:585-609 | on a readable buffer every row's objectness, and every passing row's 85 values, lie inside the buffer |
| Decode.UnreadableBeyond | data/src/main/java/com/hanadulset/pro_poseapp/data/datasource/feature/PoseDataSourceImpl.kt:585-609 | once a row reads past the end, the loop over more rows does too |
| Decode.FullBufferReadable | data/src/main/java/com/hanadulset/pro_poseapp/data/datasource/feature/PoseDataSourceImpl.kt:585-609 | the full 25200 x 85 buffer is readable |
| Decode.FirstMaxIndex | data/src/main/java/com/hanadulset/pro_poseapp/data/datasource/feature/PoseDataSourceImpl.kt:602-609 | the index holds a maximal score, and every earlier score is strictly smaller |
| Decode.ArgMaxClass | data/src/main/java/com/hanadulset/pro_poseapp/data/datasource/feature/PoseDataSourceImpl.kt:602-609 | the strict-`>` loop over the 80 class scores returns the first index of their maximum |
| Decode.RowPrediction | data/src/main/java/com/hanadulset/pro_poseapp/data/datasource/feature/PoseDataSourceImpl.kt:587-617 | a decoded row's score is its objectness and its class is one of the 80 classes |
| Decode.RowPredictionOf | data/src/main/java/com/hanadulset/pro_poseapp/data/datasource/feature/PoseDataSourceImpl.kt:587-617 | unfolding step of `RowPrediction`: a decoded row is the first maximal class, the objectness, and the box `(trunc(sw(x - w/2)), trunc(sh(y - h/2)), trunc(sw(x + w/2)), trunc(sh(y + h/2)))` |
| Decode.RowClassIsFirstMax | data/src/main/java/com/hanadulset/pro_poseapp/data/datasource/feature/PoseDataSourceImpl.kt:602-609 | the decoded class score is maximal among the row's class scores, and strictly above every earlier one |
| Decode.CandidatesNext | data/src/main/java/com/hanadulset/pro_poseapp/data/datasource/feature/PoseDataSourceImpl.kt:585-619 | unfolding step of `Candidates`: each row appends its decoded prediction exactly when its objectness exceeds 0.3 |
| Decode.CandidatesSound | data/src/main/java/com/hanadulset/pro_poseapp/data/datasource/feature/PoseDataSourceImpl.kt:585-619 | there are no more candidates than rows, and every candidate is the decoded prediction of a row with objectness above 0.3 |
| Decode.CandidatesComplete | data/src/main/java/com/hanadulset/pro_poseapp/data/datasource/feature/PoseDataSourceImpl.kt:585-619 | every row with objectness above 0.3 contributes its decoded prediction |
| Decode.DecodeRow | data/src/main/java/com/hanadulset/pro_poseapp/data/datasource/feature/PoseDataSourceImpl.kt:587-617 | the box, score and class read for row `i` of the buffer are that row's decoded prediction |
| Decode.CollectCandidates | data/src/main/java/com/hanadulset/pro_poseapp/data/datasource/feature/PoseDataSourceImpl.kt:584-619 | the loop over the 25200 rows collects exactly the candidates, in row order, on a readable buffer, and throws `ArrayIndexOutOfBoundsException` on any other |
| Decode.OutputsToNmsPredictions | data/src/main/java/com/hanadulset/pro_poseapp/data/datasource/feature/PoseDataSourceImpl.kt:580-621 | the result is the greedy selection on the ascending sort of the candidates, or `ArrayIndexOutOfBoundsException` when the buffer is too short for the row loop's reads |
| Decode.DecodedAreCandidates | data/src/main/java/com/hanadulset/pro_poseapp/data/datasource/feature/PoseDataSourceImpl.kt:580-621 | at most 15 predictions come out, each a candidate with score above 0.3 and a valid class |
| Layout.ColorRgb | data/src/main/java/com/hanadulset/pro_poseapp/data/datasource/feature/PoseDataSourceImpl.kt:546-550 | `Color.rgb` of any `Int` channels, `0xff000000 or (r shl 16) or (g shl 8) or b`, is an opaque colour, a negative `Int` with alpha 0xFF |
| Layout.WordBytes | data/src/main/java/com/hanadulset/pro_poseapp/data/datasource/feature/PoseDataSourceImpl.kt:546-550 | channels that fit one byte land in the red, green and blue bytes, under alpha 0xFF |
| Layout.Packed | data/src/main/java/com/hanadulset/pro_poseapp/data/datasource/feature/PoseDataSourceImpl.kt:567-569 | a palette row packs to an opaque colour |
| Layout.CoverColors | data/src/main/java/com/hanadulset/pro_poseapp/data/datasource/feature/PoseDataSourceImpl.kt:556-575 | a pixel collects at most one colour per detection, each opaque |
| Layout.NextCoverColors | data/src/main/java/com/hanadulset/pro_poseapp/data/datasource/feature/PoseDataSourceImpl.kt:556-575 | painting one more detection appends its class colour to exactly the pixels its scaled rectangle covers |
| Layout.UncoveredKeepsBackground | data/src/main/java/com/hanadulset/pro_poseapp/data/datasource/feature/PoseDataSourceImpl.kt:545-575 | a pixel outside every scaled rectangle keeps packed `palette[0]` |
| Layout.EmptyLayoutUniform | data/src/main/java/com/hanadulset/pro_poseapp/data/datasource/feature/PoseDataSourceImpl.kt:545-551 | with no detections every pixel is packed `palette[0]` |
| Layout.OpaqueSumFits | data/src/main/java/com/hanadulset/pro_poseapp/data/datasource/feature/PoseDataSourceImpl.kt:571 | up to 128 opaque colours sum without `Int` overflow |
| Layout.MeanWithin | data/src/main/java/com/hanadulset/pro_poseapp/data/datasource/feature/PoseDataSourceImpl.kt:571 | the truncating mean of values within non-positive bounds stays within them |
| Layout.LayoutPixelOpaque | data/src/main/java/com/hanadulset/pro_poseapp/data/datasource/feature/PoseDataSourceImpl.kt:571-573 | every layout pixel is an opaque colour |
| Layout.SingleCoverShowsClassColor | data/src/main/java/com/hanadulset/pro_poseapp/data/datasource/feature/PoseDataSourceImpl.kt:556-573 | a pixel covered by exactly one detection holds that detection's class colour alone and shows it |
| Layout.RepeatedColorIsStable | data/src/main/java/com/hanadulset/pro_poseapp/data/datasource/feature/PoseDataSourceImpl.kt:567-573 | a colour list of 1 to 128 copies of one opaque colour averages to that colour |
| Layout.CoverColorsUniform | data/src/main/java/com/hanadulset/pro_poseapp/data/datasource/feature/PoseDataSourceImpl.kt:556-575 | when every detection covering a pixel paints one colour, the pixel's list holds only that colour, and it is non-empty when some detection covers the pixel |
| Layout.UniformCoverShowsColor | data/src/main/java/com/hanadulset/pro_poseapp/data/datasource/feature/PoseDataSourceImpl.kt:556-573 | with at most 128 detections, a covered pixel on which every covering detection paints the same colour shows that colour |
| Layout.PaintRect | data/src/main/java/com/hanadulset/pro_poseapp/data/datasource/feature/PoseDataSourceImpl.kt:564-575 | painting a rectangle appends its colour to the lists of exactly the covered pixels, and each pixel shows the mean of its list |
| Layout.PaintDetections | data/src/main/java/com/hanadulset/pro_poseapp/data/datasource/feature/PoseDataSourceImpl.kt:556-576 | the paint loop succeeds exactly when no detection paints outside the canvas or without a palette row, and then leaves every pixel at its layout colour |
| Layout.MakeLayoutImage | data/src/main/java/com/hanadulset/pro_poseapp/data/datasource/feature/PoseDataSourceImpl.kt:539-578 | a fresh 480 x 480 bitmap; it is produced exactly when painting throws nothing, and then shows the background, or the mean colour of the detections covering each pixel in paint order |
| Hog.BinIndex | data/src/main/java/com/hanadulset/pro_poseapp/data/datasource/feature/PoseDataSourceImpl.kt:353 | `(o / 20).toInt()` is the bin of width 20 holding `o`, one of the 9 bins |
| Hog.Fraction | data/src/main/java/com/hanadulset/pro_poseapp/data/datasource/feature/PoseDataSourceImpl.kt:354-358 | the position of `o` inside its bin lies in `[0, 1)` |
| Hog.BumpMass | data/src/main/java/com/hanadulset/pro_poseapp/data/datasource/feature/PoseDataSourceImpl.kt:355 | adding `v` to one bin adds `v` to the histogram's total |
| Hog.VoteMass | data/src/main/java/com/hanadulset/pro_poseapp/data/datasource/feature/PoseDataSourceImpl.kt:355-358 | the two votes of a pixel add their sum to the total, also when the next bin wraps to 0 |
| Hog.SplitVoteMass | data/src/main/java/com/hanadulset/pro_poseapp/data/datasource/feature/PoseDataSourceImpl.kt:353-358 | the shares `m(1 - f)` and `m f` add exactly `m` to the total |
| Hog.AddPixelMass | data/src/main/java/com/hanadulset/pro_poseapp/data/datasource/feature/PoseDataSourceImpl.kt:353-358 | each pixel adds exactly its magnitude to the histogram's total |
| Hog.AddPixelMonotone | data/src/main/java/com/hanadulset/pro_poseapp/data/datasource/feature/PoseDataSourceImpl.kt:353-358 | a non-negative magnitude lowers no bin |
| Hog.AddUnitPixel | data/src/main/java/com/hanadulset/pro_poseapp/data/datasource/feature/PoseDataSourceImpl.kt:353-358 | a pixel of magnitude 1 at orientation 0 adds 1 to bin 0 only |
| Hog.CellColumnMass | data/src/main/java/com/hanadulset/pro_poseapp/data/datasource/feature/PoseDataSourceImpl.kt:347-359 | one column of votes adds that column's magnitudes to the total |
| Hog.CellRowsMass | data/src/main/java/com/hanadulset/pro_poseapp/data/datasource/feature/PoseDataSourceImpl.kt:346-360 | the votes of the first `x` columns total those columns' magnitudes |
| Hog.RawHistogramMass | data/src/main/java/com/hanadulset/pro_poseapp/data/datasource/feature/PoseDataSourceImpl.kt:346-360 | the unbinarised histogram of a cell totals the cell's magnitudes |
| Hog.MaxOf | data/src/main/java/com/hanadulset/pro_poseapp/data/datasource/feature/PoseDataSourceImpl.kt:362 | `max()` is at least every bin and is attained by one |
| Hog.BinarizeMarksMaxima | data/src/main/java/com/hanadulset/pro_poseapp/data/datasource/feature/PoseDataSourceImpl.kt:362-367 | every bin becomes 0 or 1; the bins set to 1 are exactly the bins equal to a non-zero maximum; a zero maximum gives all zeros |
| Hog.UniformCellHistogram | data/src/main/java/com/hanadulset/pro_poseapp/data/datasource/feature/PoseDataSourceImpl.kt:338-370 | a cell of unit magnitudes at orientation 0 has the histogram `[1, 0, ..., 0]` |
| Hog.AddVote | data/src/main/java/com/hanadulset/pro_poseapp/data/datasource/feature/PoseDataSourceImpl.kt:348-358 | the two in-place votes of a pixel leave the array equal to the vote function of its old contents |
| Hog.AddColumn | data/src/main/java/com/hanadulset/pro_poseapp/data/datasource/feature/PoseDataSourceImpl.kt:347-359 | the inner `y` loop leaves the array equal to its old contents plus that column's votes |
| Hog.GetHistogram | data/src/main/java/com/hanadulset/pro_poseapp/data/datasource/feature/PoseDataSourceImpl.kt:338-370 | `getHistogram` returns the binarised vote histogram of the cell |
| HogMap.FusedOriInRange | data/src/main/java/com/hanadulset/pro_poseapp/data/datasource/feature/PoseDataSourceImpl.kt:390-427 | the averaged orientation of a pixel stays in `[0, 180)` |
| HogMap.FusedOriGridInRange | data/src/main/java/com/hanadulset/pro_poseapp/data/datasource/feature/PoseDataSourceImpl.kt:390-427 | the whole fused orientation plane stays in `[0, 180)` |
| HogMap.BinMagIsThreshold | data/src/main/java/com/hanadulset/pro_poseapp/data/datasource/feature/PoseDataSourceImpl.kt:437-438 | the binarised magnitude is 0 or 1, and 1 exactly when the magnitude is at least the mean |
| HogMap.BinaryGridValues | data/src/main/java/com/hanadulset/pro_poseapp/data/datasource/feature/PoseDataSourceImpl.kt:431-441 | each binarised pixel is 0 or 1, and 1 exactly when its fused magnitude is at least the mean of the plane |
| HogMap.FlatImageMaps | data/src/main/java/com/hanadulset/pro_poseapp/data/datasource/feature/PoseDataSourceImpl.kt:390-441 | an image without gradients binarises to all ones, with orientation 0 everywhere |
| HogMap.SubCell | data/src/main/java/com/hanadulset/pro_poseapp/data/datasource/feature/PoseDataSourceImpl.kt:470-471 | `submat(x, x + 16, y, y + 16)` holds the plane's values at those offsets |
| HogMap.CellsInOrderAt | data/src/main/java/com/hanadulset/pro_poseapp/data/datasource/feature/PoseDataSourceImpl.kt:493-498 | cell `(i, j)` of the map is entry `8i + j` of the order `getHOG` reads it in |
| HogMap.ConcatIndex | data/src/main/java/com/hanadulset/pro_poseapp/data/datasource/feature/PoseDataSourceImpl.kt:498-511 | the concatenated 9-bin histograms put bin `p % 9` of cell `p / 9` at position `p` |
| HogMap.MapCellValues | data/src/main/java/com/hanadulset/pro_poseapp/data/datasource/feature/PoseDataSourceImpl.kt:473-481 | every bin of the histogram map is 0 or 1 |
| HogMap.HogShape | data/src/main/java/com/hanadulset/pro_poseapp/data/datasource/feature/PoseDataSourceImpl.kt:489-516 | the HOG vector has 576 entries, each 0 or 1 |
| HogMap.FlatMapCell | data/src/main/java/com/hanadulset/pro_poseapp/data/datasource/feature/PoseDataSourceImpl.kt:466-484 | for an image without gradients every cell histogram is `[1, 0, ..., 0]` |
| HogMap.FlatImageHog | data/src/main/java/com/hanadulset/pro_poseapp/data/datasource/feature/PoseDataSourceImpl.kt:489-516 | for an image without gradients the HOG vector is 1 at every multiple of 9 and 0 elsewhere |
| HogMap.AddChannelRow | data/src/main/java/com/hanadulset/pro_poseapp/data/datasource/feature/PoseDataSourceImpl.kt:394-409 | one row of a channel is added in place: magnitude always, orientation and count where the magnitude is non-zero |
| HogMap.AddChannel | data/src/main/java/com/hanadulset/pro_poseapp/data/datasource/feature/PoseDataSourceImpl.kt:390-411 | one channel is added to the three planes as above, at every pixel |
| HogMap.FuseChannels | data/src/main/java/com/hanadulset/pro_poseapp/data/datasource/feature/PoseDataSourceImpl.kt:385-411 | the fresh planes hold, per pixel, the summed magnitudes, the orientation sum over channels with non-zero magnitude, and the count of those channels |
| HogMap.AverageRow | data/src/main/java/com/hanadulset/pro_poseapp/data/datasource/feature/PoseDataSourceImpl.kt:414-426 | one row is divided by its counts where they are non-zero, and nothing else changes |
| HogMap.AverageByCount | data/src/main/java/com/hanadulset/pro_poseapp/data/datasource/feature/PoseDataSourceImpl.kt:413-427 | both planes are divided by the count wherever it is non-zero, and kept elsewhere |
| HogMap.BinarizeRow | data/src/main/java/com/hanadulset/pro_poseapp/data/datasource/feature/PoseDataSourceImpl.kt:433-441 | one row is thresholded against the given mean, and nothing else changes |
| HogMap.BinarizeByMean | data/src/main/java/com/hanadulset/pro_poseapp/data/datasource/feature/PoseDataSourceImpl.kt:431-441 | every pixel is thresholded against the mean of the plane before the loop |
| HogMap.FusedMaps | data/src/main/java/com/hanadulset/pro_poseapp/data/datasource/feature/PoseDataSourceImpl.kt:385-441 | the fusion, averaging and binarisation loops leave the binary magnitude plane and the fused orientation plane |
| HogMap.CellHistogramAt | data/src/main/java/com/hanadulset/pro_poseapp/data/datasource/feature/PoseDataSourceImpl.kt:468-475 | the histogram of the cell at `(x, y)` is that of map cell `(x / 16, y / 16)` |
| HogMap.MapRow | data/src/main/java/com/hanadulset/pro_poseapp/data/datasource/feature/PoseDataSourceImpl.kt:467-483 | the inner `y` loop fills row `x / 16` of the map with its cell histograms and leaves the other rows alone |
| HogMap.GetHistogramMap | data/src/main/java/com/hanadulset/pro_poseapp/data/datasource/feature/PoseDataSourceImpl.kt:372-487 | every cell of the 8 x 8 map holds the histogram of its 16 x 16 block of the fused planes |
| HogMap.AddBlock | data/src/main/java/com/hanadulset/pro_poseapp/data/datasource/feature/PoseDataSourceImpl.kt:495-511 | one block of size 1 appends the histogram of map cell `(x, y)` |
| HogMap.AssembleHog | data/src/main/java/com/hanadulset/pro_poseapp/data/datasource/feature/PoseDataSourceImpl.kt:491-515 | the block loops concatenate the map cells in row-major order |
| HogMap.GetHog | data/src/main/java/com/hanadulset/pro_poseapp/data/datasource/feature/PoseDataSourceImpl.kt:489-516 | `getHOG` returns the HOG function of the gradient maps |
| Distance.Divide | data/src/main/java/com/hanadulset/pro_poseapp/data/datasource/feature/PoseDataSourceImpl.kt:250 | a `Double` division is non-finite exactly when the divisor is 0, and otherwise the exact quotient |
| Distance.CutsSucceeds | data/src/main/java/com/hanadulset/pro_poseapp/data/datasource/feature/PoseDataSourceImpl.kt:259-266 | the `subList` loop succeeds exactly when every length is non-negative and their sum fits after the start |
| Distance.CutsPieces | data/src/main/java/com/hanadulset/pro_poseapp/data/datasource/feature/PoseDataSourceImpl.kt:259-266 | the pieces have the lengths of the shape and are consecutive: run together they are the input from the start onwards |
| Distance.ReshapeCases | data/src/main/java/com/hanadulset/pro_poseapp/data/datasource/feature/PoseDataSourceImpl.kt:253-268 | `reshapeList` succeeds exactly when the shape is non-empty, its `Int` product is the input size, and its entries are lengths that fit; the rows then have those lengths and are consecutive from the input's start |
| Distance.ReshapeHog | data/src/main/java/com/hanadulset/pro_poseapp/data/datasource/feature/PoseDataSourceImpl.kt:253-268 | reshaping 576 values with `[64, 9]` gives the two rows `hog[..64]` and `hog[64..73]` |
| Distance.ReshapeList | data/src/main/java/com/hanadulset/pro_poseapp/data/datasource/feature/PoseDataSourceImpl.kt:253-268 | the `currentIndex` loop computes the reshape, failing exactly where it would throw |
| Distance.ZFlags | data/src/main/java/com/hanadulset/pro_poseapp/data/datasource/feature/PoseDataSourceImpl.kt:215-226 | the flag matrix is square, one flag row per row |
| Distance.AddZReadsFirstRow | data/src/main/java/com/hanadulset/pro_poseapp/data/datasource/feature/PoseDataSourceImpl.kt:221-231 | each row gains one value: 1.0 for rows 0 and 1 when row 0 is negligible, 0.0 otherwise |
| Distance.AddZDimension | data/src/main/java/com/hanadulset/pro_poseapp/data/datasource/feature/PoseDataSourceImpl.kt:214-234 | a list of at least two rows is replaced in place by its extended rows; a shorter one throws and is left as it was |
| Distance.SquaredDistance | data/src/main/java/com/hanadulset/pro_poseapp/data/datasource/feature/PoseDataSourceImpl.kt:244-247 | a sum of squared differences is never negative |
| Distance.RowsSquaredCases | data/src/main/java/com/hanadulset/pro_poseapp/data/datasource/feature/PoseDataSourceImpl.kt:241-248 | the summed squares exist exactly when paired rows have equal sizes, and are then non-negative; otherwise `require` throws |
| Distance.CalculateDistanceFails | data/src/main/java/com/hanadulset/pro_poseapp/data/datasource/feature/PoseDataSourceImpl.kt:236-251 | `calculateDistance` throws exactly when the outer sizes differ or are 0 or some paired rows differ in size, and it is a `require` failure |
| Distance.CalculateDistanceSelf | data/src/main/java/com/hanadulset/pro_poseapp/data/datasource/feature/PoseDataSourceImpl.kt:236-251 | identical non-empty inputs are at distance 0 |
| Distance.CalculateDistanceSymmetric | data/src/main/java/com/hanadulset/pro_poseapp/data/datasource/feature/PoseDataSourceImpl.kt:236-251 | `calculateDistance(a, b) == calculateDistance(b, a)`, failures included |
| Distance.DistanceHogShape | data/src/main/java/com/hanadulset/pro_poseapp/data/datasource/feature/PoseDataSourceImpl.kt:201-212 | for two 576-value vectors `distanceHog` is the root of the squared differences of the extended rows of 65 and 10 values, divided by `2 * 65` |
| Distance.DistanceHogFails | data/src/main/java/com/hanadulset/pro_poseapp/data/datasource/feature/PoseDataSourceImpl.kt:201-212 | a vector of any other length makes `distanceHog` throw |
| Distance.EmbeddingTerms | data/src/main/java/com/hanadulset/pro_poseapp/data/datasource/feature/PoseDataSourceImpl.kt:182-184 | `zip` then `map`: one term `sqrt(abs(q^2 - c^2))` per pair, as many as the shorter list |
| Distance.GetDistanceSelf | data/src/main/java/com/hanadulset/pro_poseapp/data/datasource/feature/PoseDataSourceImpl.kt:176-189 | a query is at distance 0 from the centroid made of its own embedding followed by its HOG vector |
| Distance.ArgMin | data/src/main/java/com/hanadulset/pro_poseapp/data/datasource/feature/PoseDataSourceImpl.kt:131-137 | the selected index is -1 or an index of the distances |
| Distance.ArgMinIsEarliestMinimum | data/src/main/java/com/hanadulset/pro_poseapp/data/datasource/feature/PoseDataSourceImpl.kt:131-137 | starting from `(-1, +Infinity)`, the loop keeps the earliest index of the smallest finite distance, and stays at -1 exactly when no distance is finite |
| Distance.DistancesLength | data/src/main/java/com/hanadulset/pro_poseapp/data/datasource/feature/PoseDataSourceImpl.kt:133-137 | on success there is one distance per visited centroid |
| Distance.DistancesStop | data/src/main/java/com/hanadulset/pro_poseapp/data/datasource/feature/PoseDataSourceImpl.kt:133-137 | the first exception ends the loop with that exception |
| Distance.SelectCentroid | data/src/main/java/com/hanadulset/pro_poseapp/data/datasource/feature/PoseDataSourceImpl.kt:131-138 | the loop over `0 until centroid.size - 2` returns the earliest strict minimum of the distances, or the first exception |
| Distance.RecommendPose | data/src/main/java/com/hanadulset/pro_poseapp/data/datasource/feature/PoseDataSourceImpl.kt:131-144 | the recommendation is `poseRanks[bestPoseId]`, throwing when that index is out of range |
| Distance.FewCentroidsFail | data/src/main/java/com/hanadulset/pro_poseapp/data/datasource/feature/PoseDataSourceImpl.kt:131-144 | with two centroids or fewer the recommendation throws |
| Distance.RecommendIsNearest | data/src/main/java/com/hanadulset/pro_poseapp/data/datasource/feature/PoseDataSourceImpl.kt:131-144 | a recommendation is the pose group of the earliest visited centroid at the smallest finite distance, never one of the last two |
| Catalog.ParseAll | data/src/main/java/com/hanadulset/pro_poseapp/data/datasource/feature/PoseDataSourceImpl.kt:58-59 | `map { it.toInt() }` succeeds exactly when every token converts, and then holds the converted tokens in order; otherwise it throws `NumberFormatException` |
| Catalog.PaletteIgnoresSpace | data/src/main/java/com/hanadulset/pro_poseapp/data/datasource/feature/PoseDataSourceImpl.kt:48 | a space anywhere in the palette text does not change the result |
| Catalog.Stage1 | data/src/main/java/com/hanadulset/pro_poseapp/data/datasource/feature/PoseDataSourceImpl.kt:50 | `replace("[[", "[")` removes only the outer opening bracket of a written palette |
| Catalog.Stage2 | data/src/main/java/com/hanadulset/pro_poseapp/data/datasource/feature/PoseDataSourceImpl.kt:51 | `replace("],[", "]@[")` turns exactly the row separators into `@` |
| Catalog.Stage3 | data/src/main/java/com/hanadulset/pro_poseapp/data/datasource/feature/PoseDataSourceImpl.kt:52 | `replace("]]", "]")` removes only the outer closing bracket |
| Catalog.SplitRows | data/src/main/java/com/hanadulset/pro_poseapp/data/datasource/feature/PoseDataSourceImpl.kt:53 | `split("@")` gives the bracketed rows, in order |
| Catalog.ReadRow | data/src/main/java/com/hanadulset/pro_poseapp/data/datasource/feature/PoseDataSourceImpl.kt:55-60 | a bracketed row of numbers reads back as those numbers |
| Catalog.PaletteRoundTrip | data/src/main/java/com/hanadulset/pro_poseapp/data/datasource/feature/PoseDataSourceImpl.kt:44-65 | the text `[[a,b,c],[d,e,f],...]` of a palette parses back to that palette, rows and values in order |
| Catalog.Kept | data/src/main/java/com/hanadulset/pro_poseapp/data/datasource/feature/PoseDataSourceImpl.kt:71-73 | filtering the CSV rows keeps no more rows than there are |
| Catalog.CollectKept | data/src/main/java/com/hanadulset/pro_poseapp/data/datasource/feature/PoseDataSourceImpl.kt:71-83 | a loader succeeds exactly when every kept row converts, and then holds their values in row order |
| Catalog.CollectStopsAtFailure | data/src/main/java/com/hanadulset/pro_poseapp/data/datasource/feature/PoseDataSourceImpl.kt:71-83 | once a row throws, later rows change nothing |
| Catalog.CollectNext | data/src/main/java/com/hanadulset/pro_poseapp/data/datasource/feature/PoseDataSourceImpl.kt:71-83 | unfolding step of `Collect`: one more row is skipped, appended or throws, as the loop body does |
| Catalog.CentroidRowValues | data/src/main/java/com/hanadulset/pro_poseapp/data/datasource/feature/PoseDataSourceImpl.kt:74-81 | a centroid row of at least three fields drops field 0 and reads field 1 without its first character, the middle fields as they are, and the last field without its last character; it fails exactly when one of these does not convert |
| Catalog.CentroidRowOfTwo | data/src/main/java/com/hanadulset/pro_poseapp/data/datasource/feature/PoseDataSourceImpl.kt:75-80 | a two-field row reads field 1 twice, once without its first and once without its last character |
| Catalog.CentroidRow | data/src/main/java/com/hanadulset/pro_poseapp/data/datasource/feature/PoseDataSourceImpl.kt:74-81 | the `tmpList` loop reads one centroid row as the row function does, exceptions included |
| Catalog.LoadCentroids | data/src/main/java/com/hanadulset/pro_poseapp/data/datasource/feature/PoseDataSourceImpl.kt:68-86 | the loader skips rows with a `label` field and collects the other rows, or the first exception |
| Catalog.RankRowIds | data/src/main/java/com/hanadulset/pro_poseapp/data/datasource/feature/PoseDataSourceImpl.kt:92-96 | a rank row whose field 1 is a bracketed comma list reads as the numbers of that list |
| Catalog.ReadRankList | data/src/main/java/com/hanadulset/pro_poseapp/data/datasource/feature/PoseDataSourceImpl.kt:89-100 | the loader skips the `pose_ids` header row and collects the other rows, or the first exception |
| Catalog.LoadPoseRanks | data/src/main/java/com/hanadulset/pro_poseapp/data/datasource/feature/PoseDataSourceImpl.kt:87-117 | one group per rank row: entry `j` of group `index` is `PoseData(id.toInt(), resourceId(id.toInt()), index)`; a parse failure is passed on |
| AutoFit.RoundSat | utils/src/main/java/com/example/proposeapplication/utils/camera/AutoFitSurfaceView.kt:73-76 | `roundToInt()` of a `Float` rounds to nearest where that fits in `Int` and saturates otherwise |
| AutoFit.ActualRatio | utils/src/main/java/com/example/proposeapplication/utils/camera/AutoFitSurfaceView.kt:70 | the effective ratio is non-zero, and positive for a positive ratio |
| AutoFit.AutoFitSurfaceView.constructor | utils/src/main/java/com/example/proposeapplication/utils/camera/AutoFitSurfaceView.kt:36 | a new view has ratio 0 |
| AutoFit.AutoFitSurfaceView.SetAspectRatio | utils/src/main/java/com/example/proposeapplication/utils/camera/AutoFitSurfaceView.kt:49-57 | a side at most 0 throws `IllegalArgumentException` and leaves the ratio unchanged; otherwise the ratio becomes `width / height`, which is positive |
| AutoFit.AutoFitSurfaceView.OnMeasure | utils/src/main/java/com/example/proposeapplication/utils/camera/AutoFitSurfaceView.kt:60-85 | the measured dimensions are the center-crop rule applied to the stored ratio; the ratio is unchanged |
| AutoFit.MeasureWithoutRatio | utils/src/main/java/com/example/proposeapplication/utils/camera/AutoFitSurfaceView.kt:65 | unfolding step of `MeasureOf`: with ratio 0 the measured size is the given size |
| AutoFit.MeasureCentreCrop | utils/src/main/java/com/example/proposeapplication/utils/camera/AutoFitSurfaceView.kt:66-78 | with a positive ratio the measured size covers the given one; it keeps the height when `width < height * r`, with width `round(height * r)`, and otherwise keeps the width, with height `round(width / r)` |
| AutoFit.GcdSteps | utils/src/main/java/com/example/proposeapplication/utils/camera/AutoFitSurfaceView.kt:48 | unfolding steps of `Gcd`: `gcd(a, 0) == a`, and `gcd(a, b) == gcd(b, a % b)` for non-zero `b` |
| AutoFit.GcdIsGreatestCommonDivisor | utils/src/main/java/com/example/proposeapplication/utils/camera/AutoFitSurfaceView.kt:48 | `gcd(a, b)` divides both arguments, and every common divisor divides it |
| AutoFit.GcdPositive | utils/src/main/java/com/example/proposeapplication/utils/camera/AutoFitSurfaceView.kt:48 | on non-negative arguments `gcd` is non-negative, and 0 only for `gcd(0, 0)` |

## Left out

- Bit-exact `Float`/`Double` arithmetic. Reals are exact: the 0.3F threshold is the real 0.3, and rounding of products, sums and quotients is not modelled.
- NaN and the two infinities are one value, `Distance.Measure.NonFinite`. The selection loop never lets it beat the running best. That is Kotlin's behaviour for NaN and +Infinity, the only non-finite values a distance can take when `sqrt` is non-negative.
- `kotlin.math.sqrt`, `toInt()`/`toDouble()` on strings and `getResourceId` are parameters. Their own behaviour (accepted number formats, `"NaN"`, the `-1` default id) is not modelled.
- OpenCV and Android calls are foreign code. These are `preProcessing`, `getGradient`, `Core.split`, `Mat` storage, `Bitmap.createBitmap`, `eraseColor`, `setPixel` and the resource arrays. The gradient maps are inputs. Orientations are required to lie in `[0, 180)`, which `getGradient` ensures by taking the phase `% 180`.
- The neural models (`ModelRunnerImpl.kt`): the YOLO buffer, its scale factors and the ResNet-50 embedding are inputs.
- The coroutine plumbing of `recommendPose` and its bundled sample drawable are left out, as is `recommendPosePosition`.
- Reading the asset files and CSV tokenising (`CSVReader`) are left out. The palette text is given as its lines, and each CSV row as its sequence of fields.
- `distanceAngle` and `getAngleFromHog` are not on the live path, and they use `cos`.
- The unused `arrayList` copy and `sum` variable of `getHistogramMap` are left out, as is the second unused `Mat.zeros`.
- `AutoFitSurfaceView`: `MeasureSpec.getSize`, `super.onMeasure`, `holder.setFixedSize`, `requestLayout` and `Log` are view plumbing. The width and height are given directly. The unused `matchedWidth`/`matchedHeight` fields and the commented-out `gcd` call are left out.
- `PoseData` is a record of three integers; the class file that declares it is not part of this model.
- Boxes.Iou: the areas are computed in unbounded integers, so a box area that overflows `Int` is not wrapped. Detector boxes are a few hundred pixels wide, far below that range.
- HogMap.FuseChannels: `cnt` is an 8-bit unsigned `Mat` in the source. It is modelled as a real count, which is exact because it never exceeds the number of channels.
- HogMap.GetHistogramMap: the planes are square (128 x 128), so the swapped width/height arguments of `Mat.zeros` and `submat` have no effect and are not modelled separately.
- KotlinText.Replace: requires a non-empty pattern. Every call in the parsers uses one.
- Layout.LayoutPixelOpaque: requires at most 128 detections, so that the colour sum cannot overflow. Non-max suppression passes at most 15.
- Layout.UniformCoverShowsColor: requires at most 128 detections for the same reason. Beyond that the `Int` sum of the colour list can wrap, and the mean is then no longer the colour.
