# Brightest patches, quadrilateral area and receptive fields

This project is a Dafny model of the computational core of a small image-processing tool. The tool finds the four brightest non-overlapping patches of a grayscale image, orders their centres around their centroid, and reports the area of the quadrilateral they span. It also ships a receptive-field calculator for stacks of convolution and pooling layers.

There are six modules in five files:

- `BrightPatches` (`patches.dfy`) models `find_brightest_patch_centers`.
  - Every `p`-by-`p` window is scored by its exact mean.
  - The windows are visited in a scan order whose brightness never increases.
  - The loop keeps a window's centre unless it lies closer than `p` on both axes to a centre it already kept. It stops once `num_patches` centres are kept, and raises the error when fewer were found.
  - A patch size below 1 passes the size assertion but makes NumPy raise `ValueError` when the windows are cut out and flattened. The model returns the error `BadPatchShape` for it.
  - The loop is the method `ScanForCentres`, proved against the function `Greedy` (the selection without early stop) truncated by `StopAt`.
- `QuadArea` (`quad_area.dfy`) models `cal_quad_area`: the shoelace sum written with `np.roll` and `np.dot`. It is proved equal to the sum of the cross products of the polygon's edges. From that the model gets:
  - invariance of the area under rotation of the vertex list, under reversal and under translation;
  - zero area for collinear or identical points;
  - the values of the repository's test quadrilaterals.
- `PointOrder` (`point_order.dfy`) models `sort_quad_points`: the exact centroid, then a stable sort by the angle around the centroid. The angle function (`np.arctan2`) is a parameter.
- `ReceptiveField` (`receptive_field.dfy`) models `ReceptiveFieldCalculator`.
  - `_calculate_layer_info` is `LayerOutput`.
  - `calculate` is the loop `Calculate`, proved against the fold `Rows`.
  - A zero stride becomes an explicit error instead of Python's `ZeroDivisionError`.
- `Points` and `Outcomes` (`common.dfy`) hold the shared point type, `Abs`, and the `Result` type.

The scan order is a parameter of `FindBrightestPatchCenters` and `PatchCenters`; it comes before the patch size and count in the method, so that these keep the source's defaults of 5 and 4. `IsScanOrder` says what `np.argsort(patch_brightness)[::-1]` guarantees:

- it is a permutation of all window indices;
- brightness never increases along it.

`np.argsort` uses an unstable sort by default, so the order among equal means is not determined by the code. Every property proved here holds for every such order. The repository's test with several equally bright candidates only checks membership in the result, not the order.

Floor division in the receptive-field code is written out for both signs of the stride. Python's `math.floor(a / s)` rounds towards minus infinity. Dafny's `/` is Euclidean, so `FloorDiv` handles negative divisors explicitly, and `FloorDivIsFloor` proves it is the floor of the rational quotient. Likewise, `SplitPadding` is proved to give `floor(padding / 2)` and `ceil(padding / 2)`.

A 2 x 2 pooling with stride 2 over a feature map of odd size behaves differently from the even case. It computes a used padding of -1, which is split as -1 on the left and 0 on the right, so the start moves by one and a half jumps rather than half a jump. The model keeps this behaviour as the code computes it (`TwoByTwoPooling`). The object-detection network in `receptive_field_calc.py` reaches that case at `pool7`, after `pool6` leaves a 5-pixel map (`ExampleLastPooling`).

## Model

| member | source | states |
|---|---|---|
| BrightPatches.WindowSum | main.py:23-32 | The sum of the `p * p` samples of one window. `Mean` divides it by `p * p`, and `StripedWindowSum` evaluates it on a test image. |
| BrightPatches.Mean | main.py:30-32 | A window's mean times the `p * p` samples it covers is the window's sum. |
| BrightPatches.MeanOrderIsSumOrder | main.py:30-35 | Comparing two windows' means (less-or-equal, and equality) is the same as comparing their sums. |
| BrightPatches.Brightness | main.py:23-32 | There is one mean per window position: `(height - p + 1) * (width - p + 1)` entries, flattened row-major by top-left corner. |
| BrightPatches.FlatIndexIsCorner | main.py:40-41 | A flat window index maps to a top-left corner inside the grid of window positions, and the corner maps back to the index. |
| BrightPatches.CornerIsFlatIndex | main.py:40-41 | Every top-left corner of the grid of window positions has a flat index, and that index maps back to the corner. |
| BrightPatches.CentreInImage | main.py:40-41 | Every window centre (corner plus `p // 2`) is a sample of the image. |
| BrightPatches.Fits | main.py:19-20 | The condition of the size assertion: the patch is no taller and no wider than the image. `TooLargeFails` ties the size error to it in both directions. |
| BrightPatches.IsScanOrder | main.py:35 | What `argsort(...)[::-1]` guarantees: a permutation of all window indices along which the mean never increases. `ScanOrderStartsAtMaximum`, `UniqueBrightestWindow` and `UniqueDarkestWindowLast` draw on it. |
| BrightPatches.Centre | main.py:40-41 | The centre of flat window `i`: row `i // cols`, column `i % cols`, both plus `p // 2`. `FlatIndexIsCorner`, `CornerIsFlatIndex` and `CentreInImage` state its properties. |
| BrightPatches.Candidates | main.py:39-41 | The centres the loop computes, one per scanned index and in scan order: candidate `k` is the centre of window `order[k]`. `GreedyMembers` and `PatchCentersRejectedOverlap` relate the selection to them. |
| BrightPatches.Overlaps | main.py:42 | Two centres overlap when they are closer than `p` on both axes. `SelfOverlap`, `ApartTilesDiffer` and `GreedyApart` state its properties. |
| BrightPatches.OverlapsAny | main.py:42-43 | The `any(...)` test: some centre kept so far overlaps the candidate. `GreedyStep` appends a candidate exactly when it fails, and `GreedyCoversScanned` shows every scanned candidate passes it afterwards. |
| BrightPatches.Greedy | main.py:38-44 | The centres the loop keeps when it never breaks, never more than the candidates. `GreedyStep`, `GreedyApart`, `GreedyMaximal`, `GreedyKeepsOrder` and `GreedyPrefix` state its properties. |
| BrightPatches.PatchCenters | main.py:19-53 | The outcome of `find_brightest_patch_centers`. `TooLargeFails`, `NonPositivePatchFails`, `PatchCentersSound`, `PatchCentersBrightestFirst` and `PatchCentersRejectedOverlap` state its properties. |
| BrightPatches.StopAt | main.py:45-46 | Breaking after `num_patches` kept centres keeps a prefix of the full selection, of length `num_patches` when that many exist (and the request is positive), otherwise everything. |
| BrightPatches.FindBrightestPatchCenters | main.py:6-53 | With the source's defaults of four 5-by-5 patches, returns the error for a patch larger than the image, then the shape error for a patch size below 1, otherwise the scan's centres, or the "not enough patches" error when fewer than `num_patches` were kept. |
| BrightPatches.ScanForCentres | main.py:38-46 | The loop returns exactly the full greedy selection over the scan order, truncated where it breaks. |
| BrightPatches.GreedyStopsAt | main.py:45-46 | The centres kept when the count first reaches `num_patches` are the first `num_patches` centres of the full selection. |
| BrightPatches.GreedyStep | main.py:42-44 | Scanning one more candidate appends it exactly when it overlaps no centre kept so far. |
| BrightPatches.GreedyMembers | main.py:39-44 | Only scanned centres are kept. |
| BrightPatches.GreedyPrefix | main.py:38-46 | Scanning further only appends to the centres kept so far. |
| BrightPatches.GreedyReachesCount | main.py:44-46 | Every count up to the final number of kept centres is reached after some prefix of the scan. |
| BrightPatches.GreedyApart | main.py:42-44 | No two kept centres overlap, so none is kept twice. |
| BrightPatches.SelfOverlap | main.py:42 | With `p >= 1` a centre overlaps itself. |
| BrightPatches.GreedyCoversScanned | main.py:42-44 | After a candidate is scanned, it overlaps some centre kept so far: itself, or the one that caused its rejection. |
| BrightPatches.GreedyMaximal | main.py:39-44 | After a full scan, every candidate overlaps a kept centre, so the selection cannot be extended. |
| BrightPatches.GreedyKeepsOrder | main.py:35-44 | A key that never increases along the scanned candidates never increases along the kept centres. |
| BrightPatches.TooLargeFails | main.py:19-20 | The patch-size error is returned exactly when the patch does not fit the image. |
| BrightPatches.NonPositivePatchFails | main.py:23-31 | The shape error is returned exactly when the patch size is below 1 (the size check comes first, so such a patch always fits). |
| BrightPatches.PatchCentersSound | main.py:38-53 | On success: exactly `num_patches` centres (for a positive request), pairwise non-overlapping, all inside the image. The error is raised exactly when the full selection has fewer than `num_patches` centres, and names that size and count. |
| BrightPatches.PatchCentersBrightestFirst | main.py:35-46 | The returned centres come out in order of non-increasing window mean. |
| BrightPatches.PatchCentersRejectedOverlap | main.py:39-46 | The result is the greedy selection of the prefix scanned before the loop stopped, and every window in that prefix overlaps a returned centre. With a non-positive request the whole scan runs. |
| BrightPatches.SinglePatchIsBrightest | main.py:35-46 | Asking for one patch returns the centre of the first window in scan order, and no window has a larger mean. |
| BrightPatches.ScanOrderStartsAtMaximum | main.py:35 | The first index of the scan order has the largest mean. |
| BrightPatches.UniqueBrightestWindow | main.py:35-46 | When one window has a strictly larger mean than every other, the scan starts there, and one patch is exactly its centre, whatever the order of ties elsewhere. |
| BrightPatches.UniqueDarkestWindowLast | main.py:35 | When one window has a strictly smaller mean than every other, the scan visits it last. |
| BrightPatches.TileInBox | main.py:40-41 | A coordinate below `len` lies in one of the `ceil(len / p)` tiles of width `p`. |
| BrightPatches.ApartTilesDiffer | main.py:42-44 | Two centres that do not overlap lie in different `p`-by-`p` tiles. |
| BrightPatches.ApartCentresBound | main.py:42-44 | Pairwise non-overlapping centres in a box number at most the count of `p`-by-`p` tiles covering the box. |
| BrightPatches.TooManyPatchesFail | main.py:48-51 | Asking for more patches than there are tiles over the window centres always raises the error, whatever the image holds. |
| BrightPatches.ExampleTenPatchesTooMany | test/test_main.py:53-56 | Ten 5-by-5 patches in a 10-by-10 image raise the error, for every image and every scan order. |
| BrightPatches.ExampleSingleWindow | test/test_main.py:64-77 | A 5-by-5 image with a 5-by-5 patch yields exactly the centre (2, 2). |
| BrightPatches.ExampleOversizedPatch | test/test_main.py:42-45 | A 12-by-12 patch in a 10-by-10 image fails the size check. |
| BrightPatches.StripedRowSum | test/test_main.py:80-86 | Five consecutive samples of a rising row of the 5-by-10 test image starting at column `c` sum to `50 c + 150`, those of a falling row to `400 - 50 c`. |
| BrightPatches.StripedWindowSum | test/test_main.py:80-86 | The 5-by-5 window of the 5-by-10 test image at column `c` sums to `1250 + 50 c`. |
| BrightPatches.StripedBrightness | test/test_main.py:80-89 | The 5-by-10 test image has six 5-by-5 windows, and the mean of window `i` is `(1250 + 50 i) / 25`, strictly increasing. |
| BrightPatches.StripedScanOrder | test/test_main.py:80-89 | Every scan order of that image visits the rightmost window first and the leftmost last. |
| BrightPatches.GreedyStripedPrefix | test/test_main.py:88-91 | The centres (2, 3) to (2, 6) all overlap (2, 7), so the scan keeps only (2, 7) until it reaches the leftmost window. |
| BrightPatches.GreedyOnStripedCandidates | test/test_main.py:88-91 | The scan of that image keeps (2, 7) and (2, 2) and nothing else. |
| BrightPatches.ExampleStripedTwoPatches | test/test_main.py:79-92 | Two 5-by-5 patches of the 5-by-10 image are exactly `[(2, 7), (2, 2)]`, for every scan order. |
| QuadArea.Xs | main.py:93 | The first column of the points: one entry per point, its `x`. |
| QuadArea.Ys | main.py:94 | The second column of the points: one entry per point, its `y`. |
| QuadArea.Dot | main.py:95-96 | `np.dot` of two integer vectors. `DotsAreChain` states what the two products in the shoelace sum add up to. |
| QuadArea.TwiceSignedArea | main.py:95-96 | The signed shoelace sum `dot(x, roll(y)) - dot(y, roll(x))`. `ShoelaceIsEdgeSum` proves it is the sum of the edge cross products, and `ReversalNegatesSignedArea` that reversal negates it. |
| QuadArea.Roll | main.py:96 | `np.roll(s, 1)`: the last element comes first, and every other element moves one place right. |
| QuadArea.Area | main.py:95-98 | The area is non-negative, and twice it is the absolute value of the rolled-dot shoelace sum. |
| QuadArea.DotsAreChain | main.py:95-96 | The dot products over the unwrapped pairs sum the cross products of consecutive points. |
| QuadArea.ShoelaceIsEdgeSum | main.py:95-96 | The rolled-dot form equals the sum of cross products over all edges, the closing edge included. |
| QuadArea.ChainSnoc | main.py:95-96 | Appending a point adds the cross product of the new edge. |
| QuadArea.EdgeSumRotateLeft | main.py:95-96 | The edge sum does not depend on which vertex comes first. |
| QuadArea.AreaRotationInvariant | main.py:80-98 | Starting the vertex list at any vertex gives the same area. |
| QuadArea.ChainReverse | main.py:95-96 | Reversal negates the sum over consecutive edges. |
| QuadArea.ReversalNegatesSignedArea | main.py:95-96 | Traversing the vertices in the opposite direction negates the signed shoelace sum. |
| QuadArea.AreaReversalInvariant | main.py:80-98 | Traversing the vertices in the opposite direction keeps the area. |
| QuadArea.CrossAlong | main.py:95-96 | Two points on the line `a + t d` have cross product `(u - t)` times `Cross(a, d)`. |
| QuadArea.ChainAlong | main.py:95-96 | For points on one line, the consecutive-edge sum depends only on the first and last parameters. |
| QuadArea.CollinearAreaZero | test/test_main.py:140-144 | Points on one line have signed shoelace sum 0 and area 0. |
| QuadArea.IdenticalPointsAreaZero | test/test_main.py:134-138 | Any number of copies of one point enclose area 0. |
| QuadArea.CrossShift | main.py:95-96 | How a cross product changes when both points move by the same offset. |
| QuadArea.ChainTranslate | main.py:95-96 | Translating the vertices changes the open-chain sum only through the first and last points. |
| QuadArea.QuadAreaFromEdges | main.py:95-98 | The area of a quadrilateral is half the absolute value of the sum of its four edge cross products. |
| QuadArea.AreaTranslationInvariant | main.py:80-98 | Moving every vertex by the same offset keeps the area. |
| QuadArea.ExampleSquare | test/test_main.py:116-120 | The 5-by-5 square has area 25. |
| QuadArea.ExampleRectangle | test/test_main.py:122-126 | The 5-by-2 rectangle has area 10. |
| QuadArea.ExampleIrregular | test/test_main.py:128-132 | The irregular quadrilateral of the tests has area 4. |
| QuadArea.ExampleNonConvex | test/test_main.py:146-150 | The quadrilateral (100,100), (300,50), (250,250), (150,200) has area 22500. |
| QuadArea.ExampleDegenerate | test/test_main.py:134-144 | Four identical points, and four points on the diagonal, have area 0. |
| PointOrder.Centroid | main.py:68 | The centroid times the number of points is the coordinate sum, on both axes. |
| PointOrder.AngleFrom | main.py:71-72 | The sort key: the angle function applied to the offset of a point from the centroid, `y` first. `SortQuadPoints` sorts by it. |
| PointOrder.Insert | main.py:75 | Inserting into a sorted sequence keeps it sorted and adds exactly the new point to its multiset. |
| PointOrder.ConsSorted | main.py:75 | A point whose key is at most the head's can be put in front of a sorted sequence. |
| PointOrder.SortByKey | main.py:75 | `sorted(..., key=...)` returns a permutation of its input that is sorted by the key. |
| PointOrder.SortQuadPoints | main.py:56-77 | The result is a permutation of the input points, sorted by angle around the centroid. |
| PointOrder.SortedPermutationUnique | main.py:71-75 | When no two points share a key, only one permutation of the points is sorted by the key, so the order is determined. |
| PointOrder.SortedHeadsAgree | main.py:75 | Two sorted permutations with distinct keys start with the same point. |
| PointOrder.ExampleSquareOrder | test/test_main.py:108-113 | The test square comes out as (0,0), (5,0), (5,5), (0,5) for any angle function that ranks the four diagonal directions as `atan2` does. |
| PointOrder.SquareCentroid | test/test_main.py:109 | The centroid of the test square is (2.5, 2.5). |
| PointOrder.SquareCornersByAngle | test/test_main.py:111 | The expected order is strictly increasing in angle around (2.5, 2.5). |
| PointOrder.TailReversed | test/test_main.py:109-111 | The expected order is a permutation of the input points. |
| ReceptiveField.FloorDiv | receptive_field_calc.py:32 | The quotient `q` of `a / b` satisfies `q b <= a < q b + b` for a positive divisor, and the mirrored bounds for a negative one. |
| ReceptiveField.FloorDivIsFloor | receptive_field_calc.py:32 | `FloorDiv` is `math.floor` of the exact rational quotient. |
| ReceptiveField.RealBetween | receptive_field_calc.py:32-35 | An integer bracket `q b <= a < q b + b` puts `q` at the floor of `a / b` in the reals. |
| ReceptiveField.SplitPadding | receptive_field_calc.py:33-35 | The left and right paddings sum to the used padding, and the right exceeds the left by the padding's parity. |
| ReceptiveField.SplitPaddingIsFloorCeil | receptive_field_calc.py:34-35 | The left padding is `floor(padding / 2)` and the right padding is `ceil(padding / 2)`. |
| ReceptiveField.OutputSize | receptive_field_calc.py:32 | `n_out - 1` strides fit into the padded span and `n_out` strides do not, for either sign of the stride. |
| ReceptiveField.UsedPadding | receptive_field_calc.py:33 | The padding the layer actually uses. `UsedPaddingBounds` puts it in `(2 p - s, 2 p]` for a positive stride. |
| ReceptiveField.LayerOutput | receptive_field_calc.py:22-40 | `_calculate_layer_info`. `OutputSize`, `StartShift`, `FieldNeverShrinks`, `StartStaysHalfInteger`, `SamePaddedConvolution` and `TwoByTwoPooling` state its properties. |
| ReceptiveField.StartShift | receptive_field_calc.py:38-39 | The new start is `start_in + ((k - 1) / 2 - p_left) * j_in`. |
| ReceptiveField.UsedPaddingBounds | receptive_field_calc.py:32-33 | With a positive stride, the padding used lies in `(2 p - s, 2 p]`. |
| ReceptiveField.FieldNeverShrinks | receptive_field_calc.py:38 | With a kernel of at least one pixel and a non-negative jump, the receptive field does not shrink. |
| ReceptiveField.StartStaysHalfInteger | receptive_field_calc.py:37-39 | A start that is a multiple of one half stays one through any layer. |
| ReceptiveField.SamePaddedConvolution | receptive_field_calc.py:22-40 | A stride-1 convolution with kernel `2 p + 1` and padding `p` keeps size, jump and start, and widens the field by `2 p` jumps. |
| ReceptiveField.TwoByTwoPooling | receptive_field_calc.py:22-40 | A 2 x 2 stride-2 pooling halves the size (rounding down), doubles the jump and adds one jump to the field. On an odd input the used padding is -1 and the start moves by three half jumps; on an even input it moves by one half jump. |
| ReceptiveField.InputLayer | receptive_field_calc.py:6 | The first row: size `n`, jump 1, field 1, start 0.5. `Rows` starts with it. |
| ReceptiveField.Rows | receptive_field_calc.py:5-13 | On success there is one row per layer plus the input row, and the first row is the input layer `(n, 1, 1, 0.5)`. |
| ReceptiveField.Calculate | receptive_field_calc.py:5-13 | The loop computes exactly the rows of the fold, or the error at the first zero stride. |
| ReceptiveField.RowsErrorPersists | receptive_field_calc.py:9-13 | Once a prefix of the architecture fails, the whole architecture fails with the same error. |
| ReceptiveField.RowsThreadLayers | receptive_field_calc.py:9-13 | Each row after the first is its layer's output computed from the row before it. |
| ReceptiveField.RowsFromThreadedLayers | receptive_field_calc.py:9-13 | Conversely, rows that start at the input layer and follow each layer's output are the computed rows. |
| ReceptiveField.RowsFailAtFirstZeroStride | receptive_field_calc.py:9-13 | The calculation fails exactly when some layer has stride 0, and the error names the first such layer. |
| ReceptiveField.JumpIsStrideProduct | receptive_field_calc.py:37 | The jump after `i` layers is the product of their strides. |
| ReceptiveField.FieldGrowsAlongRows | receptive_field_calc.py:37-38 | With positive strides and kernels, the calculation succeeds, every jump and field is at least 1, and the field never shrinks from row to row. |
| ReceptiveField.StartsAreHalfIntegers | receptive_field_calc.py:37-39 | Every start in the table is a multiple of one half. |
| ReceptiveField.ExampleFirstStage | receptive_field_calc.py:55-57 | The object-detection network on a 320-pixel image starts with rows (320, 1, 1, 0.5), then `conv1` (320, 1, 5, 0.5), then `pool1` (160, 2, 6, 1.0). |
| ReceptiveField.ExampleFirstConvolution | receptive_field_calc.py:56 | `conv1` maps the input row to (320, 1, 5, 0.5). |
| ReceptiveField.ExampleFirstPooling | receptive_field_calc.py:57 | `pool1` maps the `conv1` row to (160, 2, 6, 1.0). |
| ReceptiveField.ExampleLastConvolution | receptive_field_calc.py:68 | `conv7` maps the `pool6` row (5, 64, 400, 32) to (5, 64, 656, 32). |
| ReceptiveField.ExampleLastPooling | receptive_field_calc.py:69 | `pool7` maps the odd-sized `conv7` row to (2, 128, 720, 128). |

## Left out

- Image loading, the command-line interface, `draw_quad` and all printing (`_print_layer_info`) are I/O and are not modelled.
- Pixel values are unbounded integers and means are exact rationals. NumPy's floating-point mean can round two different sums to the same value, or the other way round; that is not modelled.
- `np.argsort` and its tie order: the scan order is a parameter constrained by `IsScanOrder`, so results for images with equally bright windows are proved for every tie order rather than for NumPy's particular one.
- The 10-by-10 gradient test images and the image with four bright spots (test/test_main.py:29-51 and 94-105) are not evaluated to exact centre lists. Their deciding windows have distinct sums, so ties are not the obstacle: summing every 5-by-5 window of a 10-by-10 grid in the solver is too costly. `UniqueBrightestWindow` gives the one-patch results once the brightest window is known, and the 5-by-10 test is evaluated in full (`ExampleStripedTwoPatches`).
- `PatchError` does not carry NumPy's messages: the "not enough patches" error and the shape error are both `ValueError` in the source, told apart here by their constructors.
- `cal_quad_area` on an empty point list raises an indexing error in NumPy. `Area` requires at least one point instead of modelling that error.
- `sort_quad_points` converts the points to `int32`. Coordinates outside the 32-bit range would wrap; the model keeps unbounded integers.
- Area: the model computes the shoelace sum on unbounded integers. In the tool's own pipeline `cal_quad_area` receives the `int32` rows of `sort_quad_points`, so both `np.dot` results and their difference wrap modulo 2^32. The result is then exact only while twice the signed area lies strictly between -2^31 and 2^31, and at exactly -2^31 `abs` stays negative and a negative area comes out. Direct calls with Python integers use 64-bit arithmetic. Neither width is modelled.
- `np.arctan2` is a parameter of `SortQuadPoints`, because floating-point trigonometry is not modelled. The example lemma states only the ranking of the four diagonal directions that it needs.
- SortByKey: stability (equal keys keep their input order) is how `Insert` places equal keys, but it is not stated as a contract. Only permutation and sortedness are proved, plus uniqueness of the order when keys are distinct.
- `calculate` prints each row as it goes, so the rows before a zero-stride layer are printed before Python raises `ZeroDivisionError`. `Rows` and `Calculate` return only the error.
- The architecture is a Python `dict`, so layer names are unique and iterated in insertion order. The model takes a sequence of `(name, layer)` pairs and does not require unique names.
- `_calculate_layer_info` divides with floats before `math.floor`/`math.ceil`. Floor and ceiling are modelled exactly, which differs from the float computation only for integers too large to be represented exactly as doubles. `p_right` is computed by `SplitPadding` but, as in the source, not used.
- The full object-detection run (14 layers) is proved only for its first two and last two layers. Every layer in between is a same-padded convolution or a 2 x 2 pooling, covered by `SamePaddedConvolution` and `TwoByTwoPooling`.
- The `alex_net` table is not evaluated.
