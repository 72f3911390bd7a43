/** Brightest non-overlapping square patches of a grayscale image
    (`find_brightest_patch_centers`): every `p`-by-`p` window is scored by its mean
    intensity, windows are visited from brightest to darkest, and a window's centre is
    kept unless it lies within `p` on both axes of a centre kept before it. */
module BrightPatches {
  import opened Points
  import opened Outcomes

  /** A row-major intensity image of `height` rows of `width` samples each. */
  datatype Grid = Grid(height: nat, width: nat, cells: seq<seq<int>>) {
    predicate WellFormed()
    {
      |cells| == height && forall r :: 0 <= r < |cells| ==> |cells[r]| == width
    }
  }

  datatype PatchError =
    | PatchLargerThanImage                           // the assertion on patch_size
    | BadPatchShape(patchSize: int)                  // NumPy's ValueError on a patch size below 1
    | NotEnoughPatches(patchSize: int, numPatches: int)  // the ValueError

  // ---------------------------------------------------------------------------
  // Window scores.

  /** The sample at row `r`, column `c`; 0 outside the image. */
  function Cell(g: Grid, r: int, c: int): int
  {
    if 0 <= r < |g.cells| && 0 <= c < |g.cells[r]| then g.cells[r][c] else 0
  }

  /** Sum of the `len` samples of row `r` starting at column `c`. */
  function RowSum(g: Grid, r: int, c: int, len: nat): int
  {
    if len == 0 then 0 else RowSum(g, r, c, len - 1) + Cell(g, r, c + len - 1)
  }

  /** Sum of the `rows`-by-`cols` block whose top-left sample is (`r`, `c`). */
  function BlockSum(g: Grid, r: int, c: int, rows: nat, cols: nat): int
  {
    if rows == 0 then 0 else BlockSum(g, r, c, rows - 1, cols) + RowSum(g, r + rows - 1, c, cols)
  }

  /** Sum of the `p`-by-`p` window whose top-left sample is (`r`, `c`). */
  function WindowSum(g: Grid, r: int, c: int, p: nat): int
  {
    BlockSum(g, r, c, p, p)
  }

  /** Mean intensity of a window: its sum divided by the `p * p` samples it covers. */
  function Mean(g: Grid, r: int, c: int, p: nat): (m: real)
    requires p >= 1
    ensures m * (p * p) as real == WindowSum(g, r, c, p) as real
  {
    WindowSum(g, r, c, p) as real / (p * p) as real
  }

  /** Every window shares the divisor `p * p`, so comparing means is comparing sums. */
  lemma MeanOrderIsSumOrder(g: Grid, p: nat, r1: int, c1: int, r2: int, c2: int)
    requires p >= 1
    ensures Mean(g, r1, c1, p) <= Mean(g, r2, c2, p) <==> WindowSum(g, r1, c1, p) <= WindowSum(g, r2, c2, p)
    ensures Mean(g, r1, c1, p) == Mean(g, r2, c2, p) <==> WindowSum(g, r1, c1, p) == WindowSum(g, r2, c2, p)
  {
    var d := (p * p) as real;
    var m1, m2 := Mean(g, r1, c1, p), Mean(g, r2, c2, p);
    assert d > 0.0;
    assert m1 <= m2 ==> m1 * d <= m2 * d;
    assert m1 * d <= m2 * d ==> m1 <= m2;
  }

  predicate Fits(g: Grid, p: int)
  {
    p <= g.height && p <= g.width
  }

  /** Number of window positions down and across. */
  function WindowRows(g: Grid, p: int): int { g.height - p + 1 }
  function WindowCols(g: Grid, p: int): int { g.width - p + 1 }

  /** The flattened window means: entry `i` belongs to the window whose top-left corner
      is row `i / cols`, column `i % cols`, row-major over all top-left corners. */
  function Brightness(g: Grid, p: int): (b: seq<real>)
    requires p >= 1 && Fits(g, p)
    ensures |b| == WindowRows(g, p) * WindowCols(g, p)
  {
    var cols := WindowCols(g, p);
    seq(WindowRows(g, p) * cols, i requires 0 <= i => Mean(g, i / cols, i % cols, p))
  }

  /** The flat index `i` and the top-left corner (`i / cols`, `i % cols`) determine each
      other: one index per corner, and every corner of a window inside the image. */
  lemma FlatIndexIsCorner(rows: int, cols: int, i: int)
    requires cols > 0 && 0 <= i < rows * cols
    ensures 0 <= i / cols < rows && 0 <= i % cols < cols
    ensures (i / cols) * cols + i % cols == i
  {
    var q := i / cols;
    if q >= rows {
      MulMonotone(rows, q, cols);
      assert false;
    }
  }

  lemma CornerIsFlatIndex(rows: int, cols: int, r: int, c: int)
    requires 0 <= r < rows && 0 <= c < cols
    ensures 0 <= r * cols + c < rows * cols
    ensures (r * cols + c) / cols == r && (r * cols + c) % cols == c
  {
    MulMonotone(r + 1, rows, cols);
    MulMonotone(0, r, cols);
    DivModUnique(r * cols + c, cols, r, c);
  }

  lemma DivModUnique(i: int, cols: int, q: int, m: int)
    requires 0 <= m < cols && i == q * cols + m
    ensures i / cols == q && i % cols == m
  {
    var q', m' := i / cols, i % cols;
    assert (q - q') * cols == m' - m;
    if q > q' {
      MulMonotone(1, q - q', cols);
    } else if q < q' {
      MulMonotone(1, q' - q, cols);
    }
  }

  lemma MulMonotone(a: int, b: int, c: int)
    requires a <= b && c >= 0
    ensures a * c <= b * c
  {
  }

  // ---------------------------------------------------------------------------
  // Scan order and centres.

  /** What `argsort(brightness)[::-1]` yields: an ordering of all window indices whose
      brightness never increases. How ties are ordered is left open. */
  predicate IsScanOrder(g: Grid, p: int, order: seq<nat>)
    requires p >= 1 && Fits(g, p)
  {
    var b := Brightness(g, p);
    |order| == |b|
    && (forall k :: 0 <= k < |order| ==> order[k] < |b|)
    && (forall i :: 0 <= i < |b| ==> i in order)
    && (forall k1, k2 :: 0 <= k1 < k2 < |order| ==> order[k1] != order[k2])
    && (forall k1, k2 :: 0 <= k1 < k2 < |order| ==> b[order[k1]] >= b[order[k2]])
  }

  /** Centre of the window with flat index `i`: its top-left corner plus `p // 2`. */
  function Centre(i: nat, cols: int, p: int): Point
    requires cols > 0
  {
    Point(i / cols + p / 2, i % cols + p / 2)
  }

  /** Every window centre is a sample of the image. */
  lemma CentreInImage(g: Grid, p: int, i: nat)
    requires p >= 1 && Fits(g, p)
    requires i < WindowRows(g, p) * WindowCols(g, p)
    ensures InImage(g, Centre(i, WindowCols(g, p), p))
  {
    FlatIndexIsCorner(WindowRows(g, p), WindowCols(g, p), i);
  }

  predicate InImage(g: Grid, pt: Point)
  {
    0 <= pt.x < g.height && 0 <= pt.y < g.width
  }

  /** Mean of the window whose centre is `pt`. */
  function CentreBrightness(g: Grid, p: int, pt: Point): real
    requires p >= 1
  {
    Mean(g, pt.x - p / 2, pt.y - p / 2, p)
  }

  /** The centres in scan order. */
  function Candidates(g: Grid, p: int, order: seq<nat>): (cs: seq<Point>)
    requires Fits(g, p)
    ensures |cs| == |order|
    ensures forall k :: 0 <= k < |order| ==> cs[k] == Centre(order[k], WindowCols(g, p), p)
  {
    seq(|order|, k requires 0 <= k < |order| => Centre(order[k], WindowCols(g, p), p))
  }

  // ---------------------------------------------------------------------------
  // Greedy non-overlapping selection.

  /** Two centres overlap when they are closer than `p` on both axes. */
  predicate Overlaps(a: Point, b: Point, p: int)
  {
    Abs(a.x - b.x) < p && Abs(a.y - b.y) < p
  }

  predicate OverlapsAny(c: Point, s: seq<Point>, p: int)
  {
    exists j :: 0 <= j < |s| && Overlaps(c, s[j], p)
  }

  predicate PairwiseApart(s: seq<Point>, p: int)
  {
    forall i, j :: 0 <= i < j < |s| ==> !Overlaps(s[i], s[j], p)
  }

  /** The centres kept by scanning all of `cands` in order, without stopping early. */
  function Greedy(cands: seq<Point>, p: int): (s: seq<Point>)
    ensures |s| <= |cands|
  {
    if |cands| == 0 then []
    else
      var prev := Greedy(cands[..|cands| - 1], p);
      var c := cands[|cands| - 1];
      if OverlapsAny(c, prev, p) then prev else prev + [c]
  }

  /** Only candidates are kept. */
  lemma {:induction false} GreedyMembers(cands: seq<Point>, p: int)
    ensures forall j :: 0 <= j < |Greedy(cands, p)| ==> Greedy(cands, p)[j] in cands
    decreases |cands|
  {
    if |cands| > 0 {
      GreedyMembers(cands[..|cands| - 1], p);
    }
  }

  /** Scanning one more candidate keeps it exactly when it overlaps no kept centre. */
  lemma GreedyStep(cands: seq<Point>, p: int, k: nat)
    requires k < |cands|
    ensures Greedy(cands[..k + 1], p) ==
      if OverlapsAny(cands[k], Greedy(cands[..k], p), p) then Greedy(cands[..k], p)
      else Greedy(cands[..k], p) + [cands[k]]
  {
    assert cands[..k + 1][..k] == cands[..k];
  }

  /** What the scan has kept when it stops: it breaks as soon as `numPatches` centres are
      kept, so a positive request truncates the full greedy selection. */
  function StopAt(all: seq<Point>, numPatches: int): (kept: seq<Point>)
    ensures kept <= all
    ensures |kept| == if 1 <= numPatches <= |all| then numPatches else |all|
  {
    if 1 <= numPatches <= |all| then all[..numPatches] else all
  }

  /** `find_brightest_patch_centers` for a given scan order. */
  function PatchCenters(g: Grid, p: int, numPatches: int, order: seq<nat>): Result<seq<Point>, PatchError>
  {
    if !Fits(g, p) then Err(PatchLargerThanImage)
    else if p < 1 then Err(BadPatchShape(p))
    else
      var kept := StopAt(Greedy(Candidates(g, p, order), p), numPatches);
      if |kept| < numPatches then Err(NotEnoughPatches(p, numPatches)) else Ok(kept)
  }

  /** `find_brightest_patch_centers`: check that the patch fits, scan, and raise the
      error when the scan kept fewer than `numPatches` centres. By default it looks for
      four 5-by-5 patches, as the tool does. */
  method FindBrightestPatchCenters(g: Grid, order: seq<nat>, patchSize: int := 5, numPatches: int := 4)
    returns (res: Result<seq<Point>, PatchError>)
    requires g.WellFormed()
    requires patchSize >= 1 && Fits(g, patchSize) ==> IsScanOrder(g, patchSize, order)
    ensures res == PatchCenters(g, patchSize, numPatches, order)
  {
    if !(patchSize <= g.height && patchSize <= g.width) {
      return Err(PatchLargerThanImage);
    }
    if patchSize < 1 {
      // An empty or negative window shape: NumPy rejects it when the windows are cut out.
      return Err(BadPatchShape(patchSize));
    }
    var selected := ScanForCentres(g, patchSize, numPatches, order);
    if |selected| < numPatches {
      return Err(NotEnoughPatches(patchSize, numPatches));
    }
    return Ok(selected);
  }

  /** The loop of `find_brightest_patch_centers`: visit the windows in `order`, keep each
      centre that overlaps no centre kept so far, stop once `numPatches` are kept. */
  method ScanForCentres(g: Grid, patchSize: int, numPatches: int, order: seq<nat>)
    returns (selected: seq<Point>)
    requires patchSize >= 1 && Fits(g, patchSize)
    ensures selected == StopAt(Greedy(Candidates(g, patchSize, order), patchSize), numPatches)
  {
    var cols := WindowCols(g, patchSize);
    ghost var cands := Candidates(g, patchSize, order);
    selected := [];
    var k := 0;
    while k < |order|
      invariant 0 <= k <= |order|
      invariant selected == Greedy(cands[..k], patchSize)
      invariant numPatches >= 1 ==> |selected| < numPatches
    {
      var centre := Centre(order[k], cols, patchSize);
      GreedyStep(cands, patchSize, k);
      if !OverlapsAny(centre, selected, patchSize) {
        selected := selected + [centre];
        if |selected| == numPatches {
          GreedyStopsAt(cands, patchSize, k + 1, numPatches);
          return;
        }
      }
      k := k + 1;
    }
    GreedyScannedAll(cands, patchSize, numPatches);
  }

  /** A scan that reached the end without keeping `numPatches` centres kept all it could. */
  lemma GreedyScannedAll(cands: seq<Point>, p: int, numPatches: int)
    requires numPatches >= 1 ==> |Greedy(cands[..|cands|], p)| < numPatches
    ensures Greedy(cands[..|cands|], p) == StopAt(Greedy(cands, p), numPatches)
  {
    assert cands[..|cands|] == cands;
  }

  /** Once the scan has kept `numPatches` centres, the rest of the scan could only have
      appended to them. */
  lemma GreedyStopsAt(cands: seq<Point>, p: int, k: nat, numPatches: int)
    requires k <= |cands| && numPatches >= 1 && |Greedy(cands[..k], p)| == numPatches
    ensures Greedy(cands[..k], p) == StopAt(Greedy(cands, p), numPatches)
  {
    GreedyPrefix(cands, p, k);
  }

  // ---------------------------------------------------------------------------
  // Properties of the greedy scan.

  /** Scanning more candidates only appends to what was kept. */
  lemma {:induction false} GreedyPrefix(cands: seq<Point>, p: int, k: nat)
    requires k <= |cands|
    ensures Greedy(cands[..k], p) <= Greedy(cands, p)
    decreases |cands|
  {
    if k < |cands| {
      var n := |cands| - 1;
      assert cands[..n][..k] == cands[..k];
      GreedyPrefix(cands[..n], p, k);
    } else {
      assert cands[..k] == cands;
    }
  }

  /** No two kept centres overlap (so none is kept twice). */
  lemma {:induction false} GreedyApart(cands: seq<Point>, p: int)
    ensures PairwiseApart(Greedy(cands, p), p)
    decreases |cands|
  {
    if |cands| > 0 {
      GreedyApart(cands[..|cands| - 1], p);
    }
  }

  /** A centre overlaps itself: a patch is at least one sample wide. */
  lemma SelfOverlap(c: Point, p: int)
    requires p >= 1
    ensures Overlaps(c, c, p)
  {
  }

  /** After candidate `k` is scanned it overlaps some centre kept so far: either it was
      kept, or it was rejected because of a centre kept earlier. */
  lemma GreedyCoversScanned(cands: seq<Point>, p: int, k: nat)
    requires p >= 1 && k < |cands|
    ensures OverlapsAny(cands[k], Greedy(cands[..k + 1], p), p)
  {
    var s := Greedy(cands[..k + 1], p);
    assert cands[..k + 1][..k] == cands[..k];
    if !OverlapsAny(cands[k], Greedy(cands[..k], p), p) {
      SelfOverlap(cands[k], p);
      assert s[|s| - 1] == cands[k];
    }
  }

  /** Every candidate overlaps some kept centre: the kept set cannot be extended. */
  lemma GreedyMaximal(cands: seq<Point>, p: int)
    requires p >= 1
    ensures forall k :: 0 <= k < |cands| ==> OverlapsAny(cands[k], Greedy(cands, p), p)
  {
    forall k | 0 <= k < |cands|
      ensures OverlapsAny(cands[k], Greedy(cands, p), p)
    {
      GreedyCoversScanned(cands, p, k);
      GreedyPrefix(cands, p, k + 1);
      var s := Greedy(cands[..k + 1], p);
      var j :| 0 <= j < |s| && Overlaps(cands[k], s[j], p);
      assert Greedy(cands, p)[j] == s[j];
    }
  }

  predicate NonIncreasing(s: seq<Point>, key: Point -> real)
  {
    forall i, j :: 0 <= i < j < |s| ==> key(s[i]) >= key(s[j])
  }

  /** The kept centres come out in scan order: a key that never increases along the
      candidates never increases along the kept centres. */
  lemma {:induction false} GreedyKeepsOrder(cands: seq<Point>, p: int, key: Point -> real)
    requires NonIncreasing(cands, key)
    ensures NonIncreasing(Greedy(cands, p), key)
    decreases |cands|
  {
    if |cands| > 0 {
      var n := |cands| - 1;
      var prev := Greedy(cands[..n], p);
      GreedyKeepsOrder(cands[..n], p, key);
      GreedyMembers(cands[..n], p);
      forall j | 0 <= j < |prev|
        ensures key(prev[j]) >= key(cands[n])
      {
        var a :| 0 <= a < n && cands[..n][a] == prev[j];
        assert cands[a] == prev[j];
        assert key(cands[a]) >= key(cands[n]);
      }
    }
  }

  // ---------------------------------------------------------------------------
  // What the caller of find_brightest_patch_centers gets.

  /** A patch larger than the image fails before any window is scanned. */
  lemma TooLargeFails(g: Grid, p: int, numPatches: int, order: seq<nat>)
    ensures PatchCenters(g, p, numPatches, order) == Err(PatchLargerThanImage) <==> !Fits(g, p)
  {
  }

  /** A patch size below 1 passes the size assertion and then fails when the windows are
      cut out and flattened. */
  lemma NonPositivePatchFails(g: Grid, p: int, numPatches: int, order: seq<nat>)
    ensures PatchCenters(g, p, numPatches, order) == Err(BadPatchShape(p)) <==> p < 1
  {
  }

  /** On success: exactly `numPatches` centres when at least one is asked for, each
      inside the image, no two overlapping; the error is raised exactly when the whole
      scan keeps fewer than `numPatches` centres, and then no centre is returned. */
  lemma PatchCentersSound(g: Grid, p: int, numPatches: int, order: seq<nat>)
    requires p >= 1 && Fits(g, p) && IsScanOrder(g, p, order)
    ensures var res := PatchCenters(g, p, numPatches, order);
      && (res.Ok? && numPatches >= 1 ==> |res.value| == numPatches)
      && (res.Ok? ==> PairwiseApart(res.value, p))
      && (res.Ok? ==> forall j :: 0 <= j < |res.value| ==> InImage(g, res.value[j]))
      && (res.Err? <==> |Greedy(Candidates(g, p, order), p)| < numPatches)
      && (res.Err? ==> res.error == NotEnoughPatches(p, numPatches))
  {
    var cands := Candidates(g, p, order);
    var all := Greedy(cands, p);
    GreedyApart(cands, p);
    GreedyMembers(cands, p);
    forall j | 0 <= j < |all|
      ensures InImage(g, all[j])
    {
      var k :| 0 <= k < |cands| && cands[k] == all[j];
      CentreInImage(g, p, order[k]);
    }
  }

  /** Centres come out brightest first. */
  lemma PatchCentersBrightestFirst(g: Grid, p: int, numPatches: int, order: seq<nat>)
    requires p >= 1 && Fits(g, p) && IsScanOrder(g, p, order)
    ensures var res := PatchCenters(g, p, numPatches, order);
      res.Ok? ==> forall i, j :: 0 <= i < j < |res.value| ==>
        CentreBrightness(g, p, res.value[i]) >= CentreBrightness(g, p, res.value[j])
  {
    var cands := Candidates(g, p, order);
    var key := (pt: Point) => CentreBrightness(g, p, pt);
    var b := Brightness(g, p);
    var cols := WindowCols(g, p);
    forall k | 0 <= k < |cands|
      ensures key(cands[k]) == b[order[k]]
    {
      FlatIndexIsCorner(WindowRows(g, p), cols, order[k]);
      assert (p / 2 + order[k] / cols) - p / 2 == order[k] / cols;
    }
    GreedyKeepsOrder(cands, p, key);
  }

  /** The returned centres are what the scan had kept when it stopped, and every window
      it passed over up to then overlaps one of them; when no positive number of patches
      is asked for, the scan runs to the end and this holds of every window. */
  lemma PatchCentersRejectedOverlap(g: Grid, p: int, numPatches: int, order: seq<nat>)
    requires p >= 1 && Fits(g, p)
    requires PatchCenters(g, p, numPatches, order).Ok?
    ensures var kept, cands := PatchCenters(g, p, numPatches, order).value, Candidates(g, p, order);
      exists m :: 0 <= m <= |order| && kept == Greedy(cands[..m], p)
        && (numPatches <= 0 ==> m == |order|)
        && forall k :: 0 <= k < m ==> OverlapsAny(cands[k], kept, p)
  {
    var cands := Candidates(g, p, order);
    var all := Greedy(cands, p);
    var kept := PatchCenters(g, p, numPatches, order).value;
    var m := |cands|;
    if 1 <= numPatches <= |all| {
      GreedyReachesCount(cands, p, numPatches);
      m :| 0 <= m <= |cands| && |Greedy(cands[..m], p)| == numPatches;
      GreedyPrefix(cands, p, m);
    }
    assert cands[..m][..m] == cands[..m];
    assert cands[..|cands|] == cands;
    assert kept == Greedy(cands[..m], p);
    GreedyMaximal(cands[..m], p);
    assert forall k :: 0 <= k < m ==> cands[..m][k] == cands[k];
  }

  /** The scan keeps one centre at a time, so every count up to the final one is reached
      after some prefix of the candidates. */
  lemma {:induction false} GreedyReachesCount(cands: seq<Point>, p: int, n: nat)
    requires n <= |Greedy(cands, p)|
    ensures exists m :: 0 <= m <= |cands| && |Greedy(cands[..m], p)| == n
    decreases |cands|
  {
    if n == |Greedy(cands, p)| {
      assert cands[..|cands|] == cands;
    } else {
      var k := |cands| - 1;
      GreedyStep(cands, p, k);
      assert cands[..k + 1] == cands;
      GreedyReachesCount(cands[..k], p, n);
      var m :| 0 <= m <= k && |Greedy(cands[..k][..m], p)| == n;
      assert cands[..k][..m] == cands[..m];
    }
  }

  /** Asking for one patch returns the centre of a brightest window. */
  lemma SinglePatchIsBrightest(g: Grid, p: int, order: seq<nat>)
    requires p >= 1 && Fits(g, p) && IsScanOrder(g, p, order)
    ensures |order| > 0
    ensures PatchCenters(g, p, 1, order) == Ok([Centre(order[0], WindowCols(g, p), p)])
    ensures forall i :: 0 <= i < |order| ==> Brightness(g, p)[i] <= Brightness(g, p)[order[0]]
  {
    assert 1 <= WindowRows(g, p) && 1 <= WindowCols(g, p);
    MulMonotone(1, WindowRows(g, p), WindowCols(g, p));
    var cands := Candidates(g, p, order);
    var first := Greedy(cands[..1], p);
    assert cands[..1][..0] == [];
    assert first == [cands[0]];
    GreedyPrefix(cands, p, 1);
    assert Greedy(cands, p)[..1] == first;
    ScanOrderStartsAtMaximum(g, p, order);
  }

  /** When one window is strictly brighter than every other, the scan starts there, and
      asking for one patch returns its centre whatever the order among the others. */
  lemma UniqueBrightestWindow(g: Grid, p: int, order: seq<nat>, w: nat)
    requires p >= 1 && Fits(g, p) && IsScanOrder(g, p, order)
    requires w < |Brightness(g, p)|
    requires forall i :: 0 <= i < |Brightness(g, p)| && i != w ==> Brightness(g, p)[i] < Brightness(g, p)[w]
    ensures |order| > 0 && order[0] == w
    ensures PatchCenters(g, p, 1, order) == Ok([Centre(w, WindowCols(g, p), p)])
  {
    SinglePatchIsBrightest(g, p, order);
  }

  /** When one window is strictly darker than every other, the scan visits it last. */
  lemma UniqueDarkestWindowLast(g: Grid, p: int, order: seq<nat>, w: nat)
    requires p >= 1 && Fits(g, p) && IsScanOrder(g, p, order)
    requires w < |Brightness(g, p)|
    requires forall i :: 0 <= i < |Brightness(g, p)| && i != w ==> Brightness(g, p)[w] < Brightness(g, p)[i]
    ensures |order| > 0 && order[|order| - 1] == w
  {
    var b := Brightness(g, p);
    assert w in order;
    var k :| 0 <= k < |order| && order[k] == w;
    var last := |order| - 1;
    // Scanned before the last window, `w` would have to be at least as bright as it.
    if k < last {
      assert false;
    }
  }

  lemma ScanOrderStartsAtMaximum(g: Grid, p: int, order: seq<nat>)
    requires p >= 1 && Fits(g, p) && IsScanOrder(g, p, order) && |order| > 0
    ensures forall i :: 0 <= i < |order| ==> Brightness(g, p)[i] <= Brightness(g, p)[order[0]]
  {
    var b := Brightness(g, p);
    forall i | 0 <= i < |b|
      ensures b[i] <= b[order[0]]
    {
      assert i in order;
      var k :| 0 <= k < |order| && order[k] == i;
      if k > 0 {
        assert b[order[0]] >= b[order[k]];
      }
    }
  }

  // ---------------------------------------------------------------------------
  // How many non-overlapping centres fit.

  /** `ceil(a / p)` for a positive `p`. */
  function CeilDiv(a: nat, p: nat): nat
    requires p >= 1
  {
    (a + p - 1) / p
  }

  lemma DivMonotone(a: int, b: int, p: int)
    requires 0 <= a <= b && p >= 1
    ensures a / p <= b / p
  {
    if a / p > b / p {
      MulMonotone(b / p + 1, a / p, p);
      assert false;
    }
  }

  /** Centres lying in a `rows`-by-`cols` box, no two overlapping, number at most one per
      `p`-by-`p` tile of the box. */
  lemma ApartCentresBound(s: seq<Point>, p: int, x0: int, y0: int, rows: nat, cols: nat)
    requires p >= 1 && PairwiseApart(s, p)
    requires forall j :: 0 <= j < |s| ==> x0 <= s[j].x < x0 + rows && y0 <= s[j].y < y0 + cols
    ensures |s| <= CeilDiv(rows, p) * CeilDiv(cols, p)
  {
    var tileRows, tileCols := CeilDiv(rows, p), CeilDiv(cols, p);
    var tiles := seq(|s|, j requires 0 <= j < |s| => ((s[j].x - x0) / p) * tileCols + (s[j].y - y0) / p);
    forall j | 0 <= j < |s|
      ensures 0 <= tiles[j] < tileRows * tileCols
    {
      TileInBox(s[j].x - x0, rows, p);
      TileInBox(s[j].y - y0, cols, p);
      CornerIsFlatIndex(tileRows, tileCols, (s[j].x - x0) / p, (s[j].y - y0) / p);
    }
    forall i, j | 0 <= i < j < |s|
      ensures tiles[i] != tiles[j]
    {
      ApartTilesDiffer(s[i], s[j], p, x0, y0, cols);
    }
    DistinctCount(tiles);
    BoundedSetSize((set t | t in tiles), tileRows * tileCols);
  }

  /** Centres that do not overlap lie in different tiles. */
  lemma ApartTilesDiffer(a: Point, b: Point, p: int, x0: int, y0: int, cols: nat)
    requires p >= 1 && !Overlaps(a, b, p)
    requires x0 <= a.x && x0 <= b.x && y0 <= a.y < y0 + cols && y0 <= b.y < y0 + cols
    ensures ((a.x - x0) / p) * CeilDiv(cols, p) + (a.y - y0) / p
         != ((b.x - x0) / p) * CeilDiv(cols, p) + (b.y - y0) / p
  {
    var tileCols := CeilDiv(cols, p);
    var ta := ((a.x - x0) / p) * tileCols + (a.y - y0) / p;
    var tb := ((b.x - x0) / p) * tileCols + (b.y - y0) / p;
    TileInBox(a.y - y0, cols, p);
    TileInBox(b.y - y0, cols, p);
    DivModUnique(ta, tileCols, (a.x - x0) / p, (a.y - y0) / p);
    DivModUnique(tb, tileCols, (b.x - x0) / p, (b.y - y0) / p);
    if (a.x - x0) / p == (b.x - x0) / p {
      SameTileClose(a.x - x0, b.x - x0, p);
      if (a.y - y0) / p == (b.y - y0) / p {
        SameTileClose(a.y - y0, b.y - y0, p);
      }
    }
  }

  lemma TileInBox(d: int, len: nat, p: int)
    requires 0 <= d < len && p >= 1
    ensures 0 <= d / p < CeilDiv(len, p)
  {
    DivMonotone(d, len - 1, p);
    DivModUnique(len - 1 + p, p, (len - 1) / p + 1, (len - 1) % p);
  }

  lemma SameTileClose(a: int, b: int, p: int)
    requires 0 <= a && 0 <= b && p >= 1 && a / p == b / p
    ensures Abs(a - b) < p
  {
  }

  /** A sequence without repeated elements has as many distinct elements as entries. */
  lemma {:induction false} DistinctCount(t: seq<int>)
    requires forall i, j :: 0 <= i < j < |t| ==> t[i] != t[j]
    ensures |set x | x in t| == |t|
    decreases |t|
  {
    if |t| > 0 {
      var n := |t| - 1;
      DistinctCount(t[..n]);
      assert (set x | x in t) == (set x | x in t[..n]) + {t[n]};
      assert t[n] !in (set x | x in t[..n]);
    }
  }

  /** A set of integers drawn from `[0, n)` has at most `n` elements. */
  lemma {:induction false} BoundedSetSize(s: set<int>, n: nat)
    requires forall x :: x in s ==> 0 <= x < n
    ensures |s| <= n
    decreases n
  {
    if n > 0 {
      BoundedSetSize(s - {n - 1}, n - 1);
    } else {
      assert forall x :: x !in s;
      assert s == {};
    }
  }

  /** Asking for more patches than there are `p`-by-`p` tiles over the window centres
      always raises the error, whatever the image holds. */
  lemma TooManyPatchesFail(g: Grid, p: int, numPatches: int, order: seq<nat>)
    requires p >= 1 && Fits(g, p) && IsScanOrder(g, p, order)
    requires numPatches > CeilDiv(WindowRows(g, p), p) * CeilDiv(WindowCols(g, p), p)
    ensures PatchCenters(g, p, numPatches, order) == Err(NotEnoughPatches(p, numPatches))
  {
    var cands := Candidates(g, p, order);
    var all := Greedy(cands, p);
    var rows, cols := WindowRows(g, p), WindowCols(g, p);
    GreedyApart(cands, p);
    GreedyMembers(cands, p);
    forall j | 0 <= j < |all|
      ensures p / 2 <= all[j].x < p / 2 + rows && p / 2 <= all[j].y < p / 2 + cols
    {
      var k :| 0 <= k < |cands| && cands[k] == all[j];
      FlatIndexIsCorner(rows, cols, order[k]);
    }
    ApartCentresBound(all, p, p / 2, p / 2, rows, cols);
  }

  // ---------------------------------------------------------------------------
  // The repository's test images.

  /** Ten 5-by-5 patches never fit in a 10-by-10 image. */
  lemma ExampleTenPatchesTooMany(g: Grid, order: seq<nat>)
    requires g.WellFormed() && g.height == 10 && g.width == 10
    requires IsScanOrder(g, 5, order)
    ensures PatchCenters(g, 5, 10, order) == Err(NotEnoughPatches(5, 10))
  {
    assert CeilDiv(WindowRows(g, 5), 5) == 2;
    TooManyPatchesFail(g, 5, 10, order);
  }

  /** A 5-by-5 image has one 5-by-5 window, centred at (2, 2). */
  lemma ExampleSingleWindow(g: Grid, order: seq<nat>)
    requires g.WellFormed() && g.height == 5 && g.width == 5
    requires IsScanOrder(g, 5, order)
    ensures PatchCenters(g, 5, 1, order) == Ok([Point(2, 2)])
  {
    SinglePatchIsBrightest(g, 5, order);
  }

  /** A 12-by-12 patch does not fit a 10-by-10 image. */
  lemma ExampleOversizedPatch(g: Grid, order: seq<nat>)
    requires g.WellFormed() && g.height == 10 && g.width == 10
    ensures PatchCenters(g, 12, 1, order) == Err(PatchLargerThanImage)
  {
  }

  /** The 5-by-10 test image: rows alternate between rising (`10, 20, ..., 100`) and
      falling (`100, 90, ..., 10`) samples, starting with a rising one. */
  predicate IsStripedImage(g: Grid)
  {
    g.WellFormed() && g.height == 5 && g.width == 10
    && forall r, c :: 0 <= r < 5 && 0 <= c < 10 ==>
         g.cells[r][c] == if r % 2 == 0 then 10 * (c + 1) else 100 - 10 * c
  }

  /** Each 5-sample run of a row of the striped image. */
  lemma StripedRowSum(g: Grid, r: int, c: int)
    requires IsStripedImage(g) && 0 <= r < 5 && 0 <= c <= 5
    ensures RowSum(g, r, c, 5) == if r % 2 == 0 then 50 * c + 150 else 400 - 50 * c
  {
    assert RowSum(g, r, c, 5) == Cell(g, r, c) + Cell(g, r, c + 1) + Cell(g, r, c + 2) + Cell(g, r, c + 3) + Cell(g, r, c + 4) by {
      assert RowSum(g, r, c, 5) == RowSum(g, r, c, 4) + Cell(g, r, c + 4);
      assert RowSum(g, r, c, 4) == RowSum(g, r, c, 3) + Cell(g, r, c + 3);
      assert RowSum(g, r, c, 3) == RowSum(g, r, c, 2) + Cell(g, r, c + 2);
      assert RowSum(g, r, c, 2) == RowSum(g, r, c, 1) + Cell(g, r, c + 1);
      assert RowSum(g, r, c, 1) == RowSum(g, r, c, 0) + Cell(g, r, c);
    }
  }

  /** The window starting at column `c` of the striped image sums to `1250 + 50 c`: every
      window is brighter than the one to its left. */
  lemma StripedWindowSum(g: Grid, c: int)
    requires IsStripedImage(g) && 0 <= c <= 5
    ensures WindowSum(g, 0, c, 5) == 1250 + 50 * c
  {
    StripedRowSum(g, 0, c);
    StripedRowSum(g, 1, c);
    StripedRowSum(g, 2, c);
    StripedRowSum(g, 3, c);
    StripedRowSum(g, 4, c);
    assert BlockSum(g, 0, c, 5, 5) == BlockSum(g, 0, c, 4, 5) + RowSum(g, 4, c, 5);
    assert BlockSum(g, 0, c, 4, 5) == BlockSum(g, 0, c, 3, 5) + RowSum(g, 3, c, 5);
    assert BlockSum(g, 0, c, 3, 5) == BlockSum(g, 0, c, 2, 5) + RowSum(g, 2, c, 5);
    assert BlockSum(g, 0, c, 2, 5) == BlockSum(g, 0, c, 1, 5) + RowSum(g, 1, c, 5);
    assert BlockSum(g, 0, c, 1, 5) == RowSum(g, 0, c, 5);
  }

  /** The striped image has one row of six windows, the mean of window `i` being
      `(1250 + 50 i) / 25`. */
  lemma StripedBrightness(g: Grid)
    requires IsStripedImage(g)
    ensures |Brightness(g, 5)| == 6
    ensures forall i :: 0 <= i < 6 ==> Brightness(g, 5)[i] * 25.0 == (1250 + 50 * i) as real
  {
    var b := Brightness(g, 5);
    forall i | 0 <= i < 6
      ensures b[i] * 25.0 == (1250 + 50 * i) as real
    {
      assert i / 6 == 0 && i % 6 == i;
      StripedWindowSum(g, i);
    }
  }

  /** Scanning the striped image visits the rightmost window first, the leftmost last, and
      the four between them in some order. */
  lemma StripedScanOrder(g: Grid, order: seq<nat>)
    requires IsStripedImage(g) && IsScanOrder(g, 5, order)
    ensures |order| == 6 && order[0] == 5 && order[5] == 0
    ensures forall k :: 1 <= k < 5 ==> 1 <= order[k] <= 4
  {
    StripedBrightness(g);
    UniqueBrightestWindow(g, 5, order, 5);
    UniqueDarkestWindowLast(g, 5, order, 0);
    forall k | 1 <= k < 5
      ensures 1 <= order[k] <= 4
    {
      assert order[k] != order[0] && order[k] != order[5];
    }
  }

  /** Six candidates on one line, the first at column 7, the last at column 2 and the others
      between. */
  predicate StripedCandidates(cands: seq<Point>)
  {
    |cands| == 6 && cands[0] == Point(2, 7) && cands[5] == Point(2, 2)
    && forall k :: 1 <= k < 5 ==> cands[k].x == 2 && 3 <= cands[k].y <= 6
  }

  /** Every candidate up to the fifth overlaps the first, so the greedy pass keeps only it. */
  lemma GreedyStripedPrefix(cands: seq<Point>, k: nat)
    requires StripedCandidates(cands) && 1 <= k <= 5
    ensures Greedy(cands[..k], 5) == [Point(2, 7)]
  {
    if k == 1 {
      assert cands[..0] == [];
      GreedyStep(cands, 5, 0);
    } else {
      GreedyStripedPrefix(cands, k - 1);
      GreedyStep(cands, 5, k - 1);
      assert Overlaps(cands[k - 1], [Point(2, 7)][0], 5);
    }
  }

  /** The greedy pass over the striped candidates keeps the first and the last. */
  lemma GreedyOnStripedCandidates(cands: seq<Point>)
    requires StripedCandidates(cands)
    ensures Greedy(cands, 5) == [Point(2, 7), Point(2, 2)]
  {
    GreedyStripedPrefix(cands, 5);
    GreedyStep(cands, 5, 5);
    assert !Overlaps(cands[5], Point(2, 7), 5);
    assert cands[..6] == cands;
  }

  /** Two 5-by-5 patches of the striped image: the brightest window, centred at (2, 7), then
      the leftmost, centred at (2, 2); every window between them overlaps the first. */
  lemma ExampleStripedTwoPatches(g: Grid, order: seq<nat>)
    requires IsStripedImage(g) && IsScanOrder(g, 5, order)
    ensures PatchCenters(g, 5, 2, order) == Ok([Point(2, 7), Point(2, 2)])
  {
    StripedScanOrder(g, order);
    assert Fits(g, 5) && WindowCols(g, 5) == 6;
    var cands := Candidates(g, 5, order);
    forall k | 0 <= k < 6
      ensures cands[k] == Point(2, order[k] + 2)
    {
    }
    GreedyOnStripedCandidates(cands);
    var all := Greedy(cands, 5);
    assert StopAt(all, 2) == all by {
      assert all[..2] == all;
    }
  }
}
