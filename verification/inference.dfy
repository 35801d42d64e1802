/**
 * The inference engine: `InferenceEngine.run` tiles the image, classifies
 * every crop, stitches the outputs into a probability map and wraps it in an
 * `InferenceResult`, whose segmentation is the map thresholded at 0.5 and
 * whose `metrics` method builds one metric object per entry of `METRICS`.
 * The model is a parameter: a function from a crop box to the probability
 * grid it returns for that crop.
 */
module Inference {
  import opened Wrappers
  import opened ImageUtil
  import opened Stitching
  import opened Metrics

  /** Default arguments of `Windowed` and `InferenceResult`. */
  const DefaultCropSize: int := 512
  const DefaultOverlap: int := 50
  const DefaultThreshold: real := 0.5

  /** `Windowed(path)` for an image of the given size, with default crop size
      and overlap; the stride is positive, so its generator ends. */
  function DefaultWindowed(width: nat, height: nat): (t: Windowed)
    ensures t.width == width && t.height == height
    ensures t.Stride() == 462 && 0 <= t.overlap < t.cropSize
  {
    Windowed(width, height, DefaultCropSize, DefaultOverlap)
  }

  /** `(prob_map > threshold).astype(np.uint8)`: a binary mask of the same
      shape, set exactly where the probability exceeds the threshold. */
  function Segment(p: Grid, threshold: real): (s: Mask)
    ensures |s| == |p| && forall i :: 0 <= i < |p| ==> |s[i]| == |p[i]|
    ensures Binary(s)
    ensures forall i, j :: 0 <= i < |p| && 0 <= j < |p[i]| ==> (s[i][j] == 1 <==> p[i][j] > threshold)
  {
    seq(|p|, i requires 0 <= i < |p| =>
      seq(|p[i]|, j requires 0 <= j < |p[i]| => if p[i][j] > threshold then 1 else 0))
  }

  /** A mask read back as a probability grid (`astype(float)`). */
  function AsGrid(m: Mask): (g: Grid)
    ensures |g| == |m| && forall i :: 0 <= i < |m| ==> |g[i]| == |m[i]|
    ensures forall i, j :: 0 <= i < |m| && 0 <= j < |m[i]| ==> g[i][j] == m[i][j] as real
  {
    seq(|m|, i requires 0 <= i < |m| => seq(|m[i]|, j requires 0 <= j < |m[i]| => m[i][j] as real))
  }

  /** Thresholding a segmentation again, at any threshold in [0, 1), gives it
      back unchanged. */
  lemma SegmentIdempotent(p: Grid, threshold: real)
    requires 0.0 <= threshold < 1.0
    ensures Segment(AsGrid(Segment(p, threshold)), threshold) == Segment(p, threshold)
  {
    var s := Segment(p, threshold);
    var s2 := Segment(AsGrid(s), threshold);
    assert forall i :: 0 <= i < |s| ==> s2[i] == s[i];
  }

  /** A higher threshold never sets a pixel that a lower one leaves clear. */
  lemma SegmentMonotone(p: Grid, low: real, high: real, i: int, j: int)
    requires low <= high && 0 <= i < |p| && 0 <= j < |p[i]|
    ensures Segment(p, high)[i][j] <= Segment(p, low)[i][j]
  {
  }

  /** The result of one inference run. */
  datatype InferenceResult = InferenceResult(inputPath: string, probability: Grid, segmentation: Mask)

  /** `InferenceResult.__init__`: the segmentation is derived from the map. */
  function MakeResult(path: string, p: Grid, threshold: real): (r: InferenceResult)
    ensures r.inputPath == path && r.probability == p
    ensures |r.segmentation| == |p| && Binary(r.segmentation)
    ensures forall i :: 0 <= i < |p| ==> |r.segmentation[i]| == |p[i]|
    ensures forall i, j :: 0 <= i < |p| && 0 <= j < |p[i]| ==>
      (r.segmentation[i][j] == 1 <==> p[i][j] > threshold)
  {
    InferenceResult(path, p, Segment(p, threshold))
  }

  /** The classes of a list of metric objects, in order. */
  function KindsOf(ms: seq<Metric>): (ks: seq<MetricKind>)
    ensures |ks| == |ms| && forall i :: 0 <= i < |ms| ==> ks[i] == ms[i].kind
  {
    seq(|ms|, i requires 0 <= i < |ms| => ms[i].kind)
  }

  /** `InferenceResult.metrics`: one fresh metric object per class of
      `METRICS`, in that order, each over the given ground truth and this
      result's segmentation; so every class occurs, exactly once. */
  function MetricsFor(r: InferenceResult, groundTruth: Mask): (ms: seq<Metric>)
    ensures KindsOf(ms) == METRICS
    ensures forall k: MetricKind :: k in KindsOf(ms)
    ensures forall i, j :: 0 <= i < j < |ms| ==> ms[i].kind != ms[j].kind
    ensures forall i :: 0 <= i < |ms| ==>
      && ms[i].groundTruth == groundTruth
      && ms[i].segMap == r.segmentation
      && ms[i].memo.cached.None?
  {
    MetricsListed();
    var ms := seq(|METRICS|, i requires 0 <= i < |METRICS| => Metric(METRICS[i], groundTruth, r.segmentation, Memo(None)));
    assert KindsOf(ms) == METRICS;
    ms
  }

  /** The model's `run`, applied to the crop at a box. */
  type Classifier = Box -> Grid

  /** Each box paired with the classifier's output for its crop. */
  function Classify(boxes: seq<Box>, classify: Classifier): (tiles: seq<TileOutput>)
    ensures |tiles| == |boxes|
    ensures forall k :: 0 <= k < |boxes| ==>
      tiles[k].box == boxes[k] && tiles[k].probabilities == classify(boxes[k])
  {
    seq(|boxes|, k requires 0 <= k < |boxes| => TileOutput(boxes[k], classify(boxes[k])))
  }

  /** The tiles `run` stitches for a tiler and a classifier. */
  function RunTiles(t: Windowed, classify: Classifier): seq<TileOutput>
    requires t.Stride() > 0
  {
    Classify(Window(t), classify)
  }

  /**
   * `InferenceEngine.run`. It fails when a crop's output cannot be placed at
   * its box; otherwise the probability map has the image's shape and values
   * at least 0, and the segmentation thresholds it at the default 0.5.
   * A non-positive stride is excluded: the generator then never ends.
   */
  function Run(path: string, t: Windowed, classify: Classifier): (r: Result<InferenceResult, StitchError>)
    requires t.Stride() > 0 && t.width >= 0 && t.height >= 0
    ensures r.Ok? <==> AllFit(t.height, t.width, RunTiles(t, classify))
    ensures r.Ok? ==>
      && r.value.inputPath == path
      && Shaped(r.value.probability, t.height, t.width)
      && NonNegative(r.value.probability)
      && r.value.segmentation == Segment(r.value.probability, DefaultThreshold)
  {
    match Stitch(t.height, t.width, RunTiles(t, classify))
    case Err(e) => Err(e)
    case Ok(p) => Ok(MakeResult(path, p, DefaultThreshold))
  }

  /** A classifier that returns a crop-sized grid for every crop-sized box. */
  ghost predicate CropShaped(t: Windowed, classify: Classifier) {
    forall b :: CropSized(t, b) ==> Shaped(classify(b), t.cropSize, t.cropSize)
  }

  /** On an image at least as large as the crop, a classifier producing
      crop-sized outputs never makes `run` fail. */
  lemma RunSucceeds(path: string, t: Windowed, classify: Classifier)
    requires t.Stride() > 0 && t.cropSize <= t.width && t.cropSize <= t.height
    requires CropShaped(t, classify)
    ensures t.width >= 0 && t.height >= 0
    ensures Run(path, t, classify).Ok?
  {
    WindowInImage(t);
    var boxes := Window(t);
    var tiles := RunTiles(t, classify);
    assert Window(t)[0] == Box(0, 0, t.cropSize, t.cropSize);
    forall k | 0 <= k < |tiles| ensures FitsIn(t.height, t.width, tiles[k].box, tiles[k].probabilities) {
      assert tiles[k].box == boxes[k] && InImage(t, boxes[k]) && CropSized(t, boxes[k]);
    }
  }

  /** An image narrower or lower than the crop makes `run` fail, whatever the
      classifier returns: the first box is never clamped and overhangs it. */
  lemma RunFailsOnSmallImage(path: string, t: Windowed, classify: Classifier)
    requires t.Stride() > 0 && t.width >= 0 && t.height >= 0
    requires t.width < t.cropSize || t.height < t.cropSize
    ensures Run(path, t, classify).Err?
  {
    var tiles := RunTiles(t, classify);
    assert tiles[0].box == Box(0, 0, t.cropSize, t.cropSize);
    assert !FitsIn(t.height, t.width, tiles[0].box, tiles[0].probabilities);
  }

  /**
   * Max-merge semantics of a successful run: a pixel is segmented exactly when
   * some crop's output exceeds 0.5 at that pixel, and its probability is at
   * least every crop's output there.
   */
  lemma RunSegmentation(path: string, t: Windowed, classify: Classifier, i: int, j: int)
    requires t.Stride() > 0 && t.width >= 0 && t.height >= 0
    requires Run(path, t, classify).Ok?
    requires 0 <= i < t.height && 0 <= j < t.width
    ensures var r, tiles := Run(path, t, classify).value, RunTiles(t, classify);
      && (r.segmentation[i][j] == 1 <==>
            exists k :: 0 <= k < |tiles| && Contribution(tiles[k], i, j) > DefaultThreshold)
      && forall k :: 0 <= k < |tiles| ==> r.probability[i][j] >= Contribution(tiles[k], i, j)
  {
    var tiles := RunTiles(t, classify);
    var p := Stitch(t.height, t.width, tiles).value;
    assert Run(path, t, classify).value.probability == p;
    assert p[i][j] == CellMax(tiles, i, j);
    CellMaxBounds(tiles, i, j);
    if CellMax(tiles, i, j) > DefaultThreshold {
      var k :| 0 <= k < |tiles| && CellMax(tiles, i, j) == Contribution(tiles[k], i, j);
      assert Contribution(tiles[k], i, j) > DefaultThreshold;
    }
  }

  /** A crop-sized grid holding v everywhere. */
  function Constant(size: nat, v: real): (g: Grid)
    ensures Shaped(g, size, size)
    ensures forall i, j :: 0 <= i < size && 0 <= j < size ==> g[i][j] == v
  {
    seq(size, _ => seq(size, _ => v))
  }

  /** The stitched value at a pixel where every contribution is 0 or v, and
      at least one is v > 0, is v. */
  lemma CellMaxOfConstant(tiles: seq<TileOutput>, i: int, j: int, v: real, k: int)
    requires v > 0.0 && 0 <= k < |tiles| && Contribution(tiles[k], i, j) == v
    requires forall m :: 0 <= m < |tiles| ==>
      Contribution(tiles[m], i, j) == 0.0 || Contribution(tiles[m], i, j) == v
    ensures CellMax(tiles, i, j) == v
  {
    CellMaxBounds(tiles, i, j);
  }

  /** One pixel of the confident run below. */
  lemma ConfidentPixel(t: Windowed, v: real, classify: Classifier, i: int, j: int)
    requires 0 <= t.overlap < t.cropSize && t.cropSize <= t.width && t.cropSize <= t.height
    requires v > 0.0 && forall b :: classify(b) == Constant(t.cropSize, v)
    requires 0 <= i < t.height && 0 <= j < t.width
    ensures CellMax(RunTiles(t, classify), i, j) == v
  {
    var tiles := RunTiles(t, classify);
    WindowInImage(t);
    WindowCovers(t, j, i);
    var k :| 0 <= k < |Window(t)| && Covers(Window(t)[k], j, i);
    assert tiles[k].box == Window(t)[k];
    forall m | 0 <= m < |tiles|
      ensures Contribution(tiles[m], i, j) == 0.0 || Contribution(tiles[m], i, j) == v
    {
      assert tiles[m].probabilities == Constant(t.cropSize, v);
      assert tiles[m].box == Window(t)[m] && CropSized(t, Window(t)[m]);
    }
    CellMaxOfConstant(tiles, i, j, v, k);
  }

  /**
   * End to end on an image at least as large as the crop, with a model that
   * is confident (above 0.5) everywhere: the run succeeds, every pixel's
   * probability is that confidence and the whole image is segmented.
   */
  lemma RunConfident(path: string, t: Windowed, v: real)
    requires 0 <= t.overlap < t.cropSize && t.cropSize <= t.width && t.cropSize <= t.height
    requires v > DefaultThreshold
    ensures Run(path, t, _ => Constant(t.cropSize, v)).Ok?
    ensures var r := Run(path, t, _ => Constant(t.cropSize, v)).value;
      forall i, j :: 0 <= i < t.height && 0 <= j < t.width ==>
        r.probability[i][j] == v && r.segmentation[i][j] == 1
  {
    var classify: Classifier := _ => Constant(t.cropSize, v);
    RunSucceeds(path, t, classify);
    var tiles := RunTiles(t, classify);
    var r := Run(path, t, classify).value;
    var p := Stitch(t.height, t.width, tiles).value;
    assert r.probability == p;
    forall i, j | 0 <= i < t.height && 0 <= j < t.width
      ensures r.probability[i][j] == v && r.segmentation[i][j] == 1
    {
      ConfidentPixel(t, v, classify, i, j);
    }
  }

  /** With the default crop size and overlap, an image at least as large as
      the crop and a model that is everywhere confident give an
      all-foreground segmentation. */
  lemma DefaultConfident(path: string, width: nat, height: nat, v: real)
    requires DefaultCropSize <= width && DefaultCropSize <= height && v > DefaultThreshold
    ensures var t := DefaultWindowed(width, height);
      && Run(path, t, _ => Constant(t.cropSize, v)).Ok?
      && var r := Run(path, t, _ => Constant(t.cropSize, v)).value;
        forall i, j :: 0 <= i < height && 0 <= j < width ==> r.segmentation[i][j] == 1
  {
    RunConfident(path, DefaultWindowed(width, height), v);
  }
}
