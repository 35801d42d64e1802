/**
 * The command-line entry points: the `inference` function, which stitches
 * like the engine but segments with `np.round`, and `main`, which runs it on
 * one image or on every image file of a directory.
 */
module App {
  import opened Wrappers
  import opened ImageUtil
  import opened Stitching
  import opened Metrics
  import opened Inference

  function Abs(x: real): real {
    if x < 0.0 then -x else x
  }

  /** `np.round` on one value: the nearest integer, ties going to the even
      neighbour. */
  function RoundHalfEven(x: real): (n: int)
    ensures Abs(x - n as real) <= 0.5
    ensures Abs(x - n as real) == 0.5 ==> n % 2 == 0
  {
    var f := x.Floor;
    var frac := x - f as real;
    if frac < 0.5 then f
    else if frac > 0.5 then f + 1
    else if f % 2 == 0 then f else f + 1
  }

  /** Those two properties pin the rounded value down: no other integer is as
      close with an even tie-break. */
  lemma RoundUnique(x: real, n: int)
    requires Abs(x - n as real) <= 0.5
    requires Abs(x - n as real) == 0.5 ==> n % 2 == 0
    ensures n == RoundHalfEven(x)
  {
  }

  lemma RoundExamples()
    ensures RoundHalfEven(0.5) == 0 && RoundHalfEven(1.5) == 2 && RoundHalfEven(2.5) == 2
    ensures RoundHalfEven(-0.5) == 0 && RoundHalfEven(0.49) == 0 && RoundHalfEven(1.7) == 2
  {
    RoundUnique(0.5, 0);
    RoundUnique(1.5, 2);
    RoundUnique(2.5, 2);
    RoundUnique(-0.5, 0);
    RoundUnique(0.49, 0);
    RoundUnique(1.7, 2);
  }

  /** On a probability, rounding gives 0 or 1, and 1 exactly above 0.5. */
  lemma RoundProbability(x: real)
    requires 0.0 <= x <= 1.0
    ensures RoundHalfEven(x) == 0 || RoundHalfEven(x) == 1
    ensures RoundHalfEven(x) == 1 <==> x > 0.5
  {
    if x == 1.0 {
      RoundUnique(x, 1);
    }
  }

  /** `np.round(prob_map)`, cell by cell. */
  function RoundMap(p: Grid): (s: Mask)
    ensures |s| == |p| && forall i :: 0 <= i < |p| ==> |s[i]| == |p[i]|
    ensures forall i, j :: 0 <= i < |p| && 0 <= j < |p[i]| ==>
      Abs(p[i][j] - s[i][j] as real) <= 0.5
    ensures forall i, j :: 0 <= i < |p| && 0 <= j < |p[i]| && Abs(p[i][j] - s[i][j] as real) == 0.5 ==>
      s[i][j] % 2 == 0
  {
    seq(|p|, i requires 0 <= i < |p| =>
      seq(|p[i]|, j requires 0 <= j < |p[i]| => RoundHalfEven(p[i][j])))
  }

  /** On probabilities, rounding and the engine's 0.5 threshold agree. */
  lemma RoundMapIsThreshold(p: Grid)
    requires InUnitRange(p)
    ensures RoundMap(p) == Segment(p, DefaultThreshold)
  {
    var r, s := RoundMap(p), Segment(p, DefaultThreshold);
    forall i | 0 <= i < |p| ensures r[i] == s[i] {
      forall j | 0 <= j < |p[i]| ensures r[i][j] == s[i][j] {
        RoundProbability(p[i][j]);
      }
    }
  }

  /** Outside [0, 1] rounding does not give a binary mask. */
  lemma RoundMapAboveOne()
    ensures RoundMap([[1.7]]) == [[2]]
    ensures !Binary(RoundMap([[1.7]]))
  {
    RoundExamples();
    var s := RoundMap([[1.7]]);
    assert [[1.7]][0][0] == 1.7;
    assert s[0][0] == 2;
    assert s[0] == [2];
  }

  /** The app's `inference`: the engine's stitching loop, then `np.round`. */
  function AppInference(t: Windowed, classify: Classifier): (r: Result<(Grid, Mask), StitchError>)
    requires t.Stride() > 0 && t.width >= 0 && t.height >= 0
    ensures r.Ok? <==> AllFit(t.height, t.width, RunTiles(t, classify))
    ensures r.Ok? ==> Shaped(r.value.0, t.height, t.width) && |r.value.1| == t.height
  {
    match Stitch(t.height, t.width, RunTiles(t, classify))
    case Err(e) => Err(e)
    case Ok(p) => Ok((p, RoundMap(p)))
  }

  /** A classifier whose every output is a probability. */
  ghost predicate Probabilities(classify: Classifier) {
    forall b :: InUnitRange(classify(b))
  }

  /** With a classifier that outputs probabilities, the app and the engine
      agree: both succeed or both fail, on the same probability map and the
      same segmentation. */
  lemma AppMatchesEngine(path: string, t: Windowed, classify: Classifier)
    requires t.Stride() > 0 && t.width >= 0 && t.height >= 0
    requires Probabilities(classify)
    ensures AppInference(t, classify).Ok? <==> Run(path, t, classify).Ok?
    ensures AppInference(t, classify).Ok? ==>
      && AppInference(t, classify).value.0 == Run(path, t, classify).value.probability
      && AppInference(t, classify).value.1 == Run(path, t, classify).value.segmentation
  {
    var tiles := RunTiles(t, classify);
    if Stitch(t.height, t.width, tiles).Ok? {
      forall k | 0 <= k < |tiles| ensures InUnitRange(tiles[k].probabilities) {
        assert tiles[k].probabilities == classify(Window(t)[k]);
      }
      StitchInUnitRange(t.height, t.width, tiles);
      RoundMapIsThreshold(Stitch(t.height, t.width, tiles).value);
    }
  }

  // ---------------------------------------------------------------------------
  // `main`

  /** A directory entry: its path, whether it is a regular file, and the MIME
      type `mimetypes.guess_type` reports for it, if any. */
  datatype Entry = Entry(path: string, isFile: bool, mimeType: Option<string>)

  /** One call of `inference`: the image and the ground truth passed along. */
  datatype Job = Job(path: string, groundTruth: Option<string>)

  predicate IsImage(e: Entry) {
    e.isFile && e.mimeType.Some? && "image/" <= e.mimeType.value
  }

  /** The directory branch of `main`: one job per image file, in listing
      order, never with a ground truth. */
  function DirectoryJobs(children: seq<Entry>): (jobs: seq<Job>)
    ensures |jobs| <= |children|
    ensures forall e :: e in children && IsImage(e) ==> Job(e.path, None) in jobs
    ensures forall j :: j in jobs ==> j.groundTruth.None? && exists e :: e in children && IsImage(e) && e.path == j.path
    decreases |children|
  {
    if |children| == 0 then []
    else
      var rest := DirectoryJobs(children[1..]);
      assert forall e :: e in children[1..] ==> e in children;
      if IsImage(children[0]) then [Job(children[0].path, None)] + rest else rest
  }

  /**
   * `main`: a directory input runs every image file in it and drops the
   * ground truth; any other input runs once, with the ground truth given.
   */
  function Jobs(input: string, inputIsDir: bool, children: seq<Entry>, groundTruth: Option<string>): (jobs: seq<Job>)
    ensures !inputIsDir ==> |jobs| == 1 && jobs[0].path == input && jobs[0].groundTruth == groundTruth
    ensures inputIsDir ==> forall j :: j in jobs ==> j.groundTruth.None?
    ensures inputIsDir ==> forall e :: e in children ==> (IsImage(e) ==> Job(e.path, None) in jobs)
  {
    if inputIsDir then DirectoryJobs(children) else [Job(input, groundTruth)]
  }

  /** A directory without image files runs nothing, and an entry that is not
      an image file is never run. */
  lemma {:induction false} DirectoryJobsOnlyImages(children: seq<Entry>)
    ensures (forall e :: e in children ==> !IsImage(e)) ==> DirectoryJobs(children) == []
    ensures |DirectoryJobs(children)| == |children| <==> forall e :: e in children ==> IsImage(e)
    decreases |children|
  {
    if |children| > 0 {
      DirectoryJobsOnlyImages(children[1..]);
      assert forall e :: e in children <==> e == children[0] || e in children[1..];
    }
  }

  // ---------------------------------------------------------------------------
  // What `main` does as written

  /** The exception that ends a call of `inference`. */
  datatype AppError =
    | Stitching(cause: StitchError)  // a crop output that does not fit its slice
    | WriteArity                     // `write_output(output, seg_map, input)`

  /** An image smaller than the default crop fails in the stitching loop. */
  lemma SmallImageFails(width: nat, height: nat, classify: Classifier)
    ensures width < DefaultCropSize || height < DefaultCropSize ==>
      AppInference(DefaultWindowed(width, height), classify).Err?
  {
    if width < DefaultCropSize || height < DefaultCropSize {
      RunFailsOnSmallImage("", DefaultWindowed(width, height), classify);
    }
  }

  /**
   * One call of `inference` as written, on an image with the default crop
   * size and overlap: the stitching loop either raises on a crop that does not
   * fit, or completes and then calls the two-parameter `write` of output.py
   * with three arguments, which raises before anything is written. No call
   * returns.
   */
  function InferenceCall(width: nat, height: nat, classify: Classifier): (r: Option<AppError>)
    ensures r.Some?
    ensures r == Some(WriteArity) <==> AppInference(DefaultWindowed(width, height), classify).Ok?
    ensures width < DefaultCropSize || height < DefaultCropSize ==> r.value.Stitching?
  {
    var t := DefaultWindowed(width, height);
    SmallImageFails(width, height, classify);
    match AppInference(t, classify)
    case Err(e) => Some(Stitching(e))
    case Ok(_) => Some(WriteArity)
  }

  /** On an image at least as large as the default crop and with a model
      producing crop-sized outputs, the call reaches line 36 and raises there. */
  lemma LargeImageReachesWrite(width: nat, height: nat, classify: Classifier)
    requires DefaultCropSize <= width && DefaultCropSize <= height
    requires CropShaped(DefaultWindowed(width, height), classify)
    ensures InferenceCall(width, height, classify) == Some(WriteArity)
  {
    RunSucceeds("", DefaultWindowed(width, height), classify);
  }

  /**
   * `main`'s calls in order, each on an image of the size `size` reports and
   * with the classifier `classify` gives for it: the jobs started and the
   * exception, if any, that ended the run. An exception propagates out of
   * `main`, so no job after it starts.
   */
  function RunJobs(jobs: seq<Job>, call: Job -> Option<AppError>): (r: (seq<Job>, Option<AppError>))
    ensures r.0 <= jobs
    ensures r.1.None? <==> r.0 == jobs && forall k :: 0 <= k < |jobs| ==> call(jobs[k]).None?
    ensures r.1.Some? ==> |r.0| > 0 && r.1 == call(r.0[|r.0| - 1])
    ensures forall k :: 0 <= k < |r.0| - 1 ==> call(r.0[k]).None?
    decreases |jobs|
  {
    if |jobs| == 0 then ([], None)
    else match call(jobs[0])
      case Some(e) => ([jobs[0]], Some(e))
      case None =>
        var (started, raised) := RunJobs(jobs[1..], call);
        assert forall k :: 1 <= k < |jobs| ==> jobs[k] == jobs[1..][k - 1];
        ([jobs[0]] + started, raised)
  }

  /**
   * `main` as written: the jobs of `Jobs`, each a call of `inference`. Since
   * every call raises, `main` starts exactly one job when there is any and
   * then raises: a directory run stops after its first image file, whatever
   * the image or the model.
   */
  function Main(input: string, inputIsDir: bool, children: seq<Entry>, groundTruth: Option<string>,
                size: string -> (nat, nat), classify: string -> Classifier): (r: (seq<Job>, Option<AppError>))
    ensures var jobs := Jobs(input, inputIsDir, children, groundTruth);
      && r.0 == jobs[..if |jobs| == 0 then 0 else 1]
      && (r.1.Some? <==> |jobs| > 0)
  {
    var jobs := Jobs(input, inputIsDir, children, groundTruth);
    var call := (j: Job) => InferenceCall(size(j.path).0, size(j.path).1, classify(j.path));
    assert |jobs| > 0 ==>
      call(jobs[0]) == InferenceCall(size(jobs[0].path).0, size(jobs[0].path).1, classify(jobs[0].path));
    RunJobs(jobs, call)
  }
}
