# deeplab-inference, modelled in Dafny

A Dafny model of the sliding-window inference core of `deeplab-inference`:

- the `Windowed.window` tiler that cuts an image into fixed-size crops;
- the max-merge stitcher that reassembles the per-crop probability maps;
- the 0.5 threshold of `InferenceResult` and the `np.round` of the
  command-line `inference` function;
- the `METRICS` list, the memoising `Metric.value` property, and the
  Matthews correlation coefficient on integer confusion counts;
- the diff-map palette and the 0/255 mask image of the output module;
- `respective_file`, which picks the output path for an input image.

The model network, image files and the file system are parameters. A
classifier is a function from a crop box to the probability grid the network
returns for it. An image is reduced to its width and height. "Is a
directory" and the guessed MIME type are given as inputs.

Modules, one file each:

| module | file | models |
|---|---|---|
| `Wrappers` | wrappers.dfy | `Option` and `Result` |
| `ImageUtil` | image_util.dfy | `Box`, `Windowed` and the generator, one loop iteration at a time |
| `WindowLayout` | window_layout.dfy | closed form of the generator's output when the crop fits the image |
| `Stitching` | stitching.dfy | `np.zeros`, slice assignment, `np.maximum` and the stitching loop |
| `Metrics` | metrics.dfy | `METRICS`, `Metric.value`, the MCC computation |
| `Inference` | inference.dfy | `InferenceResult` and `InferenceEngine.run` |
| `App` | app.dfy | the `inference` function and `main` of app.py: rounding, the directory fan-out, and the call on line 36 that raises |
| `Output` | output.dfy | `diffmap2image` palette and `mask2image` scaling |
| `Utils` | utils.dfy | `respective_file` with pathlib's stem and suffix rules |

Quirks of the code that the model reproduces:

- **Overlap is never checked.** With `overlap >= crop_size` the stride is not
  positive, and on an image of any size the generator is still running after
  any number of steps (`ImageUtil.NonPositiveStrideNeverStops`). With
  `overlap == crop_size` on an image at least as large as the crop, the first
  state steps to itself (`ImageUtil.ZeroStrideNeverStops`). No error is raised.
- **The first box is never clamped.** It is always `(0, 0, crop, crop)`. On an
  image smaller than the crop, later boxes are re-anchored to a negative
  offset (`ImageUtil.NarrowImageGoesNegative`), and the stitch fails under the
  exact-fit merge of `Stitching.Merge` (`Inference.RunFailsOnSmallImage`).
- **The last row can be emitted twice.** On an image at least as large as the
  crop, with a positive stride, this happens exactly when `height - crop` is a
  multiple of the stride, including `height == crop`
  (`WindowLayout.WindowRepeatsLastRow`, `WindowLayout.WindowDistinctIff`).
  The duplicate costs one extra network call per crop of that row. It does
  not change the stitched map (`Stitching.StitchDuplicateTile`).
- **The app rounds instead of thresholding.** app.py uses `np.round`, which
  rounds half to even, where the engine thresholds at 0.5. On probabilities
  in [0, 1] the two agree (`App.RoundMapIsThreshold`, `App.AppMatchesEngine`).
- **Every `inference` call raises.** Line 36 of app.py passes three
  arguments to the two-parameter `write` of output.py. A call that gets
  through the stitching loop raises a `TypeError` there, before anything is
  written (without `--visualize-progress`; with it, line 30 raises first);
  a call on an image smaller than the crop raises earlier, in the loop
  (`App.InferenceCall`, `App.LargeImageReachesWrite`). So `main` stops after
  its first job (`App.Main`), and `App.Jobs` lists the calls `main` would
  make if `inference` returned.
- **The MCC does not check the mask shapes.** numpy broadcasts two masks
  whose dimensions are pairwise equal or 1. The true counts are then taken
  over the broadcast product, but the false counts subtract them from counts
  over the segmentation alone, so they can be negative. The coefficient can
  leave [-1, 1] (`Metrics.BroadcastOutOfRange`), and `sqrt` can raise on a
  negative product (`Metrics.BroadcastSqrtDomain`). On masks of one shape the
  code agrees with `Metrics.Calculate` (`Metrics.BroadcastSameShape`), which
  rejects masks of different shapes.

## Model

| member | source | states |
|---|---|---|
| ImageUtil.Start | mt_inference/image_util.py:24-25 | the generator starts at the unclamped top-left crop `(0, 0, crop, crop)`, not on the last row |
| ImageUtil.Step | mt_inference/image_util.py:32-60 | one loop iteration keeps the crop size; every box after the first ends within the image; it stops only on the last row, and then at the bottom-right corner; a reachable state steps to a reachable state |
| ImageUtil.Tiles | mt_inference/image_util.py:27-60 | from any reachable state the generator ends when the stride is positive; every box is crop-sized; boxes after the first end within the image; the last box sits in the bottom-right corner |
| ImageUtil.Window | mt_inference/image_util.py:23-60 | the whole yielded sequence starts at `(0, 0, crop, crop)`, is crop-sized throughout and ends in the bottom-right corner |
| ImageUtil.TilesCover | mt_inference/image_util.py:27-60 | every pixel still ahead of the cursor is covered by a later box |
| ImageUtil.WindowCovers | mt_inference/image_util.py:23-60 | with `0 <= overlap < crop`, every pixel of the image lies in some yielded box |
| ImageUtil.TilesInImage | mt_inference/image_util.py:48-60 | when the crop fits the image, re-anchoring keeps every later box inside the image |
| ImageUtil.WindowInImage | mt_inference/image_util.py:23-60 | when the crop fits the image, every yielded box lies inside it |
| ImageUtil.NarrowImageGoesNegative | mt_inference/image_util.py:51-52 | on an image narrower than the crop, the second box has left edge `width - crop < 0` |
| ImageUtil.ShallowImageGoesNegative | mt_inference/image_util.py:53-60 | on an image lower than the crop, the second box has upper edge `height - crop < 0` |
| ImageUtil.TilesRowOrder | mt_inference/image_util.py:32-52 | from a state inside the width, boxes stay within the width; a row ends exactly at the box flush right, and the next box starts at column 0 |
| ImageUtil.WindowRowOrder | mt_inference/image_util.py:32-52 | within a row the left edge strictly increases, so no column repeats; after the flush-right box the next row starts at 0 |
| ImageUtil.ZeroStrideNeverStops | mt_inference/image_util.py:10-13 | on an image at least as large as the crop, overlap equal to the crop size (accepted by the constructor) makes the first state step to itself, so the generator never ends |
| ImageUtil.NonPositiveStrideRuns | mt_inference/image_util.py:32-60 | with a non-positive stride, a crop-sized state whose lower edge is inside the image steps to another such state, so any number of steps never stops |
| ImageUtil.NonPositiveStrideNeverStops | mt_inference/image_util.py:10-60 | with any overlap at least the crop size, on an image of any size, the generator has not ended after any number of steps |
| WindowLayout.StepAlongLayout | mt_inference/image_util.py:32-60 | one generator step moves from row r, column j of the closed-form layout to the next position, and stops after the last one |
| WindowLayout.TilesFollowLayout | mt_inference/image_util.py:27-60 | from layout position i the generator yields exactly the rest of the layout |
| WindowLayout.WindowIsLayout | mt_inference/image_util.py:23-60 | when the crop fits, the yielded sequence equals the row-major layout of `Rows * Columns` boxes |
| WindowLayout.LastRowsCoincide | mt_inference/image_util.py:32-60 | on an image at least as large as the crop, with a positive stride, there are at least two rows, and the last two rows start at the same height iff `(height - crop) % stride == 0` |
| WindowLayout.WindowRepeatsLastRow | mt_inference/image_util.py:53-60 | on an image at least as large as the crop, with a positive stride, the final row of boxes repeats the row before it iff `(height - crop) % stride == 0` |
| WindowLayout.LayoutDistinct | mt_inference/image_util.py:32-60 | on an image at least as large as the crop, with a positive stride, when `(height - crop) % stride != 0` any two layout positions hold different boxes |
| WindowLayout.WindowDistinctIff | mt_inference/image_util.py:23-60 | on an image at least as large as the crop, with a positive stride, no box is yielded twice iff `(height - crop) % stride != 0` |
| Stitching.Zeros | mt_inference/inference.py:44 | `np.zeros((height, width))` has that shape and all cells 0 |
| Stitching.Embed | mt_inference/inference.py:49-50 | the full-size map holds the tile's cell inside its box and 0 elsewhere |
| Stitching.Maximum | mt_inference/inference.py:52 | the element-wise maximum is at least both inputs and equals one of them at each cell |
| Stitching.Merge | mt_inference/inference.py:47-52 | one loop iteration succeeds iff the tile has the shape of its in-bounds box; inside the box each cell becomes the max of old and tile; outside it cells are unchanged; cells never decrease |
| Stitching.StitchIntoCells | mt_inference/inference.py:46-52 | the loop from any non-negative map succeeds iff every tile fits, and then each cell is the max of its start value and every tile's contribution |
| Stitching.StitchInto | mt_inference/inference.py:46-52 | the loop from any running map completes iff every tile fits its box, and keeps the map's shape |
| Stitching.Stitch | mt_inference/inference.py:44-52 | the stitched map exists iff every tile fits; then it is non-negative, `height x width`, and each cell is the reference `CellMax` of the contributions |
| Stitching.CellMaxBounds | mt_inference/inference.py:52 | the stitched value bounds every contribution and is 0 or one of them |
| Stitching.CellMaxSameTiles | mt_inference/inference.py:46-52 | the per-cell value depends only on which tiles occur |
| Stitching.StitchOrderIndependent | mt_inference/inference.py:46-52 | stitching any reordering or repetition of the same tiles gives the same outcome |
| Stitching.StitchDuplicateTile | mt_inference/inference.py:46-52 | merging a tile again (the repeated last row) changes nothing |
| Stitching.StitchInUnitRange | mt_inference/inference.py:44-52 | tiles of probabilities in [0, 1] stitch into a map in [0, 1] |
| Metrics.MetricsListed | mt_inference/metrics.py:93-99 | `METRICS` lists every metric class exactly once, under pairwise different names |
| Metrics.ReadValue | mt_inference/metrics.py:19-23 | one read computes iff the cache is empty or holds 0, always leaves its result cached, and returns the calculated value when the cache agrees with it |
| Metrics.ReadsFrom | mt_inference/metrics.py:19-23 | repeated reads from an agreeing cache all return the calculated value; with 0 every read recomputes, otherwise a filled cache is never recomputed |
| Metrics.ValueMemo | mt_inference/metrics.py:17-23 | from a fresh object, n reads return the calculated value n times and compute it once, or n times when it is 0 |
| Metrics.CountsPartition | mt_inference/metrics.py:79-82 | the four cell classes partition the cells, and the predicted and not-predicted totals split into them |
| Metrics.CountPositive | mt_inference/metrics.py:79-82 | a count is positive iff some cell is of that class |
| Metrics.Count | mt_inference/metrics.py:76-82 | the subtraction formulas for false positives and negatives count the cells predicted-but-absent and present-but-unpredicted; the counts are non-negative and sum to the cell count |
| Metrics.CountSwap | mt_inference/metrics.py:76-82 | swapping the masks exchanges false positives and false negatives |
| Metrics.MccNumeratorBound | mt_inference/metrics.py:84-85 | the squared numerator never exceeds the squared denominator |
| Metrics.MccOf | mt_inference/metrics.py:84-90 | the result is the degenerate 0 iff some marginal total is 0; otherwise it lies in [-1, 1] |
| Metrics.MccSymmetric | mt_inference/metrics.py:76-90 | the coefficient is symmetric in ground truth and segmentation |
| Metrics.MccOfPerfect | mt_inference/metrics.py:84-90 | no false positives or negatives with both classes present gives exactly 1 |
| Metrics.MccOfInverted | mt_inference/metrics.py:84-90 | no true positives or negatives with both classes present gives exactly -1 |
| Metrics.MccPerfectAgreement | mt_inference/metrics.py:75-90 | a mask against itself, with both classes present, scores exactly 1 |
| Metrics.MccComplement | mt_inference/metrics.py:75-90 | a mask against its complement, with both classes present, scores exactly -1 |
| Metrics.Calculate | mt_inference/metrics.py:75-90 | the computation succeeds iff the masks have the same shape; the counts are non-negative and cover every cell; the coefficient lies in [-1, 1] |
| Metrics.CalculateCountsPixels | mt_inference/metrics.py:76-82 | for `h x w` masks the four counts add up to `h * w` |
| Metrics.Stretch | mt_inference/metrics.py:79-80 | broadcasting to `bh x bw` repeats a dimension of size 1 and keeps any other |
| Metrics.PredictedCounts | mt_inference/metrics.py:81-82 | over one mask, the predicted cells number `count_nonzero(sm)` and the others the rest |
| Metrics.BroadcastCells | mt_inference/metrics.py:79-80 | the cells of the two masks stretched to their broadcast shape have the broadcast size |
| Metrics.CountsOver | mt_inference/metrics.py:79-82 | true counts over the stretched cells; the false counts are `count_nonzero(seg_map)` (or its complement) less the true ones, so each falls short of its stretched count by what stretching added |
| Metrics.BroadcastCounts | mt_inference/metrics.py:79-82 | true positives and negatives count the broadcast cells; each false count falls short of its broadcast count by exactly the set (or clear) cells that stretching added to the segmentation |
| Metrics.StretchedRowsAddCells | mt_inference/metrics.py:79-81 | a one-row segmentation with a set cell, stretched to several rows, has more set cells than `count_nonzero(sm)` |
| Metrics.BroadcastRowsUndercount | mt_inference/metrics.py:79-81 | for every one-row segmentation with a set cell against a ground truth of several non-empty rows, the false positives fall below the broadcast count of cells predicted but absent |
| Metrics.MccChecked | mt_inference/metrics.py:84-90 | `sqrt` raises iff the product of the marginal totals is negative, never on non-negative counts; otherwise the result is the coefficient of `MccOf` |
| Metrics.CalculateBroadcast | mt_inference/metrics.py:75-90 | the code as written raises a shape error iff some pair of dimensions differs with neither being 1; `sqrt` raises iff the shapes combine and the product of the broadcast counts' marginals is negative; otherwise the result holds the broadcast counts and their `MccOf` coefficient |
| Metrics.BroadcastCountsSameShape | mt_inference/metrics.py:79-82 | on masks of one shape the broadcast counts are the plain counts |
| Metrics.BroadcastSameShape | mt_inference/metrics.py:75-90 | on masks of one shape the code as written gives exactly the result of `Calculate` |
| Metrics.BroadcastOutOfRange | mt_inference/metrics.py:75-90 | ground truth `[[1,0],[1,0]]` against segmentation `[[1,0]]` gives counts (2, 2, -1, -1) and coefficient 3, outside [-1, 1] |
| Metrics.BroadcastSqrtDomain | mt_inference/metrics.py:75-90 | an empty 2 x 2 ground truth against `[[1,0]]` makes `sqrt` of -3 raise |
| Inference.DefaultWindowed | mt_inference/image_util.py:10-13 | the default crop 512 and overlap 50 give stride 462, so the default generator ends |
| Inference.Segment | mt_inference/inference.py:19 | the segmentation has the map's shape, is binary, and is 1 exactly where the probability exceeds the threshold |
| Inference.SegmentIdempotent | mt_inference/inference.py:19 | thresholding a segmentation again at any threshold in [0, 1) returns it unchanged |
| Inference.SegmentMonotone | mt_inference/inference.py:19 | a higher threshold never sets a pixel that a lower one leaves clear |
| Inference.MakeResult | mt_inference/inference.py:12-19 | the result keeps the path and map, and its segmentation is the map thresholded |
| Inference.MetricsFor | mt_inference/inference.py:27-28 | one fresh metric per `METRICS` class, in order, so each class occurs exactly once, all over the given ground truth and this segmentation |
| Inference.Run | mt_inference/inference.py:40-59 | the run fails iff some crop output does not fit its box; otherwise the map is non-negative and image-shaped and the segmentation thresholds it at 0.5 |
| Inference.RunSucceeds | mt_inference/inference.py:40-59 | when the crop fits the image and the network returns crop-sized outputs, the run succeeds |
| Inference.RunFailsOnSmallImage | mt_inference/inference.py:46-50 | on an image narrower or lower than the crop, the run fails whatever the network returns, under the exact-fit merge of `Stitching.Merge` |
| Inference.RunSegmentation | mt_inference/inference.py:46-59 | a pixel is segmented iff some crop's output there exceeds 0.5, and its probability is at least every crop's output there |
| Inference.RunConfident | mt_inference/inference.py:40-59 | a network confident above 0.5 everywhere yields that confidence at every pixel and a fully set segmentation |
| Inference.DefaultConfident | mt_inference/inference.py:40-59 | with the default crop 512 and overlap 50, on an image at least as large as the crop, such a network sets every pixel |
| App.RoundHalfEven | app.py:32 | the rounded value is within 1/2 of the input, and even on a tie |
| App.RoundUnique | app.py:32 | any integer with those two properties is the rounded value |
| App.RoundExamples | app.py:32 | 0.5 rounds to 0, 1.5 and 2.5 to 2, -0.5 to 0, 1.7 to 2 |
| App.RoundProbability | app.py:32 | a probability rounds to 0 or 1, and to 1 exactly above 0.5 |
| App.RoundMap | app.py:32 | `np.round` keeps the map's shape and puts each cell within 1/2 of its probability, on an even integer at a tie |
| App.RoundMapIsThreshold | app.py:32 | on a map in [0, 1], rounding equals the engine's 0.5 threshold |
| App.RoundMapAboveOne | app.py:32 | outside [0, 1] rounding is not binary: 1.7 gives 2 |
| App.AppInference | app.py:19-32 | the app's loop fails iff some crop output does not fit; otherwise the map is image-shaped |
| App.AppMatchesEngine | app.py:19-32 | with outputs in [0, 1] the app and the engine succeed together and agree on the map and the segmentation |
| App.DirectoryJobs | app.py:70-77 | every image file in the directory is run, only image files are run, never with a ground truth |
| App.Jobs | app.py:70-81 | a directory input runs its image files without ground truth; any other input runs once with the given ground truth |
| App.DirectoryJobsOnlyImages | app.py:70-77 | a directory without image files runs nothing; every entry is run iff all entries are image files |
| App.SmallImageFails | app.py:17-25 | on an image narrower or lower than the default crop, the stitching loop fails |
| App.InferenceCall | app.py:13-36 | no call returns: with `visualize_progress` off, it raises in the stitching loop, or else at line 36, and it reaches line 36 iff the loop completes; a small image raises in the loop |
| App.LargeImageReachesWrite | app.py:17-36 | on an image at least as large as the default crop, with crop-sized model outputs and without `--visualize-progress`, the call raises at line 36 |
| App.RunJobs | app.py:70-81 | the started jobs are a prefix of the jobs; the run completes iff every call returns; otherwise it ends with the exception of the last started job, and every earlier job returned |
| App.Main | app.py:49-81 | `main` as written starts the first of its jobs, if there is one, and no other, and raises iff there is a job |
| Output.DiffPalette | mt_inference/output.py:14-25 | the palette has 768 bytes: index 63 is red, 127 blue, 255 white, every other index black |
| Output.Uint8 | mt_inference/output.py:32 | the `uint8` cast wraps modulo 256 and keeps bytes unchanged |
| Output.MaskToImage | mt_inference/output.py:31-32 | the image has the mask's shape and byte values; 0 maps to 0 and 1 to 255 |
| Output.MaskImageRoundTrip | mt_inference/output.py:32 | a binary mask is recovered from its image by dividing by 255 |
| Output.TruthOfImage | mt_inference/output.py:32 | an 8-bit mask and its image mark the same pixels as set |
| Output.MaskToImageWraps | mt_inference/output.py:32 | the 8-bit product wraps: a cell of 2 becomes 254 |
| Utils.LastDot | mt_inference/utils.py:18 | the position found is the last dot of the name, or -1 when there is none |
| Utils.Suffix | mt_inference/utils.py:18 | a suffix is empty, or a dot followed by at least one dot-free character |
| Utils.StemAndSuffix | mt_inference/utils.py:16-18 | a name is its stem followed by its suffix, and the stem is empty only for an empty name |
| Utils.RespectiveFile | mt_inference/utils.py:5-24 | no `other` gives no path; a directory gets, without warning, the file named by the input's stem and `"." + extension` joined onto it, one part deeper; a file path is returned unchanged, with a warning iff its lower-cased suffix differs from `"." + extension` |
| Utils.RespectiveFileInDirectory | mt_inference/utils.py:13-16 | the file created in a directory has the input's stem and the suffix `"." + extension` |
| Utils.RespectiveFileStable | mt_inference/utils.py:13-24 | that file, passed back in as a file, is kept and draws no warning when the extension is lower case |
| Utils.RespectiveFileCaseInsensitive | mt_inference/utils.py:18 | a `.PNG` file matches the default `png` extension without warning |
| Utils.UpperCaseExtensionAlwaysWarns | mt_inference/utils.py:13-22 | an extension containing an upper-case letter makes every file path draw the warning |

## Left out

- The TensorFlow network (model.py) is not part of this model. The
  classifier is a function parameter from crop box to probability grid, and
  image content is not modelled.
- PIL is not modelled: opening, cropping (padding beyond the image), palette
  images, `putpalette`, saving PNG files. `write` and `save_image` refuse or
  perform file output; that is I/O and is not modelled.
- The keras metrics (MIoU, Accuracy, Precision, Recall) are not modelled:
  their `_calculate` calls into TensorFlow. The classes appear only as
  `METRICS` entries with their names.
- `__str__` of a metric formats a float and is not modelled.
- Metrics.MccOf: gives the numerator and the squared denominator, not the
  float `numerator / sqrt(denominator)`. Floating-point rounding of the
  square root and the division are not modelled.
- Metrics.ReadValue: the value `_calculate` returns is a parameter, a real
  number. The model does not call any metric's computation through the
  cache.
- The pseudocolor palette of `mask2image` (matplotlib's plasma colour map)
  and its global lazily-filled cache are not modelled.
- `typer.echo` and `typer.secho` messages and `vis_segmentation` are not
  modelled. (With `--visualize-progress`, the direct call at app.py:30 passes
  two arguments to the three-parameter `vis_segmentation`, so it raises too.)
- Inference.Run: requires a positive stride, because with `overlap >= crop`
  the generator never ends (`ImageUtil.NonPositiveStrideNeverStops`).
  App.AppInference carries the same requirement.
- Stitching.Merge: numpy's out-of-range slicing (clamping to the array, or
  negative offsets counting from the end) and broadcasting are not modelled.
  A tile that does not exactly fill an in-bounds box counts as a failed
  assignment. In numpy a few degenerate shapes (for example a 1x1 crop output
  broadcast into a slice) succeed instead.
- Inference.Run and App.AppInference: the two stitching loops are modelled
  once, over real numbers. float64 rounding is not modelled.
- Inference.Run: as written, `mt_inference.inference` cannot be imported.
  Line 8 imports `SlidingWindow` from image_util.py, which defines only
  `Windowed`. Line 46 also iterates the window object itself, and `Windowed`
  defines no `__iter__`. The engine is modelled on the evident intent: a
  `Windowed` object and its `window()` generator.
- app.py calls `metrics.IoUMetric`, which metrics.py does not define. The
  ground-truth branch of app.py's `inference` comes after line 36, which
  always raises, so it is not modelled beyond passing the ground truth along
  in `App.Jobs`.
- App.DirectoryJobs: the jobs are the calls `main` would make if `inference`
  returned. Line 36 of app.py makes every call raise, so as written only the
  first image is started (`App.Main`). `mimetypes.guess_type` and `is_file`
  are inputs (the `Entry` fields), because they query a table and the file
  system.
- App.Jobs: lists the calls `main` would make if `inference` returned; as
  written `main` stops after the first of them (`App.Main`).
- App.DirectoryJobsOnlyImages: speaks of the calls `main` would make if
  `inference` returned; as written at most one image file is started.
- App.InferenceCall: the image size and the model are parameters per path,
  because opening the image and running the network are I/O.
- App.InferenceCall: takes the default `visualize_progress=False`. With
  `--visualize-progress`, app.py:30 raises a `TypeError` right after the first
  tile is merged, before line 36, where the model answers `WriteArity`; the
  same holds for App.LargeImageReachesWrite. App.Main is unaffected: the
  call raises either way.
- Inference.RunFailsOnSmallImage: holds under the exact-fit merge of
  Stitching.Merge. In numpy, a network whose outputs match the clamped slices
  (for example 400 x 512 for the first box on a 400-high image) stitches
  without error.
- Metrics.Calculate: rejects masks of different shapes. The code as written
  broadcasts them instead, and is modelled separately as
  `Metrics.CalculateBroadcast`; numpy's broadcasting is modelled for
  two-dimensional masks only.
- Utils.RespectiveFile: `is_dir()` is an input, because it queries the file
  system.
- Utils.Lower: ASCII lower-casing only. Python's Unicode `str.lower` is not
  modelled.
- The command-line option parsing of `main` is not modelled. It checks that
  the paths exist and are readable.
- Aggregating metrics over several images is not modelled.

## Findings

| source | as written | input that shows it | evidently intended | confidence | as-written member | corrected member |
|---|---|---|---|---|---|---|
| app.py:36 | `write_output(output, seg_map, input)` passes three arguments to `write(output, image)` of output.py, which raises `TypeError` | any image at least 512 x 512 with a model returning crop-sized maps, without `--visualize-progress` | the segmentation is written and `main` goes on to the next image | high, not executed | App.LargeImageReachesWrite | App.Jobs |
| mt_inference/metrics.py:79-82 | true counts over the broadcast product, false counts subtracted from counts over `seg_map` alone | ground truth `[[1,0],[1,0]]`, segmentation `[[1,0]]`: counts (2, 2, -1, -1), coefficient 3.0 | masks of one shape, non-negative counts, coefficient in [-1, 1] | medium, not executed | Metrics.BroadcastOutOfRange | Metrics.Calculate |
