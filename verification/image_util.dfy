/**
 * The sliding-window tiler of the inference package: the `Box` record and the
 * `Windowed.window` generator. The generator is modelled by the state it keeps
 * between two `yield`s (the box just emitted and the last-row flag) and by one
 * iteration of its loop as a pure step function; the image itself is reduced
 * to its width and height.
 */
module ImageUtil {
  import opened Wrappers

  /** A crop rectangle in pixel coordinates; `right` and `lower` are exclusive. */
  datatype Box = Box(left: int, upper: int, right: int, lower: int)

  /** A tiler over an image of the given size, with its crop size and overlap. */
  datatype Windowed = Windowed(width: int, height: int, cropSize: int, overlap: int)
  {
    /** Distance between the origins of two consecutive crops. */
    function Stride(): int {
      cropSize - overlap
    }
  }

  /** What the generator remembers between two `yield`s. */
  datatype Cursor = Cursor(box: Box, lastRow: bool)

  /** Pixel (x, y) lies inside box b. */
  predicate Covers(b: Box, x: int, y: int) {
    b.left <= x < b.right && b.upper <= y < b.lower
  }

  /** The box has the fixed crop size in both directions. */
  predicate CropSized(t: Windowed, b: Box) {
    b.right - b.left == t.cropSize && b.lower - b.upper == t.cropSize
  }

  /** The box lies inside the image. */
  predicate InImage(t: Windowed, b: Box) {
    0 <= b.left && b.right <= t.width && 0 <= b.upper && b.lower <= t.height
  }

  /** Cursors the generator can reach: a crop-sized box, and once the last row
      has started, a box flush with the bottom edge. */
  predicate Valid(t: Windowed, c: Cursor) {
    CropSized(t, c.box) && (c.lastRow ==> c.box.lower == t.height)
  }

  /** The state before the first `yield`: the top-left crop, never clamped. */
  function Start(t: Windowed): (c: Cursor)
    ensures Valid(t, c) && !c.lastRow
    ensures c.box.left == 0 && c.box.upper == 0
  {
    Cursor(Box(0, 0, t.cropSize, t.cropSize), false)
  }

  /**
   * One pass through the loop body after a box was yielded: move right by one
   * stride, or back to column 0 one stride lower once the box touched the right
   * edge; re-anchor an overshooting box against the right or bottom edge; and
   * stop (`None`, the `break`) when the box overshoots the bottom a second time.
   */
  function Step(t: Windowed, c: Cursor): (r: Option<Cursor>)
    ensures r.Some? ==> CropSized(t, r.value.box)
    ensures r.Some? ==> r.value.box.right <= t.width && r.value.box.lower <= t.height
    ensures r.None? ==> c.lastRow
    ensures Valid(t, c) && r.None? ==> c.box.right == t.width && c.box.lower == t.height
    ensures Valid(t, c) && t.Stride() > 0 && r.Some? ==> Valid(t, r.value)
  {
    var b := c.box;
    var moved :=
      if b.right == t.width then b.(left := 0, upper := b.upper + t.Stride())
      else b.(left := b.left + t.Stride());
    var sized := moved.(right := moved.left + t.cropSize, lower := moved.upper + t.cropSize);
    var fitted :=
      if sized.right > t.width then sized.(left := t.width - t.cropSize, right := t.width)
      else sized;
    if fitted.lower > t.height then
      if c.lastRow then None
      else Some(Cursor(fitted.(upper := t.height - t.cropSize, lower := t.height), true))
    else Some(Cursor(fitted, c.lastRow))
  }

  // Termination measure of the generator, compared lexicographically: the
  // last-row flag, then the rows left below the box, then the columns left.

  function Phase(c: Cursor): nat {
    if c.lastRow then 0 else 1
  }

  function RowsLeft(t: Windowed, c: Cursor): nat {
    if c.box.lower < t.height then t.height - c.box.lower else 0
  }

  function ColumnsLeft(t: Windowed, c: Cursor): nat {
    if c.box.right == t.width then 0
    else if c.box.right < t.width then t.width - c.box.right + 1
    else 1
  }

  /** Every box the generator yields from cursor `c` on, in order. */
  function Tiles(t: Windowed, c: Cursor): (boxes: seq<Box>)
    requires t.Stride() > 0 && Valid(t, c)
    ensures |boxes| >= 1 && boxes[0] == c.box
    ensures forall i :: 0 <= i < |boxes| ==> CropSized(t, boxes[i])
    ensures forall i :: 0 < i < |boxes| ==> boxes[i].right <= t.width && boxes[i].lower <= t.height
    ensures boxes[|boxes| - 1].right == t.width && boxes[|boxes| - 1].lower == t.height
    decreases Phase(c), RowsLeft(t, c), ColumnsLeft(t, c)
  {
    match Step(t, c)
    case None => [c.box]
    case Some(next) => [c.box] + Tiles(t, next)
  }

  /**
   * The whole sequence `Windowed.window` yields. It is finite whenever the
   * stride is positive; every box has the crop size, and the last one sits in
   * the bottom-right corner of the image.
   */
  function Window(t: Windowed): (boxes: seq<Box>)
    requires t.Stride() > 0
    ensures |boxes| >= 1 && boxes[0] == Box(0, 0, t.cropSize, t.cropSize)
    ensures forall i :: 0 <= i < |boxes| ==> CropSized(t, boxes[i])
    ensures boxes[|boxes| - 1].right == t.width && boxes[|boxes| - 1].lower == t.height
  {
    Tiles(t, Start(t))
  }

  /** The pixels still to be covered when the generator is at cursor `c`:
      everything below the current row, and the rest of the current row. */
  predicate Pending(c: Cursor, x: int, y: int) {
    y >= c.box.lower || (y >= c.box.upper && x >= c.box.left)
  }

  lemma {:induction false} TilesCover(t: Windowed, c: Cursor, x: int, y: int)
    requires 0 <= t.overlap < t.cropSize && Valid(t, c)
    requires 0 <= x < t.width && 0 <= y < t.height && Pending(c, x, y)
    ensures exists i :: 0 <= i < |Tiles(t, c)| && Covers(Tiles(t, c)[i], x, y)
    decreases Phase(c), RowsLeft(t, c), ColumnsLeft(t, c)
  {
    var boxes := Tiles(t, c);
    if Covers(c.box, x, y) {
      assert Covers(boxes[0], x, y);
    } else {
      var next := Step(t, c);
      assert next.Some?;
      assert Pending(next.value, x, y);
      TilesCover(t, next.value, x, y);
      var rest := Tiles(t, next.value);
      var i :| 0 <= i < |rest| && Covers(rest[i], x, y);
      assert boxes[i + 1] == rest[i];
    }
  }

  /** Coverage: with a non-negative overlap smaller than the crop, every pixel
      of the image lies in at least one yielded box. */
  lemma WindowCovers(t: Windowed, x: int, y: int)
    requires 0 <= t.overlap < t.cropSize
    requires 0 <= x < t.width && 0 <= y < t.height
    ensures exists i :: 0 <= i < |Window(t)| && Covers(Window(t)[i], x, y)
  {
    assert Pending(Start(t), x, y);
    TilesCover(t, Start(t), x, y);
    assert Window(t) == Tiles(t, Start(t));
  }

  lemma {:induction false} TilesInImage(t: Windowed, c: Cursor)
    requires t.Stride() > 0 && Valid(t, c) && InImage(t, c.box)
    requires t.cropSize <= t.width && t.cropSize <= t.height
    ensures forall i :: 0 <= i < |Tiles(t, c)| ==> InImage(t, Tiles(t, c)[i])
    decreases Phase(c), RowsLeft(t, c), ColumnsLeft(t, c)
  {
    var boxes := Tiles(t, c);
    match Step(t, c)
    case None =>
    case Some(next) =>
      TilesInImage(t, next);
      assert forall i :: 1 <= i < |boxes| ==> boxes[i] == Tiles(t, next)[i - 1];
  }

  /** When the image is at least as large as the crop, every yielded box lies
      inside the image. */
  lemma WindowInImage(t: Windowed)
    requires t.Stride() > 0 && t.cropSize <= t.width && t.cropSize <= t.height
    ensures forall i :: 0 <= i < |Window(t)| ==> InImage(t, Window(t)[i])
  {
    TilesInImage(t, Start(t));
  }

  /** An image narrower than the crop: the second box is re-anchored to the
      right edge, which puts its left edge at a negative offset. */
  lemma NarrowImageGoesNegative(t: Windowed)
    requires t.Stride() > 0 && t.width < t.cropSize
    ensures |Window(t)| >= 2
    ensures Window(t)[1].left == t.width - t.cropSize < 0
    ensures Window(t)[1].right == t.width
  {
    var next := Step(t, Start(t));
    assert next.Some? && next.value.box.left == t.width - t.cropSize;
    assert Window(t) == [Start(t).box] + Tiles(t, next.value);
  }

  /** An image lower than the crop: the second box is re-anchored to the
      bottom edge, which puts its upper edge at a negative offset. */
  lemma ShallowImageGoesNegative(t: Windowed)
    requires t.Stride() > 0 && t.height < t.cropSize
    ensures |Window(t)| >= 2
    ensures Window(t)[1].upper == t.height - t.cropSize < 0
    ensures Window(t)[1].lower == t.height
  {
    var next := Step(t, Start(t));
    assert next.Some? && next.value.box.upper == t.height - t.cropSize;
    assert Window(t) == [Start(t).box] + Tiles(t, next.value);
  }

  lemma {:induction false} TilesRowOrder(t: Windowed, c: Cursor)
    requires t.Stride() > 0 && Valid(t, c) && t.cropSize <= t.width
    requires 0 <= c.box.left && c.box.right <= t.width
    ensures forall i :: 0 <= i < |Tiles(t, c)| ==>
      0 <= Tiles(t, c)[i].left && Tiles(t, c)[i].right <= t.width
    ensures forall i :: 0 <= i < |Tiles(t, c)| - 1 ==>
      if Tiles(t, c)[i].right == t.width then Tiles(t, c)[i + 1].left == 0
      else Tiles(t, c)[i].left < Tiles(t, c)[i + 1].left
    decreases Phase(c), RowsLeft(t, c), ColumnsLeft(t, c)
  {
    var boxes := Tiles(t, c);
    match Step(t, c)
    case None =>
    case Some(next) =>
      TilesRowOrder(t, next);
      assert forall i :: 1 <= i < |boxes| ==> boxes[i] == Tiles(t, next)[i - 1];
  }

  /**
   * Row structure for an image at least as wide as the crop: within a row the
   * left edge strictly increases, so no column repeats, and a row ends exactly
   * at the box flush with the right edge, after which the next box starts at
   * column 0.
   */
  lemma WindowRowOrder(t: Windowed)
    requires t.Stride() > 0 && t.cropSize <= t.width
    ensures forall i :: 0 <= i < |Window(t)| ==>
      0 <= Window(t)[i].left && Window(t)[i].right <= t.width
    ensures forall i :: 0 <= i < |Window(t)| - 1 ==>
      if Window(t)[i].right == t.width then Window(t)[i + 1].left == 0
      else Window(t)[i].left < Window(t)[i + 1].left
  {
    TilesRowOrder(t, Start(t));
  }

  /** With an overlap equal to the crop size the stride is 0 and nothing moves:
      on an image at least as large as the crop, the first state steps to
      itself. */
  lemma ZeroStrideNeverStops(t: Windowed)
    requires t.overlap == t.cropSize && t.cropSize <= t.width && t.cropSize <= t.height
    ensures Step(t, Start(t)) == Some(Start(t))
  {
  }

  /** The state after n passes through the loop body, or `None` once it broke out. */
  function StepN(t: Windowed, c: Cursor, n: nat): Option<Cursor>
    decreases n
  {
    if n == 0 then Some(c)
    else match Step(t, c)
      case None => None
      case Some(next) => StepN(t, next, n - 1)
  }

  /** Without a positive stride a box never moves down, so a crop-sized box
      that ends within the image is followed by another one. */
  lemma NonPositiveStrideStep(t: Windowed, c: Cursor)
    requires t.Stride() <= 0 && CropSized(t, c.box) && c.box.lower <= t.height
    ensures Step(t, c).Some?
    ensures CropSized(t, Step(t, c).value.box) && Step(t, c).value.box.lower <= t.height
  {
  }

  lemma {:induction false} NonPositiveStrideRuns(t: Windowed, c: Cursor, n: nat)
    requires t.Stride() <= 0 && CropSized(t, c.box) && c.box.lower <= t.height
    ensures StepN(t, c, n).Some?
    decreases n
  {
    if n > 0 {
      NonPositiveStrideStep(t, c);
      NonPositiveStrideRuns(t, Step(t, c).value, n - 1);
    }
  }

  /**
   * With an overlap at least as large as the crop, the generator never ends,
   * whatever the image size: after any number of passes through the loop it
   * has not broken out. The constructor does not reject such an overlap.
   */
  lemma {:induction false} NonPositiveStrideNeverStops(t: Windowed, n: nat)
    requires t.overlap >= t.cropSize
    ensures StepN(t, Start(t), n).Some?
  {
    if n > 0 {
      var next := Step(t, Start(t));
      assert next.Some? && next.value.box.lower <= t.height;
      NonPositiveStrideRuns(t, next.value, n - 1);
    }
  }
}
