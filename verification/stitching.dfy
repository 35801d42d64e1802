/**
 * The max-merge stitcher shared by `InferenceEngine.run` and the command-line
 * `inference` function: a full-size probability map starts at zero and every
 * tile's output is embedded at its box into an otherwise-zero map, which is
 * then combined with the running map by element-wise maximum.
 */
module Stitching {
  import opened Wrappers
  import opened ImageUtil

  /** A dense 2-D array, rows first (numpy's `(height, width)` order). */
  type Grid = seq<seq<real>>

  /** A classifier output together with the box it was computed for. */
  datatype TileOutput = TileOutput(box: Box, probabilities: Grid)

  /** The slice assignment of a tile into the full map fails. */
  datatype StitchError = ShapeMismatch

  predicate Shaped(g: Grid, h: int, w: int) {
    |g| == h && forall i :: 0 <= i < |g| ==> |g[i]| == w
  }

  predicate NonNegative(g: Grid) {
    forall i, j :: 0 <= i < |g| && 0 <= j < |g[i]| ==> g[i][j] >= 0.0
  }

  predicate InUnitRange(g: Grid) {
    forall i, j :: 0 <= i < |g| && 0 <= j < |g[i]| ==> 0.0 <= g[i][j] <= 1.0
  }

  function Max(a: real, b: real): real {
    if a >= b then a else b
  }

  /** `np.zeros((height, width))`. */
  function Zeros(h: nat, w: nat): (g: Grid)
    ensures Shaped(g, h, w) && NonNegative(g)
    ensures forall i, j :: 0 <= i < h && 0 <= j < w ==> g[i][j] == 0.0
  {
    seq(h, _ => seq(w, _ => 0.0))
  }

  /** The slice `[upper:lower, left:right]` lies inside an h x w map and has
      exactly the tile's shape, so the slice assignment succeeds. */
  predicate FitsIn(h: int, w: int, b: Box, tile: Grid) {
    && 0 <= b.upper <= b.lower <= h
    && 0 <= b.left <= b.right <= w
    && Shaped(tile, b.lower - b.upper, b.right - b.left)
  }

  /** What a tile contributes at row i, column j of the full map: its own cell
      inside its box, 0 elsewhere. */
  function Contribution(t: TileOutput, i: int, j: int): real {
    var b := t.box;
    if b.upper <= i < b.lower && b.left <= j < b.right
       && i - b.upper < |t.probabilities| && j - b.left < |t.probabilities[i - b.upper]|
    then t.probabilities[i - b.upper][j - b.left]
    else 0.0
  }

  /** `crop_map_full`: an h x w map holding the tile at its box and 0 elsewhere. */
  function Embed(h: nat, w: nat, t: TileOutput): (full: Grid)
    ensures Shaped(full, h, w)
    ensures forall i, j :: 0 <= i < h && 0 <= j < w ==> full[i][j] == Contribution(t, i, j)
  {
    seq(h, i => seq(w, j => Contribution(t, i, j)))
  }

  /** `np.maximum` of two maps of the same shape. */
  function Maximum(a: Grid, b: Grid, h: nat, w: nat): (m: Grid)
    requires Shaped(a, h, w) && Shaped(b, h, w)
    ensures Shaped(m, h, w)
    ensures forall i, j :: 0 <= i < h && 0 <= j < w ==> m[i][j] >= a[i][j] && m[i][j] >= b[i][j]
    ensures forall i, j :: 0 <= i < h && 0 <= j < w ==> m[i][j] == a[i][j] || m[i][j] == b[i][j]
  {
    seq(h, i requires 0 <= i < h => seq(w, j requires 0 <= j < w => Max(a[i][j], b[i][j])))
  }

  /**
   * One iteration of the stitching loop: embed the tile at its box and take
   * the element-wise maximum with the running map. Fails when the tile does
   * not have the shape of the box's slice.
   */
  function Merge(g: Grid, h: nat, w: nat, t: TileOutput): (r: Result<Grid, StitchError>)
    requires Shaped(g, h, w)
    ensures r.Ok? <==> FitsIn(h, w, t.box, t.probabilities)
    ensures r.Ok? ==> Shaped(r.value, h, w)
    ensures r.Ok? ==> forall i, j :: 0 <= i < h && 0 <= j < w ==>
      r.value[i][j] == Max(g[i][j], Contribution(t, i, j))
    ensures r.Ok? ==> forall i, j :: 0 <= i < h && 0 <= j < w ==> r.value[i][j] >= g[i][j]
    ensures r.Ok? ==> forall i, j :: 0 <= i < h && 0 <= j < w && Covers(t.box, j, i) ==>
      r.value[i][j] == Max(g[i][j], t.probabilities[i - t.box.upper][j - t.box.left])
    ensures r.Ok? ==> forall i, j :: 0 <= i < h && 0 <= j < w && !Covers(t.box, j, i) && g[i][j] >= 0.0 ==>
      r.value[i][j] == g[i][j]
    ensures r.Ok? && NonNegative(g) ==> NonNegative(r.value)
  {
    if !FitsIn(h, w, t.box, t.probabilities) then Err(ShapeMismatch)
    else
      var m := Maximum(g, Embed(h, w, t), h, w);
      Ok(m)
  }

  /** The stitching loop from a given running map: it completes iff every
      tile's slice assignment succeeds, and keeps the map's shape. */
  function StitchInto(g: Grid, h: nat, w: nat, tiles: seq<TileOutput>): (r: Result<Grid, StitchError>)
    requires Shaped(g, h, w)
    ensures r.Ok? <==> AllFit(h, w, tiles)
    ensures r.Ok? ==> Shaped(r.value, h, w)
    decreases |tiles|
  {
    if |tiles| == 0 then Ok(g)
    else
      assert forall k :: 0 < k < |tiles| ==> tiles[k] == tiles[1..][k - 1];
      match Merge(g, h, w, tiles[0])
      case Err(e) => Err(e)
      case Ok(next) => StitchInto(next, h, w, tiles[1..])
  }

  /** Every tile's slice assignment succeeds. */
  predicate AllFit(h: int, w: int, tiles: seq<TileOutput>) {
    forall k :: 0 <= k < |tiles| ==> FitsIn(h, w, tiles[k].box, tiles[k].probabilities)
  }

  /** Reference value of the stitched map at row i, column j: the largest
      contribution of any tile, and 0 when there is none. */
  function CellMax(tiles: seq<TileOutput>, i: int, j: int): real
    decreases |tiles|
  {
    if |tiles| == 0 then 0.0 else Max(Contribution(tiles[0], i, j), CellMax(tiles[1..], i, j))
  }

  lemma {:induction false} StitchIntoCells(g: Grid, h: nat, w: nat, tiles: seq<TileOutput>)
    requires Shaped(g, h, w) && NonNegative(g)
    ensures StitchInto(g, h, w, tiles).Ok? <==> AllFit(h, w, tiles)
    ensures StitchInto(g, h, w, tiles).Ok? ==>
      && Shaped(StitchInto(g, h, w, tiles).value, h, w)
      && forall i, j :: 0 <= i < h && 0 <= j < w ==>
           StitchInto(g, h, w, tiles).value[i][j] == Max(g[i][j], CellMax(tiles, i, j))
    decreases |tiles|
  {
    if |tiles| > 0 {
      var rest := tiles[1..];
      assert forall k :: 0 < k < |tiles| ==> tiles[k] == rest[k - 1];
      match Merge(g, h, w, tiles[0])
      case Err(_) =>
      case Ok(next) =>
        StitchIntoCells(next, h, w, rest);
    }
  }

  /**
   * The whole stitching loop: start from zeros and merge every tile in turn.
   * It succeeds exactly when every tile fits its box, and then each pixel holds
   * the largest contribution of the tiles covering it, or 0 if none does.
   */
  function Stitch(h: nat, w: nat, tiles: seq<TileOutput>): (r: Result<Grid, StitchError>)
    ensures r.Ok? <==> AllFit(h, w, tiles)
    ensures r.Ok? ==> Shaped(r.value, h, w) && NonNegative(r.value)
    ensures r.Ok? ==> forall i, j :: 0 <= i < h && 0 <= j < w ==> r.value[i][j] == CellMax(tiles, i, j)
  {
    StitchIntoCells(Zeros(h, w), h, w, tiles);
    CellMaxNonNegative(tiles);
    StitchInto(Zeros(h, w), h, w, tiles)
  }

  lemma CellMaxNonNegative(tiles: seq<TileOutput>)
    ensures forall i, j :: CellMax(tiles, i, j) >= 0.0
  {
    forall i, j
      ensures CellMax(tiles, i, j) >= 0.0
    {
      CellMaxBounds(tiles, i, j);
    }
  }

  /** CellMax is the least non-negative upper bound of the contributions: it
      bounds each of them and is either 0 or one of them. */
  lemma {:induction false} CellMaxBounds(tiles: seq<TileOutput>, i: int, j: int)
    ensures CellMax(tiles, i, j) >= 0.0
    ensures forall k :: 0 <= k < |tiles| ==> CellMax(tiles, i, j) >= Contribution(tiles[k], i, j)
    ensures CellMax(tiles, i, j) == 0.0 ||
      exists k :: 0 <= k < |tiles| && CellMax(tiles, i, j) == Contribution(tiles[k], i, j)
    decreases |tiles|
  {
    if |tiles| > 0 {
      var rest := tiles[1..];
      CellMaxBounds(rest, i, j);
      assert forall k :: 0 < k < |tiles| ==> tiles[k] == rest[k - 1];
      if CellMax(tiles, i, j) != 0.0 && CellMax(tiles, i, j) != Contribution(tiles[0], i, j) {
        var k :| 0 <= k < |rest| && CellMax(rest, i, j) == Contribution(rest[k], i, j);
        assert CellMax(tiles, i, j) == Contribution(tiles[k + 1], i, j);
      }
    }
  }

  /** CellMax depends only on which tiles occur, not on their order or repetition. */
  lemma CellMaxSameTiles(a: seq<TileOutput>, b: seq<TileOutput>, i: int, j: int)
    requires forall x :: x in a <==> x in b
    ensures CellMax(a, i, j) == CellMax(b, i, j)
  {
    CellMaxBounds(a, i, j);
    CellMaxBounds(b, i, j);
    if CellMax(a, i, j) != 0.0 {
      var k :| 0 <= k < |a| && CellMax(a, i, j) == Contribution(a[k], i, j);
      assert a[k] in b;
    }
    if CellMax(b, i, j) != 0.0 {
      var k :| 0 <= k < |b| && CellMax(b, i, j) == Contribution(b[k], i, j);
      assert b[k] in a;
    }
  }

  /**
   * Order independence: stitching two tile sequences with the same members
   * (any permutation, with or without repeated tiles) gives the same outcome.
   */
  lemma StitchOrderIndependent(h: nat, w: nat, a: seq<TileOutput>, b: seq<TileOutput>)
    requires forall x :: x in a <==> x in b
    ensures Stitch(h, w, a) == Stitch(h, w, b)
  {
    assert AllFit(h, w, a) <==> AllFit(h, w, b) by {
      if AllFit(h, w, a) {
        forall k | 0 <= k < |b| ensures FitsIn(h, w, b[k].box, b[k].probabilities) {
          assert b[k] in a;
        }
      }
      if AllFit(h, w, b) {
        forall k | 0 <= k < |a| ensures FitsIn(h, w, a[k].box, a[k].probabilities) {
          assert a[k] in b;
        }
      }
    }
    if AllFit(h, w, a) {
      var ga, gb := Stitch(h, w, a).value, Stitch(h, w, b).value;
      forall i | 0 <= i < h ensures ga[i] == gb[i] {
        forall j | 0 <= j < w ensures ga[i][j] == gb[i][j] {
          CellMaxSameTiles(a, b, i, j);
        }
      }
      assert ga == gb;
      assert Stitch(h, w, a) == Ok(ga) && Stitch(h, w, b) == Ok(gb);
    } else {
      assert !AllFit(h, w, a) && !AllFit(h, w, b);
      assert Stitch(h, w, a).Err? && Stitch(h, w, b).Err?;
      assert Stitch(h, w, a).error == ShapeMismatch && Stitch(h, w, b).error == ShapeMismatch;
    }
  }

  /** Merging a tile that was already merged changes nothing. */
  lemma StitchDuplicateTile(h: nat, w: nat, tiles: seq<TileOutput>, t: TileOutput)
    requires t in tiles
    ensures Stitch(h, w, tiles + [t]) == Stitch(h, w, tiles)
  {
    StitchOrderIndependent(h, w, tiles + [t], tiles);
  }

  /** Tiles with probabilities in [0, 1] stitch into a map in [0, 1]. */
  lemma StitchInUnitRange(h: nat, w: nat, tiles: seq<TileOutput>)
    requires forall k :: 0 <= k < |tiles| ==> InUnitRange(tiles[k].probabilities)
    requires Stitch(h, w, tiles).Ok?
    ensures InUnitRange(Stitch(h, w, tiles).value)
  {
    var g := Stitch(h, w, tiles).value;
    forall i, j | 0 <= i < |g| && 0 <= j < |g[i]| ensures 0.0 <= g[i][j] <= 1.0 {
      CellMaxBounds(tiles, i, j);
      if CellMax(tiles, i, j) != 0.0 {
        var k :| 0 <= k < |tiles| && CellMax(tiles, i, j) == Contribution(tiles[k], i, j);
        assert InUnitRange(tiles[k].probabilities);
      }
    }
  }
}
