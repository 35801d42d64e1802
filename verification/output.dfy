/**
 * Turning masks into palette images: the fixed palette of `diffmap2image`,
 * which colours false negatives red and false positives blue, and the 0/255
 * scaling of `mask2image`. Pixels are 8-bit, so the arithmetic wraps modulo
 * 256 as numpy's `uint8` does.
 */
module Output {
  import opened Metrics

  /** Palette entry i: the red, green and blue bytes of colour index i. */
  function Entry(lut: seq<int>, i: int): seq<int>
    requires 0 <= 3 * i && 3 * i + 3 <= |lut|
  {
    lut[3 * i .. 3 * i + 3]
  }

  /** The colour chosen for index i in the palette loop. */
  function DiffColor(i: int): seq<int> {
    if i == 63 then [255, 0, 0]
    else if i == 127 then [0, 0, 255]
    else if i == 255 then [255, 255, 255]
    else [0, 0, 0]
  }

  /**
   * The palette `diffmap2image` installs: 256 RGB entries, all black except
   * index 63 (false negative) in red, 127 (false positive) in blue and 255 in
   * white.
   */
  method DiffPalette() returns (lut: seq<int>)
    ensures |lut| == 768
    ensures Entry(lut, 63) == [255, 0, 0]
    ensures Entry(lut, 127) == [0, 0, 255]
    ensures Entry(lut, 255) == [255, 255, 255]
    ensures forall i :: 0 <= i < 256 && i != 63 && i != 127 && i != 255 ==> Entry(lut, i) == [0, 0, 0]
    ensures forall k :: 0 <= k < |lut| ==> 0 <= lut[k] <= 255
  {
    lut := [];
    var i := 0;
    while i < 256
      invariant 0 <= i <= 256 && |lut| == 3 * i
      invariant forall k :: 0 <= k < i ==> Entry(lut, k) == DiffColor(k)
      invariant forall k :: 0 <= k < |lut| ==> 0 <= lut[k] <= 255
    {
      var color := DiffColor(i);
      ghost var before := lut;
      lut := lut + color;
      forall k | 0 <= k < i ensures Entry(lut, k) == DiffColor(k) {
        assert Entry(lut, k) == Entry(before, k);
      }
      assert Entry(lut, i) == color;
      i := i + 1;
    }
  }

  /** `astype(np.uint8)` of an integer: wrap-around modulo 256. */
  function Uint8(v: int): (b: int)
    ensures 0 <= b < 256
    ensures 0 <= v < 256 ==> b == v
    ensures (b - v) % 256 == 0
  {
    v % 256
  }

  /** Every cell is a byte, as in a `uint8` array. */
  predicate ByteMask(m: Mask) {
    forall i, j :: 0 <= i < |m| && 0 <= j < |m[i]| ==> 0 <= m[i][j] < 256
  }

  /** `(seg_map * 255).astype(np.uint8)` for an 8-bit segmentation map. */
  function MaskToImage(m: Mask): (img: Mask)
    ensures SameShape(img, m) && ByteMask(img)
    ensures forall i, j :: 0 <= i < |m| && 0 <= j < |m[i]| && m[i][j] == 0 ==> img[i][j] == 0
    ensures forall i, j :: 0 <= i < |m| && 0 <= j < |m[i]| && m[i][j] == 1 ==> img[i][j] == 255
  {
    seq(|m|, i requires 0 <= i < |m| =>
      seq(|m[i]|, j requires 0 <= j < |m[i]| => Uint8(m[i][j] * 255)))
  }

  /** Dividing an image by 255 again, as when it is read back as a mask. */
  function ImageToMask(img: Mask): (m: Mask)
    ensures SameShape(m, img)
  {
    seq(|img|, i requires 0 <= i < |img| =>
      seq(|img[i]|, j requires 0 <= j < |img[i]| => img[i][j] / 255))
  }

  /** A binary mask survives the round trip through its image. */
  lemma MaskImageRoundTrip(m: Mask)
    requires Binary(m)
    ensures ImageToMask(MaskToImage(m)) == m
  {
    var r := ImageToMask(MaskToImage(m));
    forall i | 0 <= i < |m| ensures r[i] == m[i] {
      forall j | 0 <= j < |m[i]| ensures r[i][j] == m[i][j] {
      }
    }
  }

  /** Byte scaling keeps zero and non-zero apart. */
  lemma ScaleKeepsZero(v: int)
    requires 0 <= v < 256
    ensures (Uint8(v * 255) == 0) <==> v == 0
  {
    assert v * 255 == 256 * v - v;
    if v > 0 {
      assert Uint8(v * 255) == 256 - v by {
        assert v * 255 == 256 * (v - 1) + (256 - v);
      }
    }
  }

  /** The image of an 8-bit mask marks the same pixels as set: every metric
      computed against it sees the same classes as against the mask. */
  lemma {:induction false} TruthOfImage(m: Mask)
    requires ByteMask(m)
    ensures Truth(MaskToImage(m)) == Truth(m)
    decreases |m|
  {
    if |m| > 0 {
      var img := MaskToImage(m);
      assert img[1..] == MaskToImage(m[1..]);
      TruthOfImage(m[1..]);
      forall j | 0 <= j < |m[0]| ensures (img[0][j] != 0) == (m[0][j] != 0) {
        ScaleKeepsZero(m[0][j]);
      }
    }
  }

  /** The 8-bit multiplication wraps: a cell of 2 becomes 254, not 510. */
  lemma MaskToImageWraps()
    ensures MaskToImage([[2]]) == [[254]]
  {
    var img := MaskToImage([[2]]);
    assert img[0][0] == Uint8(510);
    assert img[0] == [254];
  }
}
