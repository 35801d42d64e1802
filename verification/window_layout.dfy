/**
 * A closed-form description of the boxes `Windowed.window` yields when the
 * image is at least as large as the crop, and the proof that the generator
 * yields exactly that sequence. Columns sit at the multiples of the stride that
 * end strictly before the right edge, followed by one box flush with the right
 * edge; rows sit at the multiples of the stride that end at or before the
 * bottom edge, followed by one row flush with the bottom edge. The asymmetry
 * (strict for columns, non-strict for rows) is why the last row can repeat.
 */
module WindowLayout {
  import opened Wrappers
  import opened ImageUtil

  /** The regime in which every crop fits inside the image. */
  predicate Roomy(t: Windowed) {
    t.Stride() > 0 && t.cropSize <= t.width && t.cropSize <= t.height
  }

  /** Number of columns at a multiple k of the stride with k*stride + crop < width. */
  function InnerColumns(t: Windowed): int
    requires t.Stride() > 0
  {
    (t.width - t.cropSize - 1) / t.Stride() + 1
  }

  /** Number of rows at a multiple k of the stride with k*stride + crop <= height. */
  function StrideRows(t: Windowed): int
    requires t.Stride() > 0
  {
    (t.height - t.cropSize) / t.Stride() + 1
  }

  /** Boxes per row: the inner columns plus the one flush with the right edge. */
  function Columns(t: Windowed): nat
    requires Roomy(t)
  {
    FloorDivBound(0, t.width - t.cropSize - 1, t.Stride());
    InnerColumns(t) + 1
  }

  /** Rows: the stride rows plus the one flush with the bottom edge. */
  function Rows(t: Windowed): nat
    requires Roomy(t)
  {
    FloorDivBound(0, t.height - t.cropSize, t.Stride());
    StrideRows(t) + 1
  }

  function ColumnLeft(t: Windowed, j: int): int
    requires t.Stride() > 0
  {
    if j < InnerColumns(t) then j * t.Stride() else t.width - t.cropSize
  }

  function RowUpper(t: Windowed, r: int): int
    requires t.Stride() > 0
  {
    if r < StrideRows(t) then r * t.Stride() else t.height - t.cropSize
  }

  function LayoutBox(t: Windowed, r: int, j: int): Box
    requires t.Stride() > 0
  {
    Box(ColumnLeft(t, j), RowUpper(t, r), ColumnLeft(t, j) + t.cropSize, RowUpper(t, r) + t.cropSize)
  }

  /** All boxes, row-major: box i is in row i / Columns and column i % Columns. */
  function Layout(t: Windowed): seq<Box>
    requires Roomy(t)
  {
    seq(Rows(t) * Columns(t), i requires 0 <= i < Rows(t) * Columns(t) =>
      LayoutBox(t, i / Columns(t), i % Columns(t)))
  }

  /** The generator state right after it yielded the box of row r, column j. */
  function CursorAt(t: Windowed, r: int, j: int): Cursor
    requires t.Stride() > 0
  {
    Cursor(LayoutBox(t, r, j), r == StrideRows(t))
  }

  lemma MulMonotone(x: int, y: int, s: int)
    requires x <= y && 0 <= s
    ensures x * s <= y * s
  {
    assert y * s - x * s == (y - x) * s;
  }

  /** Floor division by a positive divisor: k*s <= a exactly when k <= a / s. */
  lemma FloorDivBound(k: int, a: int, s: int)
    requires s > 0
    ensures k * s <= a <==> k <= a / s
  {
    var q := a / s;
    assert a == q * s + a % s && 0 <= a % s < s;
    if k <= q {
      MulMonotone(k, q, s);
    } else {
      MulMonotone(q + 1, k, s);
      assert (q + 1) * s == q * s + s;
    }
  }

  lemma RowMajorIndex(r: int, j: int, n: int)
    requires n > 0 && 0 <= j < n
    ensures (r * n + j) / n == r && (r * n + j) % n == j
  {
    var a := r * n + j;
    var q := a / n;
    var m := a % n;
    assert a == q * n + m && 0 <= m < n;
    assert (q - r) * n == j - m;
    if q > r {
      MulMonotone(1, q - r, n);
    } else if q < r {
      MulMonotone(1, r - q, n);
    }
  }

  /** Column j < InnerColumns ends strictly before the right edge, the next one does not. */
  lemma ColumnFacts(t: Windowed, j: int)
    requires Roomy(t) && 0 <= j
    ensures j < InnerColumns(t) <==> j * t.Stride() + t.cropSize < t.width
  {
    FloorDivBound(j, t.width - t.cropSize - 1, t.Stride());
  }

  /** Row r < StrideRows ends at or before the bottom edge, the next one does not. */
  lemma RowFacts(t: Windowed, r: int)
    requires Roomy(t) && 0 <= r
    ensures r < StrideRows(t) <==> r * t.Stride() + t.cropSize <= t.height
  {
    FloorDivBound(r, t.height - t.cropSize, t.Stride());
  }

  /** One step of the generator moves one column right, or to column 0 of the
      next row after the last column, and stops after the last box. */
  lemma StepAlongLayout(t: Windowed, r: int, j: int)
    requires Roomy(t) && 0 <= r < Rows(t) && 0 <= j < Columns(t)
    ensures Step(t, CursorAt(t, r, j)) ==
      if j + 1 < Columns(t) then Some(CursorAt(t, r, j + 1))
      else if r + 1 < Rows(t) then Some(CursorAt(t, r + 1, 0))
      else None
  {
    var s := t.Stride();
    ColumnFacts(t, j);
    ColumnFacts(t, j + 1);
    ColumnFacts(t, 0);
    RowFacts(t, r);
    RowFacts(t, r + 1);
    RowFacts(t, 0);
    assert (j + 1) * s == j * s + s;
    assert (r + 1) * s == r * s + s;
  }

  /** A row-major position q*n + m with q < rows and m < n is below rows*n. */
  lemma RowMajorBound(q: int, m: int, rows: int, n: int)
    requires 0 <= q < rows && 0 <= m < n
    ensures 0 <= q * n + m < rows * n
  {
    MulMonotone(0, q, n);
    MulMonotone(q + 1, rows, n);
    assert (q + 1) * n == q * n + n;
  }

  /** Row and column of index i of a row-major layout of rows * n boxes. */
  lemma RowMajorSplit(i: int, rows: int, n: int)
    requires n > 0 && 0 <= i < rows * n
    ensures 0 <= i / n < rows && 0 <= i % n < n
    ensures i == (i / n) * n + i % n
  {
    if i / n >= rows {
      MulMonotone(rows, i / n, n);
    }
    if i / n < 0 {
      MulMonotone(i / n, -1, n);
    }
  }

  /** Moving to index i + 1 moves one column right, or to column 0 of the next row. */
  lemma RowMajorNext(i: int, n: int)
    requires n > 0 && 0 <= i
    ensures i % n + 1 < n ==> (i + 1) / n == i / n && (i + 1) % n == i % n + 1
    ensures i % n + 1 == n ==> (i + 1) / n == i / n + 1 && (i + 1) % n == 0
  {
    var q, m := i / n, i % n;
    assert i == q * n + m && 0 <= m < n;
    if m + 1 < n {
      RowMajorIndex(q, m + 1, n);
    } else {
      assert i + 1 == (q + 1) * n + 0;
      RowMajorIndex(q + 1, 0, n);
    }
  }

  /** Index i of the layout, as a generator state. */
  function CursorOf(t: Windowed, i: int): Cursor
    requires Roomy(t)
  {
    CursorAt(t, i / Columns(t), i % Columns(t))
  }

  /** Index arithmetic of a row-major layout of rows * n boxes. */
  lemma IndexStep(i: int, rows: int, n: int)
    requires n > 0 && 0 <= i < rows * n
    ensures 0 <= i / n < rows && 0 <= i % n < n
    ensures i % n + 1 < n ==> i + 1 < rows * n && (i + 1) / n == i / n && (i + 1) % n == i % n + 1
    ensures i % n + 1 == n && i / n + 1 < rows ==>
      i + 1 < rows * n && (i + 1) / n == i / n + 1 && (i + 1) % n == 0
    ensures i % n + 1 == n && i / n + 1 == rows ==> i + 1 == rows * n
  {
    RowMajorSplit(i, rows, n);
    RowMajorNext(i, n);
    var r, j := i / n, i % n;
    if j + 1 < n {
      RowMajorBound(r, j + 1, rows, n);
    } else if r + 1 < rows {
      RowMajorBound(r + 1, 0, rows, n);
    }
  }

  /** The generator state after index i steps to the state of index i + 1,
      and stops after the last index. */
  lemma StepAlongIndex(t: Windowed, i: int)
    requires Roomy(t) && 0 <= i < |Layout(t)|
    ensures i + 1 < |Layout(t)| ==> Step(t, CursorOf(t, i)) == Some(CursorOf(t, i + 1))
    ensures i + 1 == |Layout(t)| ==> Step(t, CursorOf(t, i)) == None
  {
    IndexStep(i, Rows(t), Columns(t));
    StepAlongLayout(t, i / Columns(t), i % Columns(t));
  }

  lemma SliceCons(s: seq<Box>, i: int)
    requires 0 <= i < |s|
    ensures s[i..] == [s[i]] + s[i + 1..]
  {
  }

  /** One step of the generator prepends the current box. */
  lemma TilesCons(t: Windowed, c: Cursor, next: Cursor)
    requires t.Stride() > 0 && Valid(t, c) && Step(t, c) == Some(next)
    ensures Valid(t, next) && Tiles(t, c) == [c.box] + Tiles(t, next)
  {
  }

  lemma {:induction false} TilesFollowLayout(t: Windowed, i: int)
    requires Roomy(t) && 0 <= i < |Layout(t)|
    ensures Tiles(t, CursorOf(t, i)) == Layout(t)[i..]
    decreases |Layout(t)| - i
  {
    var layout := Layout(t);
    var here := CursorOf(t, i);
    assert layout[i] == here.box;
    StepAlongIndex(t, i);
    if i + 1 < |layout| {
      TilesFollowLayout(t, i + 1);
      TilesCons(t, here, CursorOf(t, i + 1));
      SliceCons(layout, i);
    } else {
      assert Tiles(t, here) == [here.box];
    }
  }

  /** The generator yields exactly the row-major layout, Rows * Columns boxes. */
  lemma WindowIsLayout(t: Windowed)
    requires Roomy(t)
    ensures Window(t) == Layout(t)
    ensures |Window(t)| == Rows(t) * Columns(t)
  {
    ColumnFacts(t, 0);
    RowFacts(t, 0);
    RowMajorIndex(0, 0, Columns(t));
    RowMajorBound(0, 0, Rows(t), Columns(t));
    assert Start(t) == CursorOf(t, 0);
    TilesFollowLayout(t, 0);
  }

  /** The last row repeats the row before it exactly when height - crop is a
      multiple of the stride (including height == crop). */
  lemma LastRowsCoincide(t: Windowed)
    requires Roomy(t)
    ensures Rows(t) >= 2
    ensures (t.height - t.cropSize) % t.Stride() == 0 <==>
      RowUpper(t, Rows(t) - 2) == RowUpper(t, Rows(t) - 1)
  {
    RowFacts(t, 0);
    var s := t.Stride();
    var a := t.height - t.cropSize;
    assert a == (a / s) * s + a % s;
  }

  /** Where the box of row r, column j sits in the row-major layout. */
  lemma LayoutAt(t: Windowed, r: int, j: int)
    requires Roomy(t) && 0 <= r < Rows(t) && 0 <= j < Columns(t)
    ensures 0 <= r * Columns(t) + j < |Layout(t)|
    ensures Layout(t)[r * Columns(t) + j] == LayoutBox(t, r, j)
  {
    RowMajorIndex(r, j, Columns(t));
    RowMajorBound(r, j, Rows(t), Columns(t));
  }

  lemma LastRowStarts(m: int, n: int)
    requires m >= 2 && n >= 1
    ensures 0 <= (m - 2) * n
    ensures (m - 1) * n == (m - 2) * n + n && m * n == (m - 1) * n + n
  {
    MulMonotone(0, m - 2, n);
  }

  /** Row-major order: a later index is in a later row, or in the same row and a later column. */
  lemma RowMajorOrder(i: int, k: int, n: int)
    requires 0 <= i < k && n > 0
    ensures i / n < k / n || (i / n == k / n && i % n < k % n)
  {
    var r, j := i / n, i % n;
    var q, l := k / n, k % n;
    assert i == r * n + j && 0 <= j < n;
    assert k == q * n + l && 0 <= l < n;
    if q < r {
      MulMonotone(q + 1, r, n);
    }
  }

  /** The last two rows of the layout, as slices starting at a and b. */
  lemma LayoutLastRows(t: Windowed, a: int, b: int)
    requires Roomy(t) && Rows(t) >= 2
    requires a == (Rows(t) - 2) * Columns(t) && b == (Rows(t) - 1) * Columns(t)
    requires 0 <= a && b == a + Columns(t) && |Layout(t)| == b + Columns(t)
    ensures Layout(t)[a..b] == Layout(t)[b..] <==> RowUpper(t, Rows(t) - 2) == RowUpper(t, Rows(t) - 1)
  {
    var n, m := Columns(t), Rows(t);
    var layout := Layout(t);
    var prev, last := layout[a..b], layout[b..];
    forall k | 0 <= k < n
      ensures prev[k] == LayoutBox(t, m - 2, k) && last[k] == LayoutBox(t, m - 1, k)
    {
      LayoutAt(t, m - 2, k);
      LayoutAt(t, m - 1, k);
    }
    if RowUpper(t, m - 2) == RowUpper(t, m - 1) {
      assert prev == last;
    } else {
      assert prev[0] != last[0];
    }
  }

  /**
   * The duplicated last row: the generator's final Columns boxes repeat the
   * Columns boxes before them exactly when height - crop is a multiple of the
   * stride.
   */
  lemma WindowRepeatsLastRow(t: Windowed)
    requires Roomy(t)
    ensures |Window(t)| >= 2 * Columns(t)
    ensures (t.height - t.cropSize) % t.Stride() == 0 <==>
      Window(t)[|Window(t)| - 2 * Columns(t)..|Window(t)| - Columns(t)] ==
      Window(t)[|Window(t)| - Columns(t)..]
  {
    WindowIsLayout(t);
    LastRowsCoincide(t);
    var n, m := Columns(t), Rows(t);
    LastRowStarts(m, n);
    LayoutLastRows(t, (m - 2) * n, (m - 1) * n);
  }

  lemma ColumnLeftIncreasing(t: Windowed, j: int, k: int)
    requires Roomy(t) && 0 <= j < k < Columns(t)
    ensures ColumnLeft(t, j) < ColumnLeft(t, k)
  {
    ColumnFacts(t, j);
    if k < InnerColumns(t) {
      MulMonotone(j + 1, k, t.Stride());
      assert (j + 1) * t.Stride() == j * t.Stride() + t.Stride();
    }
  }

  lemma RowUpperIncreasing(t: Windowed, r: int, q: int)
    requires Roomy(t) && 0 <= r < q < Rows(t)
    requires (t.height - t.cropSize) % t.Stride() != 0
    ensures RowUpper(t, r) < RowUpper(t, q)
  {
    var s := t.Stride();
    if q < StrideRows(t) {
      MulMonotone(r + 1, q, s);
      assert (r + 1) * s == r * s + s;
    } else {
      var a := t.height - t.cropSize;
      assert a == (a / s) * s + a % s;
      MulMonotone(r, a / s, s);
    }
  }

  /** Two different layout positions hold different boxes unless the last row repeats. */
  lemma LayoutDistinct(t: Windowed, i: int, k: int)
    requires Roomy(t) && 0 <= i < k < |Layout(t)|
    requires (t.height - t.cropSize) % t.Stride() != 0
    ensures Layout(t)[i] != Layout(t)[k]
  {
    var n := Columns(t);
    RowMajorSplit(i, Rows(t), n);
    RowMajorSplit(k, Rows(t), n);
    RowMajorOrder(i, k, n);
    if i / n == k / n {
      ColumnLeftIncreasing(t, i % n, k % n);
    } else {
      RowUpperIncreasing(t, i / n, k / n);
    }
  }

  /**
   * No box is yielded twice exactly when height - crop is not a multiple of
   * the stride; otherwise the last row is yielded a second time.
   */
  lemma WindowDistinctIff(t: Windowed)
    requires Roomy(t)
    ensures (forall i, k :: 0 <= i < k < |Window(t)| ==> Window(t)[i] != Window(t)[k]) <==>
      (t.height - t.cropSize) % t.Stride() != 0
  {
    WindowIsLayout(t);
    var w := Window(t);
    if (t.height - t.cropSize) % t.Stride() != 0 {
      forall i, k | 0 <= i < k < |w|
        ensures w[i] != w[k]
      {
        LayoutDistinct(t, i, k);
      }
    } else {
      WindowRepeatsLastRow(t);
      var n := Columns(t);
      var i := |w| - 2 * n;
      assert w[i] == w[i..|w| - n][0];
      assert w[i + n] == w[|w| - n..][0];
    }
  }
}
