/**
 * Evaluation metrics: the `METRICS` list, the memoising `Metric.value`
 * property, and the confusion counting and formula of the Matthews correlation
 * coefficient. The coefficient is kept on integers: its numerator and the
 * square of its denominator, so that no square root is needed.
 */
module Metrics {
  import opened Wrappers

  /** A mask as loaded, e.g. a uint8 array; a cell is set when it is non-zero. */
  type Mask = seq<seq<int>>

  /** Every cell is 0 or 1. */
  predicate Binary(m: Mask) {
    forall i, j :: 0 <= i < |m| && 0 <= j < |m[i]| ==> m[i][j] == 0 || m[i][j] == 1
  }

  /** Why `_calculate` raises: the masks cannot be combined element-wise, or
      `sqrt` is applied to a negative number. */
  datatype MetricError = MaskShapeMismatch | SqrtDomain

  /** The metric classes, in the order of the `METRICS` list. */
  datatype MetricKind = MeanIoU | Accuracy | Precision | Recall | MatthewsCorrelation

  const METRICS: seq<MetricKind> := [MeanIoU, Accuracy, Precision, Recall, MatthewsCorrelation]

  /** The `NAME` class attribute. */
  function Name(k: MetricKind): string {
    match k
    case MeanIoU => "MIoU"
    case Accuracy => "Accuracy"
    case Precision => "Precision"
    case Recall => "Recall"
    case MatthewsCorrelation => "Matthews Correlation Coefficient"
  }

  /** Every metric class appears once in `METRICS`, each under its own name. */
  lemma MetricsListed()
    ensures forall k: MetricKind :: k in METRICS
    ensures forall i, j :: 0 <= i < j < |METRICS| ==> METRICS[i] != METRICS[j]
    ensures forall i, j :: 0 <= i < j < |METRICS| ==> Name(METRICS[i]) != Name(METRICS[j])
  {
    forall k: MetricKind
      ensures k in METRICS
    {
      match k
      case MeanIoU => assert METRICS[0] == k;
      case Accuracy => assert METRICS[1] == k;
      case Precision => assert METRICS[2] == k;
      case Recall => assert METRICS[3] == k;
      case MatthewsCorrelation => assert METRICS[4] == k;
    }
  }

  // ---------------------------------------------------------------------------
  // The `value` cache

  /** The `_value` attribute of a metric object. */
  datatype Memo = Memo(cached: Option<real>)

  /** The outcome of one read of `value`: what it returned, the cache after it,
      and whether `_calculate` ran. */
  datatype Read = Read(value: real, memo: Memo, computed: bool)

  /** A cache that holds nothing, or the value `_calculate` returns. */
  predicate Agrees(m: Memo, calculated: real) {
    m.cached.None? || m.cached.value == calculated
  }

  /**
   * One read of `Metric.value`. The cache is judged by its truthiness, not by
   * `None`, so a cached 0 counts as missing and is computed again.
   */
  function ReadValue(m: Memo, calculated: real): (r: Read)
    ensures r.computed <==> m.cached.None? || m.cached.value == 0.0
    ensures r.memo.cached == Some(r.value)
    ensures Agrees(m, calculated) ==> r.value == calculated && Agrees(r.memo, calculated)
  {
    if m.cached.None? || m.cached.value == 0.0 then Read(calculated, Memo(Some(calculated)), true)
    else Read(m.cached.value, m, false)
  }

  /** A metric object: its class, the two masks it was built from and its
      `_value` cache, which starts out empty. */
  datatype Metric = Metric(kind: MetricKind, groundTruth: Mask, segMap: Mask, memo: Memo)

  /** n reads in a row: the values returned, the final cache and how many times
      `_calculate` ran. */
  datatype Reads = Reads(values: seq<real>, memo: Memo, computations: nat)

  function ReadRepeatedly(m: Memo, calculated: real, n: nat): (r: Reads)
    decreases n
  {
    if n == 0 then Reads([], m, 0)
    else
      var first := ReadValue(m, calculated);
      var rest := ReadRepeatedly(first.memo, calculated, n - 1);
      Reads([first.value] + rest.values, rest.memo, rest.computations + (if first.computed then 1 else 0))
  }

  lemma {:induction false} ReadsFrom(m: Memo, calculated: real, n: nat)
    requires Agrees(m, calculated)
    ensures |ReadRepeatedly(m, calculated, n).values| == n
    ensures forall i :: 0 <= i < n ==> ReadRepeatedly(m, calculated, n).values[i] == calculated
    ensures calculated == 0.0 ==> ReadRepeatedly(m, calculated, n).computations == n
    ensures calculated != 0.0 && m.cached.Some? ==> ReadRepeatedly(m, calculated, n).computations == 0
    decreases n
  {
    if n > 0 {
      ReadsFrom(ReadValue(m, calculated).memo, calculated, n - 1);
    }
  }

  /**
   * `value` always returns what `_calculate` returns. A truthy result is
   * computed once and then served from the cache; a falsy result (0) is never
   * served from the cache and is recomputed on every read.
   */
  lemma ValueMemo(calculated: real, n: nat)
    ensures |ReadRepeatedly(Memo(None), calculated, n).values| == n
    ensures forall i :: 0 <= i < n ==> ReadRepeatedly(Memo(None), calculated, n).values[i] == calculated
    ensures ReadRepeatedly(Memo(None), calculated, n).computations ==
      if calculated == 0.0 then n else if n == 0 then 0 else 1
  {
    ReadsFrom(Memo(None), calculated, n);
    if n > 0 && calculated != 0.0 {
      ReadsFrom(Memo(Some(calculated)), calculated, n - 1);
    }
  }

  // ---------------------------------------------------------------------------
  // Confusion counting

  /** Total number of cells of a mask. */
  function Cells(m: Mask): nat
    decreases |m|
  {
    if |m| == 0 then 0 else |m[0]| + Cells(m[1..])
  }

  predicate SameShape(a: Mask, b: Mask) {
    |a| == |b| && forall i :: 0 <= i < |a| ==> |a[i]| == |b[i]|
  }

  predicate Rectangular(m: Mask, h: int, w: int) {
    |m| == h && forall i :: 0 <= i < |m| ==> |m[i]| == w
  }

  /** `astype(bool)`, flattened row by row. */
  function Truth(m: Mask): (cells: seq<bool>)
    ensures |cells| == Cells(m)
    decreases |m|
  {
    if |m| == 0 then [] else seq(|m[0]|, j requires 0 <= j < |m[0]| => m[0][j] != 0) + Truth(m[1..])
  }

  lemma {:induction false} SameShapeCells(a: Mask, b: Mask)
    requires SameShape(a, b)
    ensures Cells(a) == Cells(b)
    decreases |a|
  {
    if |a| > 0 {
      SameShapeCells(a[1..], b[1..]);
    }
  }

  lemma {:induction false} RectangularCells(m: Mask, h: nat, w: nat)
    requires Rectangular(m, h, w)
    ensures Cells(m) == h * w
    decreases h
  {
    if h > 0 {
      RectangularCells(m[1..], h - 1, w);
      assert (h - 1) * w + w == h * w;
    }
  }

  /** Which cells a count looks at, by ground truth and prediction. */
  datatype Selector =
    | Both           // predicted and present
    | Neither        // neither predicted nor present
    | PredictedOnly  // predicted but absent
    | TruthOnly      // present but not predicted
    | Predicted
    | NotPredicted
    | Actual
    | NotActual

  predicate Selects(k: Selector, truth: bool, predicted: bool) {
    match k
    case Both => predicted && truth
    case Neither => !predicted && !truth
    case PredictedOnly => predicted && !truth
    case TruthOnly => !predicted && truth
    case Predicted => predicted
    case NotPredicted => !predicted
    case Actual => truth
    case NotActual => !truth
  }

  /** `np.count_nonzero` of the selected combination of the two masks. */
  function CountWhere(k: Selector, gt: seq<bool>, sm: seq<bool>): nat
    requires |gt| == |sm|
    decreases |gt|
  {
    if |gt| == 0 then 0
    else (if Selects(k, gt[0], sm[0]) then 1 else 0) + CountWhere(k, gt[1..], sm[1..])
  }

  /** The four disjoint cell classes partition the cells, and each of the
      one-mask counts splits into two of them. */
  lemma {:induction false} CountsPartition(gt: seq<bool>, sm: seq<bool>)
    requires |gt| == |sm|
    ensures CountWhere(Predicted, gt, sm) == CountWhere(Both, gt, sm) + CountWhere(PredictedOnly, gt, sm)
    ensures CountWhere(NotPredicted, gt, sm) == CountWhere(Neither, gt, sm) + CountWhere(TruthOnly, gt, sm)
    ensures CountWhere(Actual, gt, sm) == CountWhere(Both, gt, sm) + CountWhere(TruthOnly, gt, sm)
    ensures CountWhere(NotActual, gt, sm) == CountWhere(Neither, gt, sm) + CountWhere(PredictedOnly, gt, sm)
    ensures CountWhere(Both, gt, sm) + CountWhere(Neither, gt, sm)
      + CountWhere(PredictedOnly, gt, sm) + CountWhere(TruthOnly, gt, sm) == |gt|
    decreases |gt|
  {
    if |gt| > 0 {
      CountsPartition(gt[1..], sm[1..]);
    }
  }

  /** The selector that picks the same cells once the two masks trade places. */
  function Mirror(k: Selector): Selector {
    match k
    case Both => Both
    case Neither => Neither
    case PredictedOnly => TruthOnly
    case TruthOnly => PredictedOnly
    case Predicted => Actual
    case NotPredicted => NotActual
    case Actual => Predicted
    case NotActual => NotPredicted
  }

  lemma {:induction false} CountMirror(k: Selector, gt: seq<bool>, sm: seq<bool>)
    requires |gt| == |sm|
    ensures CountWhere(k, sm, gt) == CountWhere(Mirror(k), gt, sm)
    decreases |gt|
  {
    if |gt| > 0 {
      CountMirror(k, gt[1..], sm[1..]);
    }
  }

  /** A count is positive exactly when some cell is selected. */
  lemma {:induction false} CountPositive(k: Selector, gt: seq<bool>, sm: seq<bool>)
    requires |gt| == |sm|
    ensures CountWhere(k, gt, sm) > 0 <==> exists i :: 0 <= i < |gt| && Selects(k, gt[i], sm[i])
    decreases |gt|
  {
    if |gt| > 0 {
      CountPositive(k, gt[1..], sm[1..]);
      if CountWhere(k, gt[1..], sm[1..]) > 0 {
        var i :| 0 <= i < |gt| - 1 && Selects(k, gt[1..][i], sm[1..][i]);
        assert Selects(k, gt[i + 1], sm[i + 1]);
      }
      if exists i :: 0 <= i < |gt| && Selects(k, gt[i], sm[i]) {
        var i :| 0 <= i < |gt| && Selects(k, gt[i], sm[i]);
        if i > 0 {
          assert Selects(k, gt[1..][i - 1], sm[1..][i - 1]);
        }
      }
    }
  }

  datatype Confusion = Confusion(tp: int, tn: int, fp: int, fn: int)

  predicate NonNegativeCounts(c: Confusion) {
    c.tp >= 0 && c.tn >= 0 && c.fp >= 0 && c.fn >= 0
  }

  /**
   * The counting in `_calculate`: true positives and true negatives are
   * counted directly, false positives and false negatives by subtracting them
   * from the predicted and not-predicted totals. The subtractions amount to
   * counting the cells predicted but absent, and present but not predicted.
   */
  function Count(gt: seq<bool>, sm: seq<bool>): (c: Confusion)
    requires |gt| == |sm|
    ensures c.tp == CountWhere(Both, gt, sm) && c.tn == CountWhere(Neither, gt, sm)
    ensures c.fp == CountWhere(PredictedOnly, gt, sm) && c.fn == CountWhere(TruthOnly, gt, sm)
    ensures NonNegativeCounts(c)
    ensures c.tp + c.tn + c.fp + c.fn == |gt|
  {
    CountsPartition(gt, sm);
    var tp := CountWhere(Both, gt, sm);
    var tn := CountWhere(Neither, gt, sm);
    Confusion(tp, tn, CountWhere(Predicted, gt, sm) - tp, CountWhere(NotPredicted, gt, sm) - tn)
  }

  /** Swapping the two masks exchanges the false positives and false negatives. */
  lemma CountSwap(gt: seq<bool>, sm: seq<bool>)
    requires |gt| == |sm|
    ensures var c := Count(gt, sm); Count(sm, gt) == Confusion(c.tp, c.tn, c.fn, c.fp)
  {
    CountMirror(Both, gt, sm);
    CountMirror(Neither, gt, sm);
    CountMirror(PredictedOnly, gt, sm);
    CountMirror(TruthOnly, gt, sm);
  }

  // ---------------------------------------------------------------------------
  // The coefficient

  /**
   * The result of `_calculate`: 0 when the denominator vanishes, otherwise
   * numerator / sqrt(denominatorSquared).
   */
  datatype Mcc = Degenerate | Ratio(numerator: int, denominatorSquared: int)

  function Numerator(c: Confusion): int {
    c.tp * c.tn - c.fp * c.fn
  }

  function DenominatorSquared(c: Confusion): int {
    (c.tp + c.fp) * (c.tp + c.fn) * (c.tn + c.fp) * (c.tn + c.fn)
  }

  /** The represented value lies in [-1, 1]: its square, num^2 / den, is at most 1. */
  predicate WithinUnit(v: Mcc) {
    v.Degenerate? || (v.denominatorSquared > 0 && v.numerator * v.numerator <= v.denominatorSquared)
  }

  /** The represented value is exactly 1. */
  predicate IsOne(v: Mcc) {
    v.Ratio? && v.numerator > 0 && v.numerator * v.numerator == v.denominatorSquared
  }

  /** The represented value is exactly -1. */
  predicate IsMinusOne(v: Mcc) {
    v.Ratio? && v.numerator < 0 && v.numerator * v.numerator == v.denominatorSquared
  }

  lemma ProductPositive(a: int, b: int, c: int, d: int)
    requires a > 0 && b > 0 && c > 0 && d > 0
    ensures a * b * c * d > 0
  {
    assert a * b > 0;
    assert a * b * c > 0;
  }

  lemma MulNonNegative(a: int, b: int)
    requires a >= 0 && b >= 0
    ensures a * b >= 0
  {
  }

  lemma SquareNonNegative(a: int)
    ensures a * a >= 0
  {
    if a < 0 { MulNonNegative(-a, -a); } else { MulNonNegative(a, a); }
  }

  /** (a + c)(b + d) expanded. */
  lemma Expand(a: int, b: int, c: int, d: int)
    ensures (a + c) * (b + d) == a * b + a * d + c * b + c * d
  {
  }

  /** A product of four factors regrouped as (first * last) * (second * third). */
  lemma Regroup(a: int, b: int, c: int, d: int)
    ensures a * b * c * d == (a * d) * (b * c)
  {
  }

  lemma SquareOfDifference(u: int, v: int)
    ensures (u - v) * (u - v) == (u + v) * (u + v) - 4 * (u * v)
  {
  }

  lemma ProductOfSums(p: int, x: int, y: int)
    ensures (p + x) * (p + y) == p * p + p * (x + y) + x * y
  {
  }

  /** The numerator squared never exceeds the denominator squared, for any
      non-negative counts. */
  lemma MccNumeratorBound(c: Confusion)
    requires NonNegativeCounts(c)
    ensures Numerator(c) * Numerator(c) <= DenominatorSquared(c)
  {
    var tp, tn, fp, fn := c.tp, c.tn, c.fp, c.fn;
    var u, v := tp * tn, fp * fn;
    var x, y := tp * fn + fp * tn, tp * fp + fn * tn;
    Expand(tp, tn, fp, fn);
    Expand(tp, tn, fn, fp);
    Regroup(tp + fp, tp + fn, tn + fp, tn + fn);
    assert DenominatorSquared(c) == (u + v + x) * (u + v + y);
    ProductOfSums(u + v, x, y);
    SquareOfDifference(u, v);
    MulNonNegative(tp, tn);
    MulNonNegative(fp, fn);
    MulNonNegative(tp, fn);
    MulNonNegative(fp, tn);
    MulNonNegative(tp, fp);
    MulNonNegative(fn, tn);
    MulNonNegative(u + v, x + y);
    MulNonNegative(x, y);
    MulNonNegative(u, v);
  }

  lemma DenominatorFacts(c: Confusion)
    ensures NonNegativeCounts(c) ==>
      (DenominatorSquared(c) == 0 <==>
        c.tp + c.fp == 0 || c.tp + c.fn == 0 || c.tn + c.fp == 0 || c.tn + c.fn == 0)
    ensures NonNegativeCounts(c) ==> Numerator(c) * Numerator(c) <= DenominatorSquared(c)
  {
    if NonNegativeCounts(c) {
      if c.tp + c.fp > 0 && c.tp + c.fn > 0 && c.tn + c.fp > 0 && c.tn + c.fn > 0 {
        ProductPositive(c.tp + c.fp, c.tp + c.fn, c.tn + c.fp, c.tn + c.fn);
      }
      MccNumeratorBound(c);
    }
  }

  /**
   * The formula of `_calculate` on integer counts: degenerate exactly when one
   * of the four marginal sums is 0, and otherwise a value in [-1, 1].
   */
  function MccOf(c: Confusion): (v: Mcc)
    ensures NonNegativeCounts(c) ==>
      (v.Degenerate? <==> c.tp + c.fp == 0 || c.tp + c.fn == 0 || c.tn + c.fp == 0 || c.tn + c.fn == 0)
    ensures NonNegativeCounts(c) ==> WithinUnit(v)
  {
    DenominatorFacts(c);
    var d := DenominatorSquared(c);
    if d == 0 then Degenerate else Ratio(Numerator(c), d)
  }

  /** Exchanging false positives and false negatives leaves the formula unchanged. */
  lemma MccOfSwap(c: Confusion)
    ensures MccOf(Confusion(c.tp, c.tn, c.fn, c.fp)) == MccOf(c)
  {
    var a, b, d, e := c.tp + c.fp, c.tp + c.fn, c.tn + c.fp, c.tn + c.fn;
    assert b * a * e * d == a * b * d * e by {
      Regroup(b, a, e, d);
      Regroup(a, b, d, e);
    }
    assert c.fn * c.fp == c.fp * c.fn;
  }

  /** Swapping ground truth and segmentation leaves the coefficient unchanged. */
  lemma MccSymmetric(gt: seq<bool>, sm: seq<bool>)
    requires |gt| == |sm|
    ensures MccOf(Count(sm, gt)) == MccOf(Count(gt, sm))
  {
    CountSwap(gt, sm);
    MccOfSwap(Count(gt, sm));
  }

  /** No false positives or negatives and both classes present: exactly 1. */
  lemma MccOfPerfect(c: Confusion)
    requires c.fp == 0 && c.fn == 0 && c.tp > 0 && c.tn > 0
    ensures IsOne(MccOf(c))
  {
    Regroup(c.tp, c.tp, c.tn, c.tn);
    assert (c.tp * c.tn) * (c.tp * c.tn) == (c.tp * c.tn) * (c.tp * c.tn);
    assert DenominatorSquared(c) == (c.tp * c.tn) * (c.tn * c.tp);
    MulNonNegative(c.tp, c.tn);
    ProductPositive(c.tp, c.tp, c.tn, c.tn);
  }

  /** No true positives or negatives and both classes present: exactly -1. */
  lemma MccOfInverted(c: Confusion)
    requires c.tp == 0 && c.tn == 0 && c.fp > 0 && c.fn > 0
    ensures IsMinusOne(MccOf(c))
  {
    Regroup(c.fp, c.fn, c.fp, c.fn);
    assert DenominatorSquared(c) == (c.fp * c.fn) * (c.fn * c.fp);
    ProductPositive(c.fp, c.fn, c.fp, c.fn);
    assert c.fp * c.fn > 0;
  }

  /** Perfect agreement with both classes present gives exactly 1. */
  lemma MccPerfectAgreement(gt: seq<bool>)
    requires true in gt && false in gt
    ensures IsOne(MccOf(Count(gt, gt)))
  {
    var c := Count(gt, gt);
    CountPositive(Both, gt, gt);
    CountPositive(Neither, gt, gt);
    CountPositive(PredictedOnly, gt, gt);
    CountPositive(TruthOnly, gt, gt);
    var i :| 0 <= i < |gt| && gt[i];
    var k :| 0 <= k < |gt| && !gt[k];
    assert Selects(Both, gt[i], gt[i]) && Selects(Neither, gt[k], gt[k]);
    MccOfPerfect(c);
  }

  function Negate(m: seq<bool>): (r: seq<bool>)
    ensures |r| == |m| && forall i :: 0 <= i < |m| ==> r[i] == !m[i]
  {
    seq(|m|, i requires 0 <= i < |m| => !m[i])
  }

  /** Predicting the exact complement, with both classes present, gives exactly -1. */
  lemma MccComplement(gt: seq<bool>)
    requires true in gt && false in gt
    ensures IsMinusOne(MccOf(Count(gt, Negate(gt))))
  {
    var sm := Negate(gt);
    var c := Count(gt, sm);
    CountPositive(Both, gt, sm);
    CountPositive(Neither, gt, sm);
    CountPositive(PredictedOnly, gt, sm);
    CountPositive(TruthOnly, gt, sm);
    var i :| 0 <= i < |gt| && gt[i];
    var k :| 0 <= k < |gt| && !gt[k];
    assert Selects(TruthOnly, gt[i], sm[i]) && Selects(PredictedOnly, gt[k], sm[k]);
    MccOfInverted(c);
  }

  /**
   * `MatthewsCorrelationCoefficientMetric._calculate` on two masks: fails when
   * their shapes differ, and otherwise counts over every cell, the counts
   * adding up to the number of pixels.
   */
  function Calculate(groundTruth: Mask, segMap: Mask): (r: Result<(Confusion, Mcc), MetricError>)
    ensures r.Ok? <==> SameShape(groundTruth, segMap)
    ensures r.Ok? ==> var (c, v) := r.value;
      && NonNegativeCounts(c)
      && c.tp + c.tn + c.fp + c.fn == Cells(groundTruth)
      && WithinUnit(v)
  {
    if !SameShape(groundTruth, segMap) then Err(MaskShapeMismatch)
    else
      SameShapeCells(groundTruth, segMap);
      var c := Count(Truth(groundTruth), Truth(segMap));
      Ok((c, MccOf(c)))
  }

  /** For an h x w ground truth the four counts add up to h * w. */
  lemma CalculateCountsPixels(groundTruth: Mask, segMap: Mask, h: nat, w: nat)
    requires Rectangular(groundTruth, h, w) && Rectangular(segMap, h, w)
    ensures Calculate(groundTruth, segMap).Ok?
    ensures var c := Calculate(groundTruth, segMap).value.0; c.tp + c.tn + c.fp + c.fn == h * w
  {
    RectangularCells(groundTruth, h, w);
  }

  // ---------------------------------------------------------------------------
  // Masks of different shapes, as numpy combines them

  /** numpy broadcasting of one dimension: equal sizes, or one of them is 1. */
  predicate Broadcastable(a: nat, b: nat) {
    a == b || a == 1 || b == 1
  }

  function BroadcastSize(a: nat, b: nat): nat {
    if a == 1 then b else a
  }

  /** An h x w mask stretched to bh x bw: a dimension of size 1 repeats its
      only entry. */
  function Stretch(m: Mask, h: nat, w: nat, bh: nat, bw: nat): (s: Mask)
    requires Rectangular(m, h, w) && (h == bh || h == 1) && (w == bw || w == 1)
    ensures Rectangular(s, bh, bw)
    ensures forall i, j :: 0 <= i < bh && 0 <= j < bw ==>
      s[i][j] == m[if h == 1 then 0 else i][if w == 1 then 0 else j]
  {
    seq(bh, i requires 0 <= i < bh =>
      seq(bw, j requires 0 <= j < bw => m[if h == 1 then 0 else i][if w == 1 then 0 else j]))
  }

  /** `np.count_nonzero` of a flattened mask. */
  function Nonzero(cells: seq<bool>): nat {
    CountWhere(Actual, cells, cells)
  }

  /** The cells of the two masks after numpy stretches both to their common
      broadcast shape: ground truth first, segmentation second. */
  function BroadcastCells(gt: Mask, h1: nat, w1: nat, sm: Mask, h2: nat, w2: nat): (r: (seq<bool>, seq<bool>))
    requires Rectangular(gt, h1, w1) && Rectangular(sm, h2, w2)
    requires Broadcastable(h1, h2) && Broadcastable(w1, w2)
    ensures |r.0| == |r.1| == BroadcastSize(h1, h2) * BroadcastSize(w1, w2)
  {
    var bh, bw := BroadcastSize(h1, h2), BroadcastSize(w1, w2);
    var gb, sb := Stretch(gt, h1, w1, bh, bw), Stretch(sm, h2, w2, bh, bw);
    RectangularCells(gb, bh, bw);
    RectangularCells(sb, bh, bw);
    (Truth(gb), Truth(sb))
  }

  /**
   * The counts of `_calculate` as written, given the broadcast cells g and s
   * and the segmentation's own cells: the true counts are over g and s, the
   * false ones subtract them from counts over `own`.
   */
  function CountsOver(g: seq<bool>, s: seq<bool>, own: seq<bool>): (c: Confusion)
    requires |g| == |s|
    ensures c.tp == CountWhere(Both, g, s) && c.tn == CountWhere(Neither, g, s)
    ensures c.fp == CountWhere(PredictedOnly, g, s) - (Nonzero(s) - Nonzero(own))
    ensures c.fn == CountWhere(TruthOnly, g, s) - ((|s| - Nonzero(s)) - (|own| - Nonzero(own)))
    ensures c.tp + c.fp == Nonzero(own) && c.tn + c.fn == |own| - Nonzero(own)
  {
    CountsPartition(g, s);
    PredictedCounts(g, s);
    var tp, tn := CountWhere(Both, g, s), CountWhere(Neither, g, s);
    Confusion(tp, tn, Nonzero(own) - tp, (|own| - Nonzero(own)) - tn)
  }

  /**
   * The counts of `_calculate` as written, on an h1 x w1 ground truth and an
   * h2 x w2 segmentation that numpy can combine. The products `sm * gt` and
   * `~sm * ~gt` count over the broadcast masks, but the false positives and
   * negatives subtract them from counts over the segmentation alone: each
   * falls short of the broadcast count by the cells the stretching added.
   */
  function BroadcastCounts(gt: Mask, h1: nat, w1: nat, sm: Mask, h2: nat, w2: nat): (c: Confusion)
    requires Rectangular(gt, h1, w1) && Rectangular(sm, h2, w2)
    requires Broadcastable(h1, h2) && Broadcastable(w1, w2)
    ensures var cells := BroadcastCells(gt, h1, w1, sm, h2, w2);
      var g, s, own := cells.0, cells.1, Truth(sm);
      && c.tp == CountWhere(Both, g, s)
      && c.tn == CountWhere(Neither, g, s)
      && c.fp == CountWhere(PredictedOnly, g, s) - (Nonzero(s) - Nonzero(own))
      && c.fn == CountWhere(TruthOnly, g, s) - ((|s| - Nonzero(s)) - (|own| - Nonzero(own)))
    ensures c.tp + c.fp == Nonzero(Truth(sm)) && c.tn + c.fn == Cells(sm) - Nonzero(Truth(sm))
  {
    var cells := BroadcastCells(gt, h1, w1, sm, h2, w2);
    CountsOver(cells.0, cells.1, Truth(sm))
  }

  /** The formula on counts that may be negative: `sqrt` raises on a negative
      product, and otherwise the result is that of `MccOf`. */
  function MccChecked(c: Confusion): (r: Result<(Confusion, Mcc), MetricError>)
    ensures r.Err? <==> DenominatorSquared(c) < 0
    ensures r.Ok? ==> r.value.0 == c && r.value.1 == MccOf(c)
    ensures NonNegativeCounts(c) ==> r.Ok?
  {
    DenominatorFacts(c);
    SquareNonNegative(Numerator(c));
    if DenominatorSquared(c) < 0 then Err(SqrtDomain) else Ok((c, MccOf(c)))
  }

  /**
   * `_calculate` as written on masks of any two shapes: incompatible shapes
   * raise, and so does `sqrt` of a negative product.
   */
  function CalculateBroadcast(gt: Mask, h1: nat, w1: nat, sm: Mask, h2: nat, w2: nat)
    : (r: Result<(Confusion, Mcc), MetricError>)
    requires Rectangular(gt, h1, w1) && Rectangular(sm, h2, w2)
    ensures (r.Err? && r.error == MaskShapeMismatch) <==> !(Broadcastable(h1, h2) && Broadcastable(w1, w2))
    ensures r == Err(SqrtDomain) <==>
      && Broadcastable(h1, h2) && Broadcastable(w1, w2)
      && DenominatorSquared(BroadcastCounts(gt, h1, w1, sm, h2, w2)) < 0
    ensures r.Ok? ==>
      && Broadcastable(h1, h2) && Broadcastable(w1, w2)
      && r.value.0 == BroadcastCounts(gt, h1, w1, sm, h2, w2)
      && r.value.1 == MccOf(r.value.0)
    ensures r.Ok? ==> var (c, v) := r.value;
      c.tp + c.fp == Nonzero(Truth(sm)) && c.tn + c.fn == Cells(sm) - Nonzero(Truth(sm))
  {
    if !(Broadcastable(h1, h2) && Broadcastable(w1, w2)) then Err(MaskShapeMismatch)
    else MccChecked(BroadcastCounts(gt, h1, w1, sm, h2, w2))
  }

  /** Over one mask, counting predicted cells against any partner counts the
      mask's own non-zero cells. */
  lemma {:induction false} PredictedCounts(gt: seq<bool>, sm: seq<bool>)
    requires |gt| == |sm|
    ensures CountWhere(Predicted, gt, sm) == Nonzero(sm)
    ensures CountWhere(NotPredicted, gt, sm) == |sm| - Nonzero(sm)
    decreases |gt|
  {
    if |gt| > 0 {
      PredictedCounts(gt[1..], sm[1..]);
    }
  }

  lemma StretchSame(m: Mask, h: nat, w: nat)
    requires Rectangular(m, h, w)
    ensures Stretch(m, h, w, h, w) == m
  {
    var s := Stretch(m, h, w, h, w);
    assert forall i :: 0 <= i < h ==> s[i] == m[i];
  }

  /** On masks of the same shape the broadcast counts are the plain ones. */
  lemma BroadcastCountsSameShape(gt: Mask, sm: Mask, h: nat, w: nat)
    requires Rectangular(gt, h, w) && Rectangular(sm, h, w)
    ensures |Truth(gt)| == |Truth(sm)| && BroadcastCounts(gt, h, w, sm, h, w) == Count(Truth(gt), Truth(sm))
  {
    StretchSame(gt, h, w);
    StretchSame(sm, h, w);
    RectangularCells(gt, h, w);
    RectangularCells(sm, h, w);
    PredictedCounts(Truth(gt), Truth(sm));
  }

  /** On masks of the same shape the code as written computes what
      `Calculate` does. */
  lemma BroadcastSameShape(gt: Mask, sm: Mask, h: nat, w: nat)
    requires Rectangular(gt, h, w) && Rectangular(sm, h, w)
    ensures CalculateBroadcast(gt, h, w, sm, h, w) == Calculate(gt, sm)
  {
    BroadcastCountsSameShape(gt, sm, h, w);
    RectangularCells(gt, h, w);
    RectangularCells(sm, h, w);
    var c := Count(Truth(gt), Truth(sm));
    assert MccChecked(c) == Ok((c, MccOf(c)));
  }

  lemma {:induction false} NonzeroAppend(a: seq<bool>, b: seq<bool>)
    ensures Nonzero(a + b) == Nonzero(a) + Nonzero(b)
    decreases |a|
  {
    if |a| > 0 {
      assert (a + b)[0] == a[0] && (a + b)[1..] == a[1..] + b;
      assert Nonzero(a + b) == (if a[0] then 1 else 0) + Nonzero(a[1..] + b);
      assert Nonzero(a) == (if a[0] then 1 else 0) + Nonzero(a[1..]);
      NonzeroAppend(a[1..], b);
    } else {
      assert a + b == b;
    }
  }

  /** A mask's cells are its first row's cells followed by the rest. */
  lemma TruthCons(m: Mask)
    requires |m| > 0
    ensures Truth(m) == Truth([m[0]]) + Truth(m[1..])
  {
    assert [m[0]][1..] == [];
  }

  /** A mask whose first two rows agree has at least twice the set cells of
      its first row. */
  lemma RepeatedRowCells(m: Mask)
    requires |m| > 1 && m[1] == m[0]
    ensures Nonzero(Truth(m)) >= 2 * Nonzero(Truth([m[0]]))
  {
    TruthCons(m);
    TruthCons(m[1..]);
    assert m[1..][0] == m[0];
    NonzeroAppend(Truth([m[0]]), Truth(m[1..]));
    NonzeroAppend(Truth([m[0]]), Truth(m[1..][1..]));
  }

  /** Stretching a one-row segmentation across its width keeps every set
      cell, and keeps at least one when there is one. */
  lemma StretchedFirstRow(sm: Mask, w2: nat, bh: nat, bw: nat)
    requires Rectangular(sm, 1, w2) && 0 < bh && 0 < bw && (w2 == bw || w2 == 1)
    requires Nonzero(Truth(sm)) > 0
    ensures Nonzero(Truth([Stretch(sm, 1, w2, bh, bw)[0]])) >= Nonzero(Truth(sm))
    ensures Nonzero(Truth([Stretch(sm, 1, w2, bh, bw)[0]])) > 0
  {
    var sb := Stretch(sm, 1, w2, bh, bw);
    assert sm == [sm[0]];
    if w2 == bw {
      assert sb[0] == sm[0];
    } else {
      var own, row := Truth(sm), Truth([sb[0]]);
      assert |own| == 1 && own[1..] == [];
      assert Nonzero(own) == (if own[0] then 1 else 0) + Nonzero(own[1..]);
      assert row[0];
    }
  }

  /** A one-row segmentation stretched down to several rows has more set
      cells than the segmentation itself, when it has any. */
  lemma StretchedRowsAddCells(sm: Mask, w2: nat, bh: nat, bw: nat)
    requires Rectangular(sm, 1, w2) && 1 < bh && 0 < bw && (w2 == bw || w2 == 1)
    requires Nonzero(Truth(sm)) > 0
    ensures Nonzero(Truth(Stretch(sm, 1, w2, bh, bw))) > Nonzero(Truth(sm))
  {
    var sb := Stretch(sm, 1, w2, bh, bw);
    assert sb[1] == sb[0];
    RepeatedRowCells(sb);
    StretchedFirstRow(sm, w2, bh, bw);
  }

  /**
   * A one-row segmentation against a ground truth of several non-empty rows:
   * when the segmentation sets any cell, the false positives of the code as
   * written fall below the number of broadcast cells predicted but absent.
   */
  lemma BroadcastRowsUndercount(gt: Mask, h1: nat, w1: nat, sm: Mask, w2: nat)
    requires Rectangular(gt, h1, w1) && Rectangular(sm, 1, w2)
    requires 1 < h1 && 0 < w1 && Broadcastable(w1, w2)
    requires Nonzero(Truth(sm)) > 0
    ensures var (g, s) := BroadcastCells(gt, h1, w1, sm, 1, w2);
      BroadcastCounts(gt, h1, w1, sm, 1, w2).fp < CountWhere(PredictedOnly, g, s)
  {
    StretchedRowsAddCells(sm, w2, h1, BroadcastSize(w1, w2));
  }

  /** The cells of the first example: the segmentation's row stretched to
      two rows equals the ground truth. */
  lemma OutOfRangeCells(gt: Mask, sm: Mask)
    requires gt == [[1, 0], [1, 0]] && sm == [[1, 0]]
    ensures BroadcastCells(gt, 2, 2, sm, 1, 2) == (Truth(gt), Truth(gt))
    ensures Truth(gt) == [true, false, true, false] && Truth(sm) == [true, false]
  {
    var sb := Stretch(sm, 1, 2, 2, 2);
    assert sb == gt by {
      assert sb[0] == gt[0] && sb[1] == gt[1];
    }
    StretchSame(gt, 2, 2);
    assert Truth(sm[1..]) == [];
    assert Truth(gt[1..]) == [true, false];
  }

  lemma OutOfRangeCounts(g: seq<bool>, own: seq<bool>)
    requires g == [true, false, true, false] && own == [true, false]
    ensures CountsOver(g, g, own) == Confusion(2, 2, -1, -1)
  {
    assert g[1..] == [false, true, false] && g[2..] == [true, false] && g[3..] == [false];
    assert CountWhere(Both, g[3..], g[3..]) == 0 && CountWhere(Neither, g[3..], g[3..]) == 1;
    assert CountWhere(Both, g[2..], g[2..]) == 1 && CountWhere(Neither, g[2..], g[2..]) == 1;
    assert CountWhere(Both, g[1..], g[1..]) == 1 && CountWhere(Neither, g[1..], g[1..]) == 2;
    assert own[1..] == [false] && own[1..][1..] == [];
    assert Nonzero(own[1..]) == 0 + Nonzero(own[1..][1..]);
    assert Nonzero(own) == 1 + Nonzero(own[1..]);
  }

  /**
   * A 2 x 2 ground truth against a 1 x 2 segmentation: numpy accepts the
   * pair, the false positives and negatives come out as -1, and the result is
   * 3 / sqrt(1) = 3, outside [-1, 1].
   */
  lemma BroadcastOutOfRange(gt: Mask, sm: Mask)
    requires gt == [[1, 0], [1, 0]] && sm == [[1, 0]]
    ensures CalculateBroadcast(gt, 2, 2, sm, 1, 2) == Ok((Confusion(2, 2, -1, -1), Ratio(3, 1)))
    ensures !WithinUnit(Ratio(3, 1))
  {
    OutOfRangeCells(gt, sm);
    var cells := BroadcastCells(gt, 2, 2, sm, 1, 2);
    OutOfRangeCounts(cells.0, Truth(sm));
    var c := Confusion(2, 2, -1, -1);
    assert BroadcastCounts(gt, 2, 2, sm, 1, 2) == CountsOver(cells.0, cells.1, Truth(sm)) == c;
    assert DenominatorSquared(c) == 1 && Numerator(c) == 3;
  }

  /** The cells of the second example: an empty ground truth against the
      segmentation's row stretched to two rows. */
  lemma SqrtDomainCells(gt: Mask, sm: Mask)
    requires gt == [[0, 0], [0, 0]] && sm == [[1, 0]]
    ensures BroadcastCells(gt, 2, 2, sm, 1, 2) == ([false, false, false, false], [true, false, true, false])
    ensures Truth(sm) == [true, false]
  {
    var sb := Stretch(sm, 1, 2, 2, 2);
    assert sb == [[1, 0], [1, 0]] by {
      assert sb[0] == [1, 0] && sb[1] == [1, 0];
    }
    StretchSame(gt, 2, 2);
    assert Truth(sm[1..]) == [];
    assert Truth(sb[1..]) == [true, false];
    assert Truth(sb) == [true, false, true, false];
    assert Truth(gt[1..]) == [false, false];
    assert Truth(gt) == [false, false, false, false];
  }

  lemma SqrtDomainCounts(g: seq<bool>, s: seq<bool>, own: seq<bool>)
    requires g == [false, false, false, false] && s == [true, false, true, false] && own == [true, false]
    ensures CountsOver(g, s, own) == Confusion(0, 2, 1, -1)
  {
    assert g[1..] == [false, false, false] && g[2..] == [false, false] && g[3..] == [false];
    assert s[1..] == [false, true, false] && s[2..] == [true, false] && s[3..] == [false];
    assert CountWhere(Both, g[3..], s[3..]) == 0 && CountWhere(Neither, g[3..], s[3..]) == 1;
    assert CountWhere(Both, g[2..], s[2..]) == 0 && CountWhere(Neither, g[2..], s[2..]) == 1;
    assert CountWhere(Both, g[1..], s[1..]) == 0 && CountWhere(Neither, g[1..], s[1..]) == 2;
    assert own[1..] == [false] && own[1..][1..] == [];
    assert Nonzero(own[1..]) == 0 + Nonzero(own[1..][1..]);
    assert Nonzero(own) == 1 + Nonzero(own[1..]);
  }

  /**
   * A 2 x 2 empty ground truth against the 1 x 2 segmentation [1, 0]: the
   * product under the square root is -3, so `sqrt` raises.
   */
  lemma BroadcastSqrtDomain(gt: Mask, sm: Mask)
    requires gt == [[0, 0], [0, 0]] && sm == [[1, 0]]
    ensures CalculateBroadcast(gt, 2, 2, sm, 1, 2) == Err(SqrtDomain)
  {
    SqrtDomainCells(gt, sm);
    var cells := BroadcastCells(gt, 2, 2, sm, 1, 2);
    SqrtDomainCounts(cells.0, cells.1, Truth(sm));
    var c := Confusion(0, 2, 1, -1);
    assert BroadcastCounts(gt, 2, 2, sm, 1, 2) == CountsOver(cells.0, cells.1, Truth(sm)) == c;
    assert DenominatorSquared(c) == -3;
    assert CalculateBroadcast(gt, 2, 2, sm, 1, 2) == MccChecked(c);
  }
}
