// Body detection (common/body_detection.c): on-body or off-body from the variance of the
// acceleration over the last window of samples, with a long quiet time before off-body.
module BodyDetection {
  import opened Ring
  import opened MotionVariance

  // ------------------------------------------------------------- what it decides

  /** The confidence in this variance would be divided by zero, which panics. */
  predicate Panics(variance: int, threshold: int, delta: int) {
    delta == 0 && variance == threshold
  }

  /** calculate_motion_confidence, a percentage. */
  function Confidence(variance: int, threshold: int, delta: int): (c: int)
    requires 0 <= delta <= threshold && !Panics(variance, threshold, delta)
    ensures 0 <= c <= 100
  {
    if variance < threshold - delta then 0
    else if variance > threshold + delta then 100
    else
      ConfidenceInside(variance - threshold + delta, 2 * delta);
      100 * (variance - threshold + delta) / (2 * delta)
  }

  lemma ConfidenceInside(part: int, whole: int)
    requires 0 <= part <= whole && whole > 0
    ensures 0 <= 100 * part / whole <= 100
  {
    assert 100 * part <= 100 * whole;
    DivideMonotone(0, 100 * part, whole);
    DivideMonotone(100 * part, 100 * whole, whole);
    assert (100 * whole) / whole == 100;
  }

  lemma Multiples(d: int, p: int, q: int)
    requires d > 0
    ensures p > q ==> d * p >= d * q + d
  {
    if p > q {
      var more := p - q - 1;
      assert d * p == d * q + d + d * more;
      assert d * more >= 0;
    }
  }

  lemma DivideMonotone(a: int, b: int, d: int)
    requires d > 0 && a <= b
    ensures a / d <= b / d
  {
    var p, q := a / d, b / d;
    assert d * p <= a && b < d * q + d;
    Multiples(d, p, q);
  }

  /** More motion never means less confidence that the device is on a body. */
  lemma ConfidenceMonotone(v: int, w: int, threshold: int, delta: int)
    requires 0 <= delta <= threshold && v <= w
    requires !Panics(v, threshold, delta) && !Panics(w, threshold, delta)
    ensures Confidence(v, threshold, delta) <= Confidence(w, threshold, delta)
  {
    if threshold - delta <= v && w <= threshold + delta {
      DivideMonotone(100 * (v - threshold + delta), 100 * (w - threshold + delta), 2 * delta);
    }
  }

  /** A quotient of integers, rounded down. */
  lemma QuotientIs(a: int, d: int, q: int)
    requires d > 0 && q == a / d
    ensures d * q <= a < d * q + d
  {
  }

  /**
   * The confidence in words: none below the band around the threshold and all above it; in
   * between it grows in proportion, from nothing at the lower edge through one half at the
   * threshold to everything at the upper edge, rounded down.
   */
  lemma ConfidenceInWords(v: int, threshold: int, delta: int)
    requires 0 < delta <= threshold
    ensures v <= threshold - delta ==> Confidence(v, threshold, delta) == 0
    ensures Confidence(threshold, threshold, delta) == 50
    ensures v >= threshold + delta ==> Confidence(v, threshold, delta) == 100
    ensures threshold - delta <= v <= threshold + delta ==>
      var c := Confidence(v, threshold, delta);
      2 * delta * c <= 100 * (v - (threshold - delta)) < 2 * delta * c + 2 * delta
  {
    Halves(delta);
    if threshold - delta <= v <= threshold + delta {
      QuotientIs(100 * (v - threshold + delta), 2 * delta, Confidence(v, threshold, delta));
    }
  }

  lemma Halves(delta: int)
    requires delta > 0
    ensures 100 * 0 / (2 * delta) == 0 && 100 * delta / (2 * delta) == 50 && 100 * (2 * delta) / (2 * delta) == 100
  {
    assert 100 * delta == 50 * (2 * delta);
  }

  // ------------------------------------------------------------- thresholds

  const VAR_THRESHOLD := 550            // mm^2/s^4
  const CONFIDENCE_DELTA := 525
  const MAX_RANGE := 76                 // g

  /** Sensor units per g, squared (data_1g is a 16-bit full scale over the range). */
  function Multiplier(range: int): int
    requires range > 0
  {
    (0x8000 / range) * (0x8000 / range)
  }

  /** The noise of the sensor in mm^2/s^4, from its rms value in micro g and a percentage. */
  function VarNoise(rmsNoise: nat, factor: nat): int {
    rmsNoise * rmsNoise * factor * (98 * 98) / 100 / (10000 * 10000)
  }

  /** A variance in mm^2/s^4 in squared sensor units. */
  function ScaledToRange(variance: int, range: int): int
    requires range > 0
  {
    variance * Multiplier(range) / (9800 * 9800)
  }

  lemma UnitsPerG(range: int)
    requires range > 0
    ensures range <= MAX_RANGE ==> 0x8000 / range >= 431
    ensures range > MAX_RANGE ==> 0 <= 0x8000 / range <= 425
  {
    var q := 0x8000 / range;
    assert q * range <= 0x8000 < q * range + range;
    if range <= MAX_RANGE {
      if q <= 430 { ProductBound(q + 1, range, 431, MAX_RANGE); }
    } else if q > 425 {
      ProductBound(426, MAX_RANGE + 1, q, range);
    }
  }

  /**
   * The band around the threshold never exceeds the threshold, and has a width exactly
   * for ranges up to 76 g.
   */
  lemma BandIsUsable(range: int, noise: nat)
    requires range > 0
    ensures ScaledToRange(CONFIDENCE_DELTA, range) <= ScaledToRange(VAR_THRESHOLD + noise, range)
    ensures ScaledToRange(CONFIDENCE_DELTA, range) > 0 <==> range <= MAX_RANGE
  {
    UnitsPerG(range);
    var q := 0x8000 / range;
    if range <= MAX_RANGE {
      ProductBound(431, 431, q, q);
    } else {
      ProductBound(q, q, 425, 425);
    }
    ProductBound(CONFIDENCE_DELTA, q * q, VAR_THRESHOLD + noise, q * q);
    DivideMonotone(CONFIDENCE_DELTA * (q * q), (VAR_THRESHOLD + noise) * (q * q), 9800 * 9800);
  }

  /** The thresholds of determine_threshold_scale. */
  function ThresholdOf(range: int, rmsNoise: nat, factor: nat): int
    requires range > 0
  {
    ScaledToRange(VAR_THRESHOLD + VarNoise(rmsNoise, factor), range)
  }

  function DeltaOf(range: int): int
    requires range > 0
  {
    ScaledToRange(CONFIDENCE_DELTA, range)
  }

  lemma ThresholdsFit(range: int, rmsNoise: nat, factor: nat)
    requires range > 0
    ensures 0 <= DeltaOf(range) <= ThresholdOf(range, rmsNoise, factor)
    ensures DeltaOf(range) > 0 <==> range <= MAX_RANGE
  {
    BandIsUsable(range, VarNoise(rmsNoise, factor));
    UnitsPerG(range);
    var q := 0x8000 / range;
    assert q >= 0;
    ProductBound(q, q, q, q);
  }

  /** Two divisions rounded down are one. */
  lemma DividedTwice(a: int, d: int, e: int)
    requires d > 0 && e > 0 && d * e > 0
    ensures var q := a / d / e; d * e * q <= a < d * e * q + d * e
  {
    var p, q := a / d, a / d / e;
    QuotientIs(a, d, p);
    QuotientIs(p, e, q);
    ProductOrder(d, e * q, p);
    ProductOrder(d, p + 1, e * q + e);
  }

  lemma ProductOrder(d: int, a: int, b: int)
    requires d > 0 && a <= b
    ensures d * a <= d * b
  {
  }

  /**
   * The two thresholds in the sensor's units: q of them make one g, 9800 mm/s^2; noise adds its
   * percentage of the squared rms value, 98 mm/s^2 for 10000 micro g, to the 550 mm^2/s^4.
   */
  lemma ThresholdsInUnits(range: int, rmsNoise: nat, factor: nat)
    requires range > 0
    ensures var q, noise := 32768 / range, VarNoise(rmsNoise, factor);
            && 10000000000 * noise <= rmsNoise * rmsNoise * factor * 9604 < 10000000000 * noise + 10000000000
            && 96040000 * ThresholdOf(range, rmsNoise, factor) <= (550 + noise) * (q * q)
                 < 96040000 * ThresholdOf(range, rmsNoise, factor) + 96040000
            && 96040000 * DeltaOf(range) <= 525 * (q * q) < 96040000 * DeltaOf(range) + 96040000
  {
    DividedTwice(rmsNoise * rmsNoise * factor * (98 * 98), 100, 10000 * 10000);
    QuotientIs((VAR_THRESHOLD + VarNoise(rmsNoise, factor)) * Multiplier(range), 9800 * 9800, ThresholdOf(range, rmsNoise, factor));
    QuotientIs(CONFIDENCE_DELTA * Multiplier(range), 9800 * 9800, DeltaOf(range));
  }

  /** Some variance makes the detector panic if and only if the sensor's range exceeds 76 g. */
  lemma PanicsExactly(range: int, rmsNoise: nat, factor: nat)
    requires range > 0
    ensures (exists v :: v >= 0 && Panics(v, ThresholdOf(range, rmsNoise, factor), DeltaOf(range))) <==> range > MAX_RANGE
  {
    ThresholdsFit(range, rmsNoise, factor);
    var t := ThresholdOf(range, rmsNoise, factor);
    assert range > MAX_RANGE ==> Panics(t, t, DeltaOf(range));
  }

  // ------------------------------------------------------------- motion

  /** The last n values of a series. */
  function LastOf(series: seq<int>, n: nat): seq<int>
    requires n <= |series|
  {
    series[|series| - n..]
  }

  /** Var(X) + Var(Y) of the last n samples, rounded as the firmware rounds. */
  function MotionOf(xs: seq<int>, ys: seq<int>, n: nat): int
    requires 0 < n <= |xs| && n <= |ys|
  {
    (N2Variance(LastOf(xs, n)) + N2Variance(LastOf(ys, n))) / n / n
  }

  lemma MotionInProducts(xs: seq<int>, ys: seq<int>, n: nat)
    requires 0 < n <= |xs| && n <= |ys| && n * n > 0
    ensures var m := MotionOf(xs, ys, n);
            n * n * m <= N2Variance(xs[|xs| - n..]) + N2Variance(ys[|ys| - n..]) < n * n * m + n * n
  {
    DividedTwice(N2Variance(LastOf(xs, n)) + N2Variance(LastOf(ys, n)), n, n);
  }

  lemma CancelReal(n: real, a: real, b: real)
    requires n > 0.0
    ensures n * a <= n * b ==> a <= b
    ensures n * a < n * b ==> a < b
  {
    if a > b { assert n * (a - b) > 0.0; }
    if a == b { assert n * a == n * b; }
  }

  lemma AsRealOrder(a: int, b: int)
    ensures a <= b ==> a as real <= b as real
    ensures a < b ==> a as real < b as real
  {
  }

  /** n^2 m <= n d < n^2 (m + 1), divided by n. */
  lemma MeanOfSquares(n: real, m: real, d: real, v: real)
    requires n > 0.0 && v == n * d && n * n * m <= v && v < n * n * m + n * n
    ensures n * m <= d < n * m + n
  {
    assert n * (n * m) == n * n * m && n * (n * m + n) == n * n * m + n * n;
    CancelReal(n, n * m, d);
    CancelReal(n, d, n * m + n);
  }

  lemma ProductsAsReals(n: int, m: int, v: int)
    requires n * n * m <= v < n * n * m + n * n
    ensures var r := n as real; r * r * m as real <= v as real < r * r * m as real + r * r
  {
    RealProduct(n, n);
    RealProduct(n * n, m);
    AsRealOrder(n * n * m, v);
    AsRealOrder(v, n * n * m + n * n);
  }

  lemma VarianceOfAxis(h: seq<int>, n: real, mean: real)
    requires n == |h| as real && n * mean == Sum(h) as real
    ensures N2Variance(h) as real == n * Deviation(h, mean)
  {
    N2VarianceIsVariance(h, mean);
  }

  lemma ProductBounds(n: int, m: int, v: int, r: real, s: real, w: real)
    requires r == n as real && s == m as real && w == v as real && n * n * m <= v < n * n * m + n * n
    ensures r * r * s <= w < r * r * s + r * r
  {
    ProductsAsReals(n, m, v);
  }

  /**
   * The motion m is the variance around the means, of both axes together and over the last n
   * samples, rounded down to an integer.
   */
  lemma MotionIsVariance(xs: seq<int>, ys: seq<int>, n: nat, r: real, m: real, meanX: real, meanY: real)
    requires 0 < n <= |xs| && n <= |ys| && r == n as real && m == MotionOf(xs, ys, n) as real
    requires r * meanX == Sum(xs[|xs| - n..]) as real && r * meanY == Sum(ys[|ys| - n..]) as real
    ensures r * m <= Deviation(xs[|xs| - n..], meanX) + Deviation(ys[|ys| - n..], meanY) < r * m + r
  {
    ProductBound(1, 1, n, n);
    MotionInProducts(xs, ys, n);
    var x, y := xs[|xs| - n..], ys[|ys| - n..];
    VarianceOfAxis(x, r, meanX);
    VarianceOfAxis(y, r, meanY);
    var v := N2Variance(x) + N2Variance(y);
    ProductBounds(n, MotionOf(xs, ys, n), v, r, m, v as real);
    FromBothAxes(r, m, Deviation(x, meanX), Deviation(y, meanY), v as real);
  }

  lemma FromBothAxes(n: real, m: real, dx: real, dy: real, v: real)
    requires n > 0.0 && v == n * dx + n * dy && n * n * m <= v < n * n * m + n * n
    ensures n * m <= dx + dy < n * m + n
  {
    assert v == n * (dx + dy);
    MeanOfSquares(n, m, dx + dy, v);
  }

  /** The last m confidences are all below the limit. */
  ghost predicate QuietFor(confidences: seq<int>, m: nat, offBodyCon: int) {
    m <= |confidences| && forall k :: |confidences| - m <= k < |confidences| ==> confidences[k] < offBodyCon
  }

  /** How many of the last confidences in a row were below the off-body limit. */
  function QuietRun(confidences: seq<int>, offBodyCon: int): (q: nat)
    ensures q <= |confidences|
  {
    if confidences == [] || confidences[|confidences| - 1] >= offBodyCon then 0
    else QuietRun(confidences[..|confidences| - 1], offBodyCon) + 1
  }

  /** A quiet run of m is exactly m confidences in a row below the limit. */
  lemma {:induction false} QuietRunMeans(confidences: seq<int>, offBodyCon: int, m: nat)
    ensures QuietRun(confidences, offBodyCon) >= m <==> QuietFor(confidences, m, offBodyCon)
  {
    if m > 0 && confidences != [] {
      QuietRunMeans(confidences[..|confidences| - 1], offBodyCon, m - 1);
    }
  }

  /**
   * From 79 g on, with a sensor without noise, the threshold is zero as well: a device
   * lying still panics at the first sample it evaluates.
   */
  lemma StillDevicePanics(range: int, factor: nat, n: nat)
    requires range >= 79 && n > 0
    ensures var still := seq(n, i => 0);
            Panics(MotionOf(still, still, n), ThresholdOf(range, 0, factor), DeltaOf(range))
  {
    ThresholdsFit(range, 0, factor);
    var still := seq(n, i => 0);
    ClearIsValid(still, n);
    assert LastOf(still, n) == still && still[..n] == still;
    assert 0 / n == 0;
    var q := 0x8000 / range;
    assert q * range <= 0x8000;
    ProductBound(q, q, 414, 414);
    assert VarNoise(0, factor) == 0;
  }

  // ------------------------------------------------------------- windows

  lemma {:induction false} SumConcat(a: seq<int>, b: seq<int>)
    ensures Sum(a + b) == Sum(a) + Sum(b) && SumOfSquares(a + b) == SumOfSquares(a) + SumOfSquares(b)
  {
    if b == [] {
      assert a + b == a;
    } else {
      assert (a + b)[..|a + b| - 1] == a + b[..|b| - 1];
      SumConcat(a, b[..|b| - 1]);
    }
  }

  /** The order of the samples in the ring does not matter to the variance. */
  lemma N2VarianceRotates(log: seq<int>, k: nat)
    requires k <= |log|
    ensures N2Variance(log[k..] + log[..k]) == N2Variance(log)
  {
    assert log == log[..k] + log[k..];
    SumConcat(log[..k], log[k..]);
    SumConcat(log[k..], log[..k]);
  }

  lemma WindowVariance(log: seq<int>, next: nat, series: seq<int>)
    requires Logs(log, next, series) && |series| >= |log|
    ensures N2Variance(log) == N2Variance(LastOf(series, |log|))
  {
    Unrolled(log, next, series);
    N2VarianceRotates(log, next);
  }

  /** After k samples every place of a window of n has been filled, or the next one fills it. */
  predicate Filled(k: nat, n: nat) {
    n > 0 && k > 0 && k + 1 >= n
  }

  /** One more value at the end. */
  ghost predicate Extends(was: seq<int>, now: seq<int>, v: int) {
    |now| == |was| + 1 && now[|was|] == v && forall i :: 0 <= i < |was| ==> now[i] == was[i]
  }

  /** determine_window_size: one second of samples, if there is room for them. */
  function WindowSizeFor(odr: nat, max: nat): nat {
    if odr / 1000 > max then max else odr / 1000
  }

  /** The window is a second of samples, sampled in mHz, or as many as there is room for. */
  lemma WindowIsASecond(odr: nat, max: nat)
    ensures var n := WindowSizeFor(odr, max); n <= max && 1000 * n <= odr && (n == max || odr < 1000 * (n + 1))
  {
  }

  lemma NotNegative(a: nat, b: nat)
    ensures a * b >= 0
  {
  }

  // ------------------------------------------------------------- the detector

  class Detector {
    const maxWindow: nat
    const onBodyCon: int
    const offBodyCon: int
    const duration: nat                 // seconds of quiet before off-body
    const noiseFactor: nat              // percent
    const dataX: MotionData
    const dataY: MotionData
    var windowSize: nat
    var historyIdx: nat
    var threshold: int
    var delta: int
    var stationary: nat
    var onBody: bool
    var initialized: bool
    var enabled: bool
    ghost var xs: seq<int>              // samples since the window was last set up
    ghost var ys: seq<int>
    ghost var evaluated: seq<int>       // confidences since on-body, or its timer, last started

    ghost predicate Apart()
    {
      && dataX != dataY && dataX.history != dataY.history
      && dataX.history.Length == maxWindow && dataY.history.Length == maxWindow
    }

    /** This axis holds the end of this series in a window of n. */
    static ghost predicate Tracks(data: MotionData, n: nat, next: nat, series: seq<int>)
      reads data, data.history
    {
      data.Valid(n) && (n > 0 ==> Logs(data.history[..n], next, series))
    }

    ghost predicate Window(data: MotionData, series: seq<int>)
      reads this, data, data.history
    {
      Tracks(data, windowSize, historyIdx, series)
    }

    ghost predicate Decides()
      reads this
    {
      && 0 <= delta <= threshold
      && (windowSize == 0 ==> historyIdx == 0) && (windowSize > 0 ==> historyIdx < windowSize)
      && |xs| == |ys| && (|xs| < windowSize ==> historyIdx == |xs|)
      && initialized == Filled(|xs|, windowSize)
      && (onBody ==> stationary == QuietRun(evaluated, offBodyCon))
    }

    ghost predicate Valid()
      reads this, dataX, dataX.history, dataY, dataY.history
    {
      Apart() && Decides() && Window(dataX, xs) && Window(dataY, ys)
    }

    /** The state after a first reset with the sensor running. */
    constructor (max: nat, onBodyCon: int, offBodyCon: int, duration: nat, noiseFactor: nat,
                 odr: nat, range: int, rmsNoise: nat)
      requires 0 < max <= MAX_WINDOW && odr > 0 && range > 0
      ensures Valid() && onBody && !enabled && xs == [] && windowSize == WindowSizeFor(odr, max)
      ensures maxWindow == max && this.onBodyCon == onBodyCon && this.offBodyCon == offBodyCon
      ensures this.duration == duration && this.noiseFactor == noiseFactor
      ensures fresh(dataX) && fresh(dataX.history) && fresh(dataY) && fresh(dataY.history)
    {
      maxWindow, this.onBodyCon, this.offBodyCon, this.duration := max, onBodyCon, offBodyCon, duration;
      this.noiseFactor := noiseFactor;
      dataX := new MotionData(max);
      dataY := new MotionData(max);
      windowSize, historyIdx := WindowSizeFor(odr, max), 0;
      ThresholdsFit(range, rmsNoise, noiseFactor);
      threshold := ThresholdOf(range, rmsNoise, noiseFactor);
      delta := DeltaOf(range);
      stationary, onBody, initialized, enabled := 0, true, false, false;
      xs, ys, evaluated := [], [], [];
      new;
      ClearWindow(dataX);
      ClearWindow(dataY);
    }

    lemma ClearWindow(data: MotionData)
      requires 0 < data.history.Length <= MAX_WINDOW && windowSize <= data.history.Length && historyIdx == 0
      requires data.history[..] == seq(data.history.Length, i => 0) && data.sum == 0 && data.n2Variance == 0
      ensures Window(data, [])
    {
      ClearIsValid(data.history[..], windowSize);
      assert data.history[..windowSize] == data.history[..][..windowSize];
      if windowSize > 0 {
        LogsNothing(data.history[..windowSize], historyIdx);
      }
    }

    /**
     * body_detect_reset: on body with the timer at zero; and unless the sensor is
     * suspended (its data rate is zero), an empty window of the new size.
     */
    method Reset(odr: nat, range: int, rmsNoise: nat)
      requires Valid() && range > 0
      modifies this, dataX`sum, dataX`n2Variance, dataX.history, dataY`sum, dataY`n2Variance, dataY.history
      ensures Valid() && onBody && stationary == 0 && evaluated == [] && enabled == old(enabled)
      ensures odr == 0 ==>
        windowSize == old(windowSize) && xs == old(xs) && ys == old(ys) && initialized == old(initialized)
      ensures odr > 0 ==> windowSize == WindowSizeFor(odr, maxWindow) && xs == [] && ys == [] && !initialized
      ensures odr > 0 ==>
        threshold == ThresholdOf(range, rmsNoise, noiseFactor) && delta == DeltaOf(range)
    {
      if onBody {
        stationary := 0;
        evaluated := [];
      } else {
        ChangeState(true);
      }
      if odr == 0 {
        return;
      }
      windowSize := WindowSizeFor(odr, maxWindow);
      DetermineThresholdScale(range, rmsNoise);
      ClearData();
    }

    /** determine_threshold_scale */
    method DetermineThresholdScale(range: int, rmsNoise: nat)
      requires range > 0
      modifies `threshold, `delta
      ensures 0 <= delta <= threshold && (delta > 0 <==> range <= MAX_RANGE)
      ensures threshold == ThresholdOf(range, rmsNoise, noiseFactor) && delta == DeltaOf(range)
    {
      ThresholdsFit(range, rmsNoise, noiseFactor);
      threshold := ThresholdOf(range, rmsNoise, noiseFactor);
      delta := DeltaOf(range);
    }

    method ClearData()
      requires Apart() && 0 < maxWindow <= MAX_WINDOW && windowSize <= maxWindow
      modifies `historyIdx, `initialized, `xs, `ys
      modifies dataX`sum, dataX`n2Variance, dataX.history, dataY`sum, dataY`n2Variance, dataY.history
      ensures Window(dataX, xs) && Window(dataY, ys)
      ensures historyIdx == 0 && !initialized && xs == [] && ys == []
    {
      historyIdx, initialized := 0, false;
      xs, ys := [], [];
      dataX.Clear();
      dataY.Clear();
      ClearWindow(dataX);
      ClearWindow(dataY);
    }

    /** body_detect_set_enable */
    method SetEnable(enable: bool)
      requires Valid()
      modifies `enabled, `onBody, `stationary, `evaluated
      ensures Valid() && enabled == enable && onBody && evaluated == []
    {
      enabled := enable;
      ChangeState(true);
    }

    /** The window holds real samples only. */
    ghost predicate WindowFull()
      reads this
    {
      0 < windowSize <= |xs| && |ys| == |xs|
    }

    static function NextIndex(n: nat, index: nat): nat {
      if index + 1 >= n then 0 else index + 1
    }

    static method UpdateAxis(data: MotionData, n: nat, index: nat, v: int, ghost series: seq<int>)
      requires Tracks(data, n, index, series) && (index < n || (n == 0 && index == 0))
      requires -SAMPLE_BOUND <= v <= SAMPLE_BOUND
      modifies data`sum, data`n2Variance, data.history
      ensures Tracks(data, n, NextIndex(n, index), series + [v])
    {
      ghost var h := data.history[..n];
      data.Update(n, index, v);
      if n > 0 {
        LogsNext(h, index, series, v);
        assert data.history[..n] == h[index := v];
      }
    }

    /** update_motion_variance */
    method UpdateMotionVariance(x: int, y: int)
      requires Valid()
      requires -SAMPLE_BOUND <= x <= SAMPLE_BOUND && -SAMPLE_BOUND <= y <= SAMPLE_BOUND
      modifies `historyIdx, `xs, `ys
      modifies dataX`sum, dataX`n2Variance, dataX.history, dataY`sum, dataY`n2Variance, dataY.history
      ensures xs == old(xs) + [x] && ys == old(ys) + [y]
      ensures Window(dataX, xs) && Window(dataY, ys)
      ensures historyIdx == NextIndex(windowSize, old(historyIdx))
    {
      UpdateAxis(dataX, windowSize, historyIdx, x, xs);
      UpdateAxis(dataY, windowSize, historyIdx, y, ys);
      historyIdx := if historyIdx + 1 >= windowSize then 0 else historyIdx + 1;
      xs, ys := xs + [x], ys + [y];
    }

    /** get_motion_variance: of the last window of samples, once that is full. */
    method GetMotionVariance() returns (v: int)
      requires Apart() && Window(dataX, xs) && Window(dataY, ys) && WindowFull()
      ensures v == MotionOf(xs, ys, windowSize)
    {
      WindowVariance(dataX.history[..windowSize], historyIdx, xs);
      WindowVariance(dataY.history[..windowSize], historyIdx, ys);
      v := (dataX.n2Variance + dataY.n2Variance) / windowSize / windowSize;
    }

    /** body_detect_change_state, spoofing off. */
    method ChangeState(body: bool)
      modifies `onBody, `stationary, `evaluated
      ensures onBody == body
      ensures body ==> stationary == 0 && evaluated == []
      ensures !body ==> stationary == old(stationary) && evaluated == old(evaluated)
    {
      onBody := body;
      if body {
        stationary := 0;
        evaluated := [];
      }
    }

    /**
     * Off-body turns to on-body on one confident sample, and counting starts again; on-body
     * turns to off-body exactly when the last samples were quiet, as many as the limit says.
     */
    ghost predicate Transition(wasOnBody: bool, before: seq<int>, c: int, limit: nat)
      reads this
    {
      if wasOnBody then
        evaluated == before + [c] && (!onBody <==> QuietFor(before + [c], limit, offBodyCon))
      else
        (onBody <==> c > onBodyCon) && (onBody ==> evaluated == [])
    }

    /** The decision of body_detect, from the confidence in motion. */
    method Decide(confidence: int, limit: nat)
      requires Decides()
      modifies `onBody, `stationary, `evaluated
      ensures Decides() && Transition(old(onBody), old(evaluated), confidence, limit)
    {
      if !onBody {
        if confidence > onBodyCon {
          ChangeState(true);
        }
        return;
      }
      ghost var now := evaluated + [confidence];
      QuietRunMeans(now, offBodyCon, limit);
      stationary := stationary + 1;
      if confidence >= offBodyCon {
        stationary := 0;
      }
      evaluated := now;
      if stationary >= limit {
        ChangeState(false);
      }
    }

    /** The part of body_detect that takes the sample in, and says if the window is full. */
    method TakeSample(x: int, y: int) returns (full: bool)
      requires Valid()
      requires -SAMPLE_BOUND <= x <= SAMPLE_BOUND && -SAMPLE_BOUND <= y <= SAMPLE_BOUND
      modifies `historyIdx, `initialized, `xs, `ys
      modifies dataX`sum, dataX`n2Variance, dataX.history, dataY`sum, dataY`n2Variance, dataY.history
      ensures Valid() && Extends(old(xs), xs, x) && Extends(old(ys), ys, y)
      ensures full == Filled(|old(xs)|, windowSize)
      ensures full ==> WindowFull()
    {
      UpdateMotionVariance(x, y);
      if !initialized {
        if historyIdx == windowSize - 1 {
          initialized := true;
        }
        return false;
      }
      return true;
    }

    /** The part of body_detect that follows a full window. */
    method Evaluate() returns (panics: bool, c: int)
      requires Valid() && WindowFull()
      modifies `onBody, `stationary, `evaluated
      ensures Valid() && panics == Panics(MotionOf(xs, ys, windowSize), threshold, delta)
      ensures panics ==> onBody == old(onBody) && evaluated == old(evaluated)
      ensures !panics ==> c == Confidence(MotionOf(xs, ys, windowSize), threshold, delta)
      ensures !panics ==> duration * windowSize >= 0 && Transition(old(onBody), old(evaluated), c, duration * windowSize)
    {
      c := 0;
      var motion := GetMotionVariance();
      panics := Panics(motion, threshold, delta);
      if panics {
        return;
      }
      c := Confidence(motion, threshold, delta);
      NotNegative(duration, windowSize);
      Decide(c, duration * windowSize);
    }

    /**
     * body_detect. Nothing is decided before the window holds real samples only. Then
     * off-body turns to on-body on one confident sample, and on-body turns to off-body
     * exactly when all samples of the last `duration` seconds, a window each, were quiet.
     */
    method BodyDetect(x: int, y: int) returns (panics: bool, ghost evaluates: bool, ghost c: int)
      requires Valid()
      requires -SAMPLE_BOUND <= x <= SAMPLE_BOUND && -SAMPLE_BOUND <= y <= SAMPLE_BOUND
      modifies `historyIdx, `initialized, `xs, `ys, `onBody, `stationary, `evaluated
      modifies dataX`sum, dataX`n2Variance, dataX.history, dataY`sum, dataY`n2Variance, dataY.history
      ensures Valid() && evaluates == (enabled && windowSize > 0 && |xs| >= windowSize && |old(xs)| > 0)
      ensures enabled ==> Extends(old(xs), xs, x) && Extends(old(ys), ys, y)
      ensures !enabled ==> xs == old(xs) && ys == old(ys)
      ensures evaluates ==> WindowFull()
      ensures panics <==> evaluates && Panics(MotionOf(xs, ys, windowSize), threshold, delta)
      ensures !evaluates || panics ==> onBody == old(onBody) && evaluated == old(evaluated)
      ensures evaluates && !panics ==> c == Confidence(MotionOf(xs, ys, windowSize), threshold, delta)
      ensures evaluates && !panics && old(onBody) ==>
        && evaluated == old(evaluated) + [c]
        && var m := duration * windowSize;
           !onBody <==> |evaluated| >= m && forall k :: |evaluated| - m <= k < |evaluated| ==> evaluated[k] < offBodyCon
      ensures evaluates && !panics && !old(onBody) ==> (onBody <==> c > onBodyCon) && (onBody ==> evaluated == [])
    {
      panics, evaluates, c := false, false, 0;
      if !enabled {
        return;
      }
      var full := TakeSample(x, y);
      if !full {
        return;
      }
      panics, c := Evaluate();
      evaluates := true;
    }
  }
}
