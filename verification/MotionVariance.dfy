// The running variance of body detection (update_motion_data in common/body_detection.c):
// n^2 times the variance of the last n samples, kept in integers and updated from the one
// sample that leaves the window and the one that enters it.
module MotionVariance {

  function Sum(h: seq<int>): int {
    if h == [] then 0 else Sum(h[..|h| - 1]) + h[|h| - 1]
  }

  function SumOfSquares(h: seq<int>): int {
    if h == [] then 0 else SumOfSquares(h[..|h| - 1]) + h[|h| - 1] * h[|h| - 1]
  }

  /** Sum of the squared distances from x. */
  function Spread(h: seq<int>, x: int): (d: int)
    ensures d >= 0
  {
    if h == [] then 0 else Spread(h[..|h| - 1], x) + (h[|h| - 1] - x) * (h[|h| - 1] - x)
  }

  lemma AddTerm(n: int, q: int, s: int, a: int, x: int)
    ensures q - 2 * x * s + n * (x * x) + (a - x) * (a - x)
         == q + a * a - 2 * x * (s + a) + (n + 1) * (x * x)
  {
    assert (a - x) * (a - x) == a * a - 2 * x * a + x * x;
    assert 2 * x * (s + a) == 2 * x * s + 2 * x * a;
    assert (n + 1) * (x * x) == n * (x * x) + x * x;
  }

  lemma {:induction false} SpreadExpands(h: seq<int>, x: int)
    ensures Spread(h, x) == SumOfSquares(h) - 2 * x * Sum(h) + |h| * (x * x)
  {
    if h != [] {
      var init, a := h[..|h| - 1], h[|h| - 1];
      SpreadExpands(init, x);
      AddTerm(|init|, SumOfSquares(init), Sum(init), a, x);
    }
  }

  lemma GrowByOne(n: int, q: int, s: int, x: int)
    ensures (n + 1) * (q + x * x) - (s + x) * (s + x) == n * q - s * s + (q - 2 * x * s + n * (x * x))
  {
    assert (n + 1) * (q + x * x) == n * q + n * (x * x) + q + x * x;
    assert (s + x) * (s + x) == s * s + 2 * x * s + x * x;
  }

  /** n^2 * var(h) with n = |h|. */
  function N2Variance(h: seq<int>): int {
    |h| * SumOfSquares(h) - Sum(h) * Sum(h)
  }

  lemma {:induction false} N2VarianceNonNegative(h: seq<int>)
    ensures N2Variance(h) >= 0
  {
    if h != [] {
      var init, x := h[..|h| - 1], h[|h| - 1];
      N2VarianceNonNegative(init);
      SpreadExpands(init, x);
      GrowByOne(|init|, SumOfSquares(init), Sum(init), x);
    }
  }

  // ------------------------------------------------------------- it is the variance

  /** Sum of the squared distances from m. */
  function Deviation(h: seq<int>, m: real): real {
    if h == [] then 0.0
    else Deviation(h[..|h| - 1], m) + (h[|h| - 1] as real - m) * (h[|h| - 1] as real - m)
  }

  lemma DeviationStep(d: real, n: real, s: real, q: real, m: real, a: real)
    requires d == q - 2.0 * m * s + n * (m * m)
    ensures d + (a - m) * (a - m) == (q + a * a) - 2.0 * m * (s + a) + (n + 1.0) * (m * m)
  {
    assert (a - m) * (a - m) == a * a - 2.0 * m * a + m * m;
    assert 2.0 * m * (s + a) == 2.0 * m * s + 2.0 * m * a;
    assert (n + 1.0) * (m * m) == n * (m * m) + m * m;
  }

  lemma {:induction false} DeviationExpands(h: seq<int>, m: real)
    ensures Deviation(h, m)
         == SumOfSquares(h) as real - 2.0 * m * Sum(h) as real + |h| as real * (m * m)
  {
    if h != [] {
      var init, a := h[..|h| - 1], h[|h| - 1];
      DeviationExpands(init, m);
      RealProduct(a, a);
      DeviationStep(Deviation(init, m), |init| as real, Sum(init) as real, SumOfSquares(init) as real, m, a as real);
    }
  }

  lemma MeanCancels(n: real, s: real, q: real, m: real, d: real)
    requires n * m == s && d == q - 2.0 * m * s + n * (m * m)
    ensures n * d == n * q - s * s
  {
    assert n * (2.0 * m * s) == 2.0 * (n * m) * s;
    assert n * (n * (m * m)) == (n * m) * (n * m);
  }

  lemma AsReals(v: int, n: int, s: int, q: int)
    requires v == n * q - s * s
    ensures v as real == n as real * q as real - s as real * s as real
  {
    RealProduct(n, q);
    RealProduct(s, s);
  }

  lemma RealProduct(a: int, b: int)
    ensures (a * b) as real == a as real * b as real
  {
  }

  lemma N2VarianceReal(h: seq<int>, n: real, s: real, q: real)
    requires n == |h| as real && s == Sum(h) as real && q == SumOfSquares(h) as real
    ensures N2Variance(h) as real == n * q - s * s
  {
    AsReals(N2Variance(h), |h|, Sum(h), SumOfSquares(h));
  }

  lemma DeviationScaled(h: seq<int>, n: real, s: real, q: real, mean: real)
    requires n == |h| as real && s == Sum(h) as real && q == SumOfSquares(h) as real && n * mean == s
    ensures n * Deviation(h, mean) == n * q - s * s
  {
    DeviationExpands(h, mean);
    MeanCancels(n, s, q, mean, Deviation(h, mean));
  }

  lemma VarianceOfSums(h: seq<int>, n: real, s: real, q: real, mean: real)
    requires n == |h| as real && s == Sum(h) as real && q == SumOfSquares(h) as real && n * mean == s
    ensures N2Variance(h) as real == n * Deviation(h, mean)
  {
    N2VarianceReal(h, n, s, q);
    DeviationScaled(h, n, s, q, mean);
  }

  /** It is n^2 times the variance: n times the sum of the squared distances from the mean. */
  lemma N2VarianceIsVariance(h: seq<int>, mean: real)
    requires |h| as real * mean == Sum(h) as real
    ensures N2Variance(h) as real == |h| as real * Deviation(h, mean)
  {
    VarianceOfSums(h, |h| as real, Sum(h) as real, SumOfSquares(h) as real, mean);
  }

  // ------------------------------------------------------------- it fits

  const SAMPLE_BOUND := 0x8000               // of a 16-bit sample
  const UINT64 := 0x1_0000_0000_0000_0000
  const MAX_WINDOW := 0x1_0000               // more than any window in use

  ghost predicate Bounded(h: seq<int>) {
    forall i :: 0 <= i < |h| ==> -SAMPLE_BOUND <= h[i] <= SAMPLE_BOUND
  }

  lemma ProductBound(a: int, b: int, c: int, d: int)
    requires 0 <= a <= c && 0 <= b <= d
    ensures 0 <= a * b <= c * d
  {
    assert a * b <= c * b;
    assert c * b <= c * d;
  }

  lemma SquareBound(a: int)
    requires -SAMPLE_BOUND <= a <= SAMPLE_BOUND
    ensures 0 <= a * a <= 0x4000_0000
  {
    if a >= 0 {
      ProductBound(a, a, SAMPLE_BOUND, SAMPLE_BOUND);
    } else {
      ProductBound(-a, -a, SAMPLE_BOUND, SAMPLE_BOUND);
    }
  }

  lemma {:induction false} SquaresBound(h: seq<int>)
    requires Bounded(h)
    ensures 0 <= SumOfSquares(h) <= 0x4000_0000 * |h|
  {
    if h != [] {
      SquaresBound(h[..|h| - 1]);
      SquareBound(h[|h| - 1]);
    }
  }

  /** So the unsigned 64-bit word never wraps, half of it never being used. */
  lemma N2VarianceFits(h: seq<int>)
    requires Bounded(h) && |h| <= MAX_WINDOW
    ensures 0 <= N2Variance(h) < UINT64 / 2
  {
    N2VarianceNonNegative(h);
    SquaresBound(h);
    ProductBound(|h|, SumOfSquares(h), MAX_WINDOW, 0x4000_0000 * MAX_WINDOW);
    assert Sum(h) * Sum(h) >= 0;
  }

  // ------------------------------------------------------------- the update

  lemma {:induction false} SumReplace(h: seq<int>, k: nat, x: int)
    requires k < |h|
    ensures Sum(h[k := x]) == Sum(h) + x - h[k]
    ensures SumOfSquares(h[k := x]) == SumOfSquares(h) + x * x - h[k] * h[k]
  {
    var init := h[..|h| - 1];
    if k == |h| - 1 {
      assert h[k := x][..|h| - 1] == init;
    } else {
      SumReplace(init, k, x);
      assert h[k := x][..|h| - 1] == init[k := x];
    }
  }

  lemma UpdateIdentity(n: int, q: int, s: int, x: int, y: int)
    ensures n * (q + x * x - y * y) - (s + x - y) * (s + x - y)
         == n * q - s * s + (x - y) * (n * (x + y) - (s + x - y) - s)
  {
    var d := x - y;
    assert d * (x + y) == x * x - y * y;
    assert d * (n * (x + y)) == n * (d * (x + y));
    assert n * (q + x * x - y * y) == n * q + n * (x * x - y * y);
    assert (s + d) * (s + d) == s * s + 2 * d * s + d * d;
    assert d * (n * (x + y) - (s + d) - s) == d * (n * (x + y)) - d * (s + d) - d * s;
    assert d * (s + d) == d * s + d * d;
  }

  /** Replacing one sample by the formula of the firmware, and no wrap-around. */
  lemma UpdateIsReplacement(h: seq<int>, k: nat, x: int)
    requires k < |h| <= MAX_WINDOW && Bounded(h) && -SAMPLE_BOUND <= x <= SAMPLE_BOUND
    ensures var s, t := Sum(h), Sum(h) + x - h[k];
            && Sum(h[k := x]) == t
            && N2Variance(h[k := x]) == N2Variance(h) + (x - h[k]) * (|h| * (x + h[k]) - t - s)
    ensures Bounded(h[k := x]) && 0 <= N2Variance(h[k := x]) < UINT64
  {
    UpdateIdentity(|h|, SumOfSquares(h), Sum(h), x, h[k]);
    SumReplace(h, k, x);
    N2VarianceFits(h[k := x]);
  }

  /** Struct body_detect_motion_data: one axis. */
  class MotionData {
    const history: array<int>
    var sum: int
    var n2Variance: int                       // an unsigned 64-bit word

    /** For a window of n samples. Without a window the two sums mean nothing. */
    ghost predicate Valid(n: nat)
      reads this, history
    {
      && 0 < history.Length <= MAX_WINDOW && n <= history.Length
      && Bounded(history[..])
      && (n > 0 ==> sum == Sum(history[..n]) && n2Variance == N2Variance(history[..n]))
    }

    constructor (max: nat)
      requires 0 < max <= MAX_WINDOW
      ensures history.Length == max && fresh(history)
      ensures history[..] == seq(max, i => 0) && sum == 0 && n2Variance == 0
    {
      history := new int[max](i => 0);
      sum, n2Variance := 0, 0;
    }

    /** memset */
    method Clear()
      modifies `sum, `n2Variance, history
      ensures history[..] == seq(history.Length, i => 0) && sum == 0 && n2Variance == 0
    {
      forall i | 0 <= i < history.Length {
        history[i] := 0;
      }
      sum, n2Variance := 0, 0;
    }

    /** update_motion_data, in wrapping 64-bit arithmetic. */
    method Update(n: nat, index: nat, x: int)
      requires Valid(n) && (index < n || (n == 0 && index == 0))
      requires -SAMPLE_BOUND <= x <= SAMPLE_BOUND
      modifies `sum, `n2Variance, history
      ensures Valid(n) && history[..] == old(history[..])[index := x]
    {
      ghost var h := history[..n];
      var x0 := history[index];
      var sumDiff := x - x0;
      var newSum := sum + sumDiff;
      var delta := sumDiff * (n * (x + x0) - newSum - sum);
      if n > 0 {
        UpdateIsReplacement(h, index, x);
      }
      n2Variance := (n2Variance + delta) % UINT64;
      sum := newSum;
      history[index] := x;
      assert n > 0 ==> history[..n] == h[index := x];
    }
  }

  lemma {:induction false} ZerosMean(n: nat)
    ensures Sum(seq(n, i => 0)) == 0 && SumOfSquares(seq(n, i => 0)) == 0
  {
    if n > 0 {
      ZerosMean(n - 1);
      assert seq(n, i => 0)[..n - 1] == seq(n - 1, i => 0);
    }
  }

  /** Cleared data suits a window of any size. */
  lemma ClearIsValid(h: seq<int>, n: nat)
    requires h == seq(|h|, i => 0) && n <= |h|
    ensures Bounded(h) && Sum(h[..n]) == 0 && N2Variance(h[..n]) == 0
  {
    ZerosMean(n);
    assert h[..n] == seq(n, i => 0);
  }
}
