/** The period search of components/motion_stage1_engine/src/step_detection_algo.c, over the reals:
    normalised autocorrelation at every lag, then the first local maximum close to the best one. */
module Periodicity {
  const CORRELATION_BUFFER_SIZE: nat := 126
  const CONFIDENT: real := 0.7
  const TIE_MARGIN: real := 0.05
  const NEGLIGIBLE: real := 0.00001
  const SKIPPED: real := -2.0

  /** What is asked of the library's square root. */
  ghost predicate IsSqrt(sqrt: real -> real)
  {
    forall x :: x >= 0.0 ==> sqrt(x) >= 0.0 && sqrt(x) * sqrt(x) == x
  }

  // ----- Sums -----

  function Sum(xs: seq<real>, lo: nat, hi: nat): real
    requires lo <= hi <= |xs|
  {
    if lo == hi then 0.0 else Sum(xs, lo, hi - 1) + xs[hi - 1]
  }

  /** The mean of `xs[lo..hi]`. */
  function Mean(xs: seq<real>, lo: nat, hi: nat): real
    requires lo < hi <= |xs|
  {
    Sum(xs, lo, hi) / (hi - lo) as real
  }

  function Deviations(xs: seq<real>, mean: real): (d: seq<real>)
    ensures |d| == |xs| && forall i :: 0 <= i < |d| ==> d[i] == xs[i] - mean
  {
    seq(|xs|, i requires 0 <= i < |xs| => xs[i] - mean)
  }

  /** The inner product of two stretches of `d`, `n` long. */
  function Dot(d: seq<real>, i: nat, j: nat, n: nat): real
    requires i + n <= |d| && j + n <= |d|
  {
    if n == 0 then 0.0 else Dot(d, i, j, n - 1) + d[i + n - 1] * d[j + n - 1]
  }

  lemma DotEmpty(d: seq<real>, i: nat, j: nat)
    requires i <= |d| && j <= |d|
    ensures Dot(d, i, j, 0) == 0.0
  {
  }

  lemma DotNext(d: seq<real>, i: nat, j: nat, n: nat, a: real, b: real)
    requires i + n < |d| && j + n < |d| && a == d[i + n] && b == d[j + n]
    ensures Dot(d, i, j, n + 1) == Dot(d, i, j, n) + a * b
  {
  }

  lemma SquareNonNegative(x: real)
    ensures x * x >= 0.0
  {
  }

  lemma {:induction false} EnergyNonNegative(d: seq<real>, i: nat, n: nat)
    requires i + n <= |d|
    ensures Dot(d, i, i, n) >= 0.0
  {
    if n > 0 {
      EnergyNonNegative(d, i, n - 1);
      SquareNonNegative(d[i + n - 1]);
    }
  }

  lemma ProductMonotone(x: real, y: real, z: real)
    requires x <= y && z >= 0.0
    ensures z * x <= z * y
  {
  }

  /** The step of the inequality below: one more pair of terms. */
  lemma CrossTerm(p: real, a: real, b: real, x: real, y: real)
    requires a >= 0.0 && b >= 0.0 && p * p <= a * b
    ensures 2.0 * p * (x * y) <= a * (y * y) + b * (x * x)
  {
    SquareNonNegative(x);
    SquareNonNegative(y);
    if a == 0.0 {
      assert Square(p) <= 0.0;
      NoSquareBelowZero(p);
      ProductMonotone(0.0, x * x, b);
    } else {
      var gap := a * (y * y) + b * (x * x) - 2.0 * p * (x * y);
      SquareNonNegative(a * y - p * x);
      ProductMonotone(p * p, a * b, x * x);
      Scaled(p, a, b, x, y);
      if gap < 0.0 {
        assert a * gap < 0.0;
      }
    }
  }

  function Square(x: real): real { x * x }

  lemma PositiveProduct(x: real, y: real, z: real)
    requires x > 0.0 && y > 0.0 && z == x * y
    ensures z > 0.0
  {
  }

  lemma NegativeProduct(x: real, y: real, z: real)
    requires x < 0.0 && y < 0.0 && z == x * y
    ensures z > 0.0
  {
  }

  lemma SquarePositive(x: real)
    requires x != 0.0
    ensures Square(x) > 0.0
  {
    var z := Square(x);
    if x > 0.0 {
      PositiveProduct(x, x, z);
    } else {
      NegativeProduct(x, x, z);
    }
  }

  lemma NoSquareBelowZero(p: real)
    requires Square(p) <= 0.0
    ensures p == 0.0
  {
    hide Square;
    if p != 0.0 {
      SquarePositive(p);
    }
  }

  lemma SmallerSquare(p: real, q: real)
    requires q > 0.0 && p * p <= q * q
    ensures p <= q
  {
    assert (p - q) * (p + q) == p * p - q * q;
    if p > q {
      PositiveProduct(p - q, p + q, p * p - q * q);
    }
  }

  lemma Scaled(p: real, a: real, b: real, x: real, y: real)
    ensures a * (a * (y * y) + b * (x * x) - 2.0 * p * (x * y))
         == (a * y - p * x) * (a * y - p * x) + ((x * x) * (a * b) - (x * x) * (p * p))
  {
    var ay, px := a * y, p * x;
    assert (ay - px) * (ay - px) == ay * ay - 2.0 * (ay * px) + px * px;
    assert px * px == (x * x) * (p * p);
    assert ay * ay == a * (a * (y * y));
    assert ay * px == a * (p * (x * y));
    assert a * (b * (x * x)) == (x * x) * (a * b);
    assert a * (2.0 * p * (x * y)) == 2.0 * (a * (p * (x * y)));
  }

  /** Cauchy–Schwarz. */
  lemma {:induction false} CauchySchwarz(d: seq<real>, i: nat, j: nat, n: nat)
    requires i + n <= |d| && j + n <= |d|
    ensures Dot(d, i, j, n) * Dot(d, i, j, n) <= Dot(d, i, i, n) * Dot(d, j, j, n)
  {
    if n > 0 {
      CauchySchwarz(d, i, j, n - 1);
      EnergyNonNegative(d, i, n - 1);
      EnergyNonNegative(d, j, n - 1);
      var p, a, b := Dot(d, i, j, n - 1), Dot(d, i, i, n - 1), Dot(d, j, j, n - 1);
      hide Dot;
      CauchyStep(p, a, b, d[i + n - 1], d[j + n - 1]);
      DotNext(d, i, j, n - 1, d[i + n - 1], d[j + n - 1]);
      DotNext(d, i, i, n - 1, d[i + n - 1], d[i + n - 1]);
      DotNext(d, j, j, n - 1, d[j + n - 1], d[j + n - 1]);
    } else {
      DotEmpty(d, i, j);
      DotEmpty(d, i, i);
    }
  }

  lemma CauchyStep(p: real, a: real, b: real, x: real, y: real)
    requires a >= 0.0 && b >= 0.0 && p * p <= a * b
    ensures (p + x * y) * (p + x * y) <= (a + x * x) * (b + y * y)
  {
    CrossTerm(p, a, b, x, y);
    Expanded(p, a, b, x, y);
  }

  lemma Expanded(p: real, a: real, b: real, x: real, y: real)
    ensures (p + x * y) * (p + x * y) == p * p + 2.0 * p * (x * y) + (x * x) * (y * y)
    ensures (a + x * x) * (b + y * y) == a * b + a * (y * y) + b * (x * x) + (x * x) * (y * y)
  {
    var z := x * y;
    assert (p + z) * (p + z) == p * p + 2.0 * p * z + z * z;
    assert z * z == (x * x) * (y * y);
  }

  // ----- Correlation -----

  /** The normalised correlation of `d` with itself `lag` later; a signal with too little energy has
      none. */
  function Correlation(sqrt: real -> real, d: seq<real>, lag: nat): real
    requires lag <= |d|
  {
    var n := |d| - lag;
    Normalised(sqrt, Dot(d, 0, lag, n), Dot(d, 0, 0, n), Dot(d, lag, lag, n))
  }

  function Normalised(sqrt: real -> real, product: real, energyA: real, energyB: real): real
  {
    var denominator := Scale(sqrt, energyA, energyB);
    if denominator <= NEGLIGIBLE then SKIPPED else product / denominator
  }

  /** The geometric mean of two energies. */
  function Scale(sqrt: real -> real, energyA: real, energyB: real): real
  {
    sqrt(energyA * energyB)
  }

  lemma BoundedQuotient(p: real, q: real)
    requires q > 0.0 && p * p <= q * q
    ensures -1.0 <= p / q <= 1.0
  {
    SmallerSquare(p, q);
    assert (-p) * (-p) == p * p;
    SmallerSquare(-p, q);
  }

  lemma NormalisedBounded(sqrt: real -> real, p: real, a: real, b: real)
    requires IsSqrt(sqrt) && a >= 0.0 && b >= 0.0 && p * p <= a * b
    ensures Scale(sqrt, a, b) > NEGLIGIBLE ==> -1.0 <= Normalised(sqrt, p, a, b) <= 1.0
  {
    ProductMonotone(0.0, b, a);
    var q := sqrt(a * b);
    if q > NEGLIGIBLE {
      BoundedQuotient(p, q);
    }
  }

  /** Every correlation that is computed lies between -1 and 1: the clamps change nothing. */
  lemma CorrelationBounded(sqrt: real -> real, d: seq<real>, lag: nat)
    requires IsSqrt(sqrt) && lag <= |d|
    ensures var n := |d| - lag;
            if Scale(sqrt, Dot(d, 0, 0, n), Dot(d, lag, lag, n)) <= NEGLIGIBLE then Correlation(sqrt, d, lag) == SKIPPED
            else -1.0 <= Correlation(sqrt, d, lag) <= 1.0
  {
    var n := |d| - lag;
    var a, b := Dot(d, 0, 0, n), Dot(d, lag, lag, n);
    CauchySchwarz(d, 0, lag, n);
    EnergyNonNegative(d, 0, n);
    EnergyNonNegative(d, lag, n);
    hide Scale, Dot;
    NormalisedBounded(sqrt, Dot(d, 0, lag, n), a, b);
  }

  function Correlations(sqrt: real -> real, xs: seq<real>, lo: nat, hi: nat): (cs: seq<real>)
    requires lo <= hi < |xs|
    ensures |cs| == hi - lo + 1
    ensures forall k :: 0 <= k < |cs| ==> cs[k] == Correlation(sqrt, Deviations(xs, Mean(xs, 0, |xs|)), lo + k)
  {
    var d := Deviations(xs, Mean(xs, 0, |xs|));
    seq(hi - lo + 1, k requires 0 <= k < hi - lo + 1 => Correlation(sqrt, d, lo + k))
  }

  // ----- Choosing a lag -----

  predicate LocalMaximum(cs: seq<real>, k: nat)
    requires k < |cs|
  {
    (k > 0 ==> cs[k] >= cs[k - 1]) && (k + 1 < |cs| ==> cs[k] >= cs[k + 1])
  }

  /** No correlation exceeds this one by more than the tie margin. */
  ghost predicate NearBest(cs: seq<real>, k: nat)
    requires k < |cs|
  {
    forall j :: 0 <= j < |cs| ==> cs[k] >= cs[j] - TIE_MARGIN
  }

  /** `k` holds the greatest value, and is the first to do so. */
  ghost predicate FirstBest(cs: seq<real>, k: nat)
    requires k < |cs|
  {
    && (forall j :: 0 <= j < |cs| ==> cs[j] <= cs[k])
    && (forall j :: 0 <= j < k ==> cs[j] < cs[k])
  }

  /** What the search promises about the place it chooses among the correlations. */
  ghost predicate Chosen(cs: seq<real>, confident: bool, k: nat)
    requires k < |cs|
  {
    && (confident <==> exists j :: 0 <= j < |cs| && cs[j] > CONFIDENT)
    && (confident ==>
          && LocalMaximum(cs, k) && NearBest(cs, k)
          && forall j :: 0 <= j < k && LocalMaximum(cs, j) ==> !NearBest(cs, j))
    && (!confident && (exists j :: 0 <= j < |cs| && cs[j] > SKIPPED) ==> FirstBest(cs, k))
    && (!confident && (forall j :: 0 <= j < |cs| ==> cs[j] == SKIPPED) ==> k == (|cs| - 1) / 2)
  }

  /** The correlations decide both the lag and the confidence. */
  lemma ChosenUnique(cs: seq<real>, c1: bool, k1: nat, c2: bool, k2: nat)
    requires k1 < |cs| && k2 < |cs| && (forall j :: 0 <= j < |cs| ==> cs[j] >= SKIPPED)
    requires Chosen(cs, c1, k1) && Chosen(cs, c2, k2)
    ensures c1 == c2 && k1 == k2
  {
    if c1 {
      hide LocalMaximum, NearBest;
    } else if exists j :: 0 <= j < |cs| && cs[j] > SKIPPED {
      assert FirstBest(cs, k1) && FirstBest(cs, k2);
    }
  }

  /** calculate_signal_mean. */
  method SignalMean(xs: seq<real>, start: nat, end: nat) returns (mean: real)
    requires start < end < |xs|
    ensures mean == Mean(xs, start, end + 1)
  {
    mean := 0.0;
    for i := start to end + 1
      invariant mean == Sum(xs, start, i)
    {
      mean := mean + xs[i];
    }
    mean := mean / (end - start + 1) as real;
  }

  /** The sums over the pairs of samples `lag` apart. */
  method PairSums(xs: seq<real>, mean: real, lag: nat) returns (product: real, energyA: real, energyB: real)
    requires lag < |xs|
    ensures var d, n := Deviations(xs, mean), |xs| - lag;
            product == Dot(d, 0, lag, n) && energyA == Dot(d, 0, 0, n) && energyB == Dot(d, lag, lag, n)
  {
    ghost var d := Deviations(xs, mean);
    hide Dot;
    DotEmpty(d, 0, lag);
    DotEmpty(d, 0, 0);
    DotEmpty(d, lag, lag);
    var pairs := |xs| - lag;
    product, energyA, energyB := 0.0, 0.0, 0.0;
    for first := 0 to pairs
      invariant product == Dot(d, 0, lag, first) && energyA == Dot(d, 0, 0, first) && energyB == Dot(d, lag, lag, first)
    {
      var a, b := xs[first] - mean, xs[first + lag] - mean;
      DotNext(d, 0, lag, first, a, b);
      DotNext(d, 0, 0, first, a, a);
      DotNext(d, lag, lag, first, b, b);
      product := product + a * b;
      energyA := energyA + a * a;
      energyB := energyB + b * b;
    }
  }

  /** The body of the loop over lags. */
  method Correlate(sqrt: real -> real, xs: seq<real>, mean: real, lag: nat) returns (c: real)
    requires IsSqrt(sqrt) && lag < |xs|
    ensures c == Correlation(sqrt, Deviations(xs, mean), lag)
  {
    hide Scale, Dot;
    var product, energyA, energyB := PairSums(xs, mean, lag);
    CorrelationBounded(sqrt, Deviations(xs, mean), lag);
    c := Normalise(sqrt, product, energyA, energyB);
  }

  /** Division by the geometric mean of the energies, and the clamps. */
  method Normalise(sqrt: real -> real, product: real, energyA: real, energyB: real) returns (c: real)
    requires Scale(sqrt, energyA, energyB) > NEGLIGIBLE ==> -1.0 <= Normalised(sqrt, product, energyA, energyB) <= 1.0
    ensures c == Normalised(sqrt, product, energyA, energyB)
  {
    var denominator := Scale(sqrt, energyA, energyB);
    if denominator <= NEGLIGIBLE {
      return SKIPPED;
    }
    c := product / denominator;
    if c > 1.0 {
      c := 1.0;
    }
    if c < -1.0 {
      c := -1.0;
    }
  }

  /** The loop over lags: the correlations, the best of them and where it is. */
  method CorrelateAll(sqrt: real -> real, xs: seq<real>, lo: nat, hi: nat, correlations: array<real>)
    returns (best: real, bestPeriod: nat)
    requires IsSqrt(sqrt) && lo < hi < |xs| && hi - lo < correlations.Length
    modifies correlations
    ensures correlations[..hi - lo + 1] == Correlations(sqrt, xs, lo, hi)
    ensures var cs := Correlations(sqrt, xs, lo, hi);
            && lo <= bestPeriod <= hi
            && (forall j :: 0 <= j < |cs| ==> cs[j] <= best)
            && (best > SKIPPED ==> best == cs[bestPeriod - lo] && FirstBest(cs, bestPeriod - lo))
            && (best == SKIPPED ==> bestPeriod == (hi + lo) / 2)
            && best >= SKIPPED
  {
    hide Correlation, IsSqrt, Sum;
    ghost var cs := Correlations(sqrt, xs, lo, hi);
    best, bestPeriod := SKIPPED, (hi + lo) / 2;
    var mean := SignalMean(xs, 0, |xs| - 1);
    for lag := lo to hi + 1
      invariant forall j :: 0 <= j < lag - lo ==> correlations[j] == cs[j] <= best
      invariant lo <= bestPeriod <= hi && best >= SKIPPED
      invariant best > SKIPPED ==> bestPeriod < lag && best == cs[bestPeriod - lo] && forall j :: 0 <= j < bestPeriod - lo ==> cs[j] < best
      invariant best == SKIPPED ==> bestPeriod == (hi + lo) / 2
    {
      var c := Correlate(sqrt, xs, mean, lag);
      assert c == cs[lag - lo];
      correlations[lag - lo] := c;
      if c > best {
        best, bestPeriod := c, lag;
      }
    }
  }

  /** The loop that weeds out harmonics. */
  method FirstNearBest(cs: seq<real>, bestIndex: nat) returns (k: nat)
    requires bestIndex < |cs| && FirstBest(cs, bestIndex)
    requires forall j :: 0 <= j < |cs| ==> cs[j] >= SKIPPED
    ensures k < |cs| && LocalMaximum(cs, k) && NearBest(cs, k)
    ensures forall j :: 0 <= j < k && LocalMaximum(cs, j) ==> !NearBest(cs, j)
  {
    for lag := 0 to bestIndex + 1
      invariant forall j :: 0 <= j < lag && LocalMaximum(cs, j) ==> !NearBest(cs, j)
    {
      var current := cs[lag];
      if current >= cs[bestIndex] - TIE_MARGIN {
        var prev := if lag > 0 then cs[lag - 1] else SKIPPED;
        var next := if lag < |cs| - 1 then cs[lag + 1] else SKIPPED;
        if current >= prev && current >= next {
          return lag;
        }
      }
    }
    assert LocalMaximum(cs, bestIndex) && NearBest(cs, bestIndex);
    k := bestIndex;
  }

  /** calculate_signal_periodicity. The period is kept as a natural number: the half that the fallback
      may carry is cut off on return and never compared before. */
  method Find(sqrt: real -> real, xs: seq<real>, lo: nat, hi: nat) returns (period: nat, confident: bool)
    requires IsSqrt(sqrt) && lo < hi < |xs| && hi - lo < CORRELATION_BUFFER_SIZE
    ensures lo <= period <= hi && Chosen(Correlations(sqrt, xs, lo, hi), confident, period - lo)
  {
    hide Correlations, Correlation, IsSqrt, FirstBest, NearBest, LocalMaximum, Chosen;
    var correlations := new real[CORRELATION_BUFFER_SIZE];
    var best;
    best, period := CorrelateAll(sqrt, xs, lo, hi, correlations);
    ghost var cs := Correlations(sqrt, xs, lo, hi);
    CorrelationsBounded(sqrt, xs, lo, hi);
    confident := false;
    if best > CONFIDENT {
      var k := FirstNearBest(correlations[..hi - lo + 1], period - lo);
      ConfidentlyChosen(cs, period - lo, k);
      period := lo + k;
      confident := true;
    } else {
      TentativelyChosen(cs, best, period - lo);
    }
  }

  lemma ConfidentlyChosen(cs: seq<real>, best: nat, k: nat)
    requires best < |cs| && cs[best] > CONFIDENT && k < |cs| && LocalMaximum(cs, k) && NearBest(cs, k)
    requires forall j :: 0 <= j < k && LocalMaximum(cs, j) ==> !NearBest(cs, j)
    ensures Chosen(cs, true, k)
  {
    hide LocalMaximum, NearBest;
  }

  lemma TentativelyChosen(cs: seq<real>, best: real, k: nat)
    requires k < |cs| && best <= CONFIDENT && forall j :: 0 <= j < |cs| ==> cs[j] <= best
    requires best > SKIPPED ==> best == cs[k] && FirstBest(cs, k)
    requires best <= SKIPPED ==> k == (|cs| - 1) / 2
    ensures Chosen(cs, false, k)
  {
    hide FirstBest;
  }

  lemma CorrelationsBounded(sqrt: real -> real, xs: seq<real>, lo: nat, hi: nat)
    requires IsSqrt(sqrt) && lo <= hi < |xs|
    ensures forall k :: 0 <= k <= hi - lo ==> SKIPPED <= Correlations(sqrt, xs, lo, hi)[k] <= 1.0
  {
    var d := Deviations(xs, Mean(xs, 0, |xs|));
    forall k | 0 <= k <= hi - lo
      ensures SKIPPED <= Correlations(sqrt, xs, lo, hi)[k] <= 1.0
    {
      CorrelationBounded(sqrt, d, lo + k);
    }
  }

  // ----- What the search recognises -----

  function Shifted(xs: seq<real>, c: real): (ys: seq<real>)
    ensures |ys| == |xs| && forall i :: 0 <= i < |xs| ==> ys[i] == xs[i] + c
  {
    seq(|xs|, i requires 0 <= i < |xs| => xs[i] + c)
  }

  lemma {:induction false} SumShifted(xs: seq<real>, c: real, n: nat)
    requires n <= |xs|
    ensures Sum(Shifted(xs, c), 0, n) == Sum(xs, 0, n) + c * n as real
  {
    if n > 0 {
      SumShifted(xs, c, n - 1);
      assert c * n as real == c * (n - 1) as real + c;
    }
  }

  lemma MeanOfShift(s: real, c: real, n: real, t: real)
    requires n > 0.0 && t == s + c * n
    ensures t / n == s / n + c
  {
  }

  lemma MeanShifted(xs: seq<real>, c: real)
    requires xs != []
    ensures Mean(Shifted(xs, c), 0, |xs|) == Mean(xs, 0, |xs|) + c
  {
    SumShifted(xs, c, |xs|);
    hide Sum, Shifted;
    MeanOfShift(Sum(xs, 0, |xs|), c, |xs| as real, Sum(Shifted(xs, c), 0, |xs|));
  }

  /** A constant added to every sample, such as a wrong estimate of gravity, changes no correlation and
      so neither the period nor the confidence. */
  lemma OffsetIgnored(sqrt: real -> real, xs: seq<real>, c: real, lo: nat, hi: nat)
    requires lo <= hi < |xs|
    ensures Correlations(sqrt, Shifted(xs, c), lo, hi) == Correlations(sqrt, xs, lo, hi)
  {
    hide Mean, Correlation;
    MeanShifted(xs, c);
    var m, m' := Mean(xs, 0, |xs|), Mean(Shifted(xs, c), 0, |xs|);
    assert Deviations(Shifted(xs, c), m') == Deviations(xs, m);
  }

  ghost predicate Periodic(xs: seq<real>, p: nat)
  {
    forall i :: 0 <= i < |xs| - p ==> xs[i] == xs[i + p]
  }

  lemma {:induction false} PeriodicDot(d: seq<real>, p: nat, n: nat)
    requires p + n <= |d| && forall i :: 0 <= i < |d| - p ==> d[i] == d[i + p]
    ensures Dot(d, 0, p, n) == Dot(d, 0, 0, n) == Dot(d, p, p, n)
  {
    if n > 0 {
      PeriodicDot(d, p, n - 1);
      assert d[n - 1] == d[n - 1 + p];
    }
  }

  lemma SqrtOfSquare(s: real, a: real)
    requires s >= 0.0 && a > 0.0 && s * s == a * a
    ensures s == a
  {
    SmallerSquare(s, a);
    if s == 0.0 {
      PositiveProduct(a, a, a * a);
    } else {
      SmallerSquare(a, s);
    }
  }

  lemma ScaleOfOne(sqrt: real -> real, a: real)
    requires IsSqrt(sqrt) && a > 0.0
    ensures Scale(sqrt, a, a) == a
  {
    SquareNonNegative(a);
    ScaleOfProduct(sqrt, a, a, a * a);
    SqrtOfSquare(sqrt(a * a), a);
  }

  lemma ScaleOfProduct(sqrt: real -> real, a: real, b: real, q: real)
    requires q == a * b
    ensures Scale(sqrt, a, b) == sqrt(q)
  {
  }

  lemma OwnQuotient(x: real, y: real)
    requires x == y && y > 0.0
    ensures x / y == 1.0
  {
  }

  lemma SelfCorrelation(sqrt: real -> real, a: real)
    requires IsSqrt(sqrt) && a > NEGLIGIBLE
    ensures Normalised(sqrt, a, a, a) == 1.0
  {
    ScaleOfOne(sqrt, a);
    hide Scale, IsSqrt;
    OwnQuotient(a, Scale(sqrt, a, a));
  }

  /** A signal that repeats with a period in range, and whose energy is not negligible, is recognised
      with confidence, at a lag where it correlates with itself to at least 0.95. */
  lemma PeriodicIsConfident(sqrt: real -> real, xs: seq<real>, p: nat, lo: nat, hi: nat, confident: bool, k: nat)
    requires IsSqrt(sqrt) && lo <= p <= hi < |xs| && Periodic(xs, p) && k <= hi - lo
    requires Dot(Deviations(xs, Mean(xs, 0, |xs|)), 0, 0, |xs| - p) > NEGLIGIBLE
    requires Chosen(Correlations(sqrt, xs, lo, hi), confident, k)
    ensures confident && Correlations(sqrt, xs, lo, hi)[k] >= 0.95
  {
    hide Correlation, Correlations, Deviations, Dot, IsSqrt, Mean, Chosen, Periodic;
    var m := Mean(xs, 0, |xs|);
    DeviationsPeriodic(xs, m, p);
    PeriodicCorrelation(sqrt, Deviations(xs, m), p);
    CorrelationsAt(sqrt, xs, lo, hi, p);
    OneIsConfident(Correlations(sqrt, xs, lo, hi), p - lo, confident, k);
  }

  lemma DeviationsPeriodic(xs: seq<real>, m: real, p: nat)
    requires Periodic(xs, p)
    ensures Periodic(Deviations(xs, m), p)
  {
  }

  lemma CorrelationsAt(sqrt: real -> real, xs: seq<real>, lo: nat, hi: nat, p: nat)
    requires lo <= p <= hi < |xs|
    ensures Correlations(sqrt, xs, lo, hi)[p - lo] == Correlation(sqrt, Deviations(xs, Mean(xs, 0, |xs|)), p)
  {
    hide Correlation, Mean, Deviations;
  }

  lemma OneIsConfident(cs: seq<real>, j: nat, confident: bool, k: nat)
    requires j < |cs| && k < |cs| && cs[j] == 1.0 && Chosen(cs, confident, k)
    ensures confident && cs[k] >= 0.95
  {
    hide LocalMaximum, FirstBest;
  }

  lemma PeriodicCorrelation(sqrt: real -> real, d: seq<real>, p: nat)
    requires IsSqrt(sqrt) && p <= |d| && Periodic(d, p) && Dot(d, 0, 0, |d| - p) > NEGLIGIBLE
    ensures Correlation(sqrt, d, p) == 1.0
  {
    PeriodicDot(d, p, |d| - p);
    hide Dot, Normalised, IsSqrt;
    SelfCorrelation(sqrt, Dot(d, 0, 0, |d| - p));
  }

  // ----- What a correlation is, over the samples -----

  /** The sum of the products of deviations `lag` apart. */
  function Cross(xs: seq<real>, m: real, lag: nat, n: nat): real
    requires n + lag <= |xs|
  {
    if n == 0 then 0.0 else Cross(xs, m, lag, n - 1) + (xs[n - 1] - m) * (xs[n - 1 + lag] - m)
  }

  /** The sum of the squared deviations of `n` samples from `k` on. */
  function Energy(xs: seq<real>, m: real, k: nat, n: nat): real
    requires k + n <= |xs|
  {
    if n == 0 then 0.0 else Energy(xs, m, k, n - 1) + (xs[k + n - 1] - m) * (xs[k + n - 1] - m)
  }

  lemma CrossNext(xs: seq<real>, m: real, lag: nat, n: nat, a: real, b: real)
    requires n + lag < |xs| && a == xs[n] - m && b == xs[n + lag] - m
    ensures Cross(xs, m, lag, n + 1) == Cross(xs, m, lag, n) + a * b
  {
  }

  lemma {:induction false} CrossIsDot(xs: seq<real>, m: real, lag: nat, n: nat)
    requires n + lag <= |xs|
    ensures Cross(xs, m, lag, n) == Dot(Deviations(xs, m), 0, lag, n)
  {
    var d := Deviations(xs, m);
    hide Dot;
    DotEmpty(d, 0, lag);
    if n > 0 {
      CrossIsDot(xs, m, lag, n - 1);
      CrossNext(xs, m, lag, n - 1, d[n - 1], d[n - 1 + lag]);
      hide Cross;
      DotNext(d, 0, lag, n - 1, d[n - 1], d[n - 1 + lag]);
    }
  }

  lemma {:induction false} EnergyIsDot(xs: seq<real>, m: real, k: nat, n: nat)
    requires k + n <= |xs|
    ensures Energy(xs, m, k, n) == Dot(Deviations(xs, m), k, k, n)
  {
    var d := Deviations(xs, m);
    hide Dot;
    DotEmpty(d, k, k);
    if n > 0 {
      EnergyIsDot(xs, m, k, n - 1);
      DotNext(d, k, k, n - 1, xs[k + n - 1] - m, xs[k + n - 1] - m);
    }
  }

  lemma MeanTimesCount(xs: seq<real>)
    requires xs != []
    ensures Mean(xs, 0, |xs|) * |xs| as real == Sum(xs, 0, |xs|)
  {
    QuotientTimes(Sum(xs, 0, |xs|), |xs| as real);
  }

  lemma QuotientTimes(x: real, y: real)
    requires y != 0.0
    ensures x / y * y == x
  {
  }

  /** `c` is the product sum over the geometric mean of the energies, sign included, or the mark of a
      lag that is skipped because that mean is negligible. */
  ghost predicate IsCorrelation(sqrt: real -> real, product: real, energyA: real, energyB: real, c: real)
  {
    if sqrt(energyA * energyB) <= 0.00001 then c == -2.0 else c * sqrt(energyA * energyB) == product
  }

  /** Every correlation computed, in terms of the samples and their mean. */
  lemma CorrelationIs(sqrt: real -> real, xs: seq<real>, lo: nat, hi: nat, k: nat)
    requires lo <= hi < |xs| && k <= hi - lo
    ensures var lag, m := lo + k, Mean(xs, 0, |xs|);
            var n := |xs| - lag;
            && m * |xs| as real == Sum(xs, 0, |xs|)
            && IsCorrelation(sqrt, Cross(xs, m, lag, n), Energy(xs, m, 0, n), Energy(xs, m, lag, n), Correlations(sqrt, xs, lo, hi)[k])
  {
    hide Dot, Cross, Energy, IsCorrelation, Normalised, Mean, Sum, Deviations;
    MeanTimesCount(xs);
    var lag, m := lo + k, Mean(xs, 0, |xs|);
    var n := |xs| - lag;
    CrossIsDot(xs, m, lag, n);
    EnergyIsDot(xs, m, 0, n);
    EnergyIsDot(xs, m, lag, n);
    DeviationsLength(xs, m);
    NormalisedIs(sqrt, Cross(xs, m, lag, n), Energy(xs, m, 0, n), Energy(xs, m, lag, n));
  }

  lemma DeviationsLength(xs: seq<real>, m: real)
    ensures |Deviations(xs, m)| == |xs|
  {
  }

  lemma NormalisedIs(sqrt: real -> real, p: real, a: real, b: real)
    ensures IsCorrelation(sqrt, p, a, b, Normalised(sqrt, p, a, b))
  {
    ScaleOfProduct(sqrt, a, b, a * b);
    var q := sqrt(a * b);
    hide Scale;
    if q > 0.00001 {
      QuotientTimes(p, q);
    }
  }

  // ----- Half periods and least periods -----

  /** The deviations change sign every `p` samples. */
  ghost predicate Alternating(d: seq<real>, p: nat)
  {
    forall i :: 0 <= i < |d| - p ==> d[i + p] == -d[i]
  }

  lemma {:induction false} AlternatingDot(d: seq<real>, p: nat, n: nat)
    requires p + n <= |d| && Alternating(d, p)
    ensures Dot(d, 0, p, n) == -Dot(d, 0, 0, n) && Dot(d, p, p, n) == Dot(d, 0, 0, n)
  {
    if n > 0 {
      AlternatingDot(d, p, n - 1);
      OppositeProducts(d[n - 1], d[n - 1 + p]);
    }
  }

  lemma OppositeProducts(x: real, y: real)
    requires y == -x
    ensures x * y == -(x * x) && y * y == x * x
  {
  }

  lemma OppositeCorrelation(sqrt: real -> real, a: real)
    requires IsSqrt(sqrt) && a > NEGLIGIBLE
    ensures Normalised(sqrt, -a, a, a) == -1.0
  {
    ScaleOfOne(sqrt, a);
    hide Scale, IsSqrt;
    OppositeQuotient(a, Scale(sqrt, a, a));
  }

  lemma OppositeQuotient(x: real, y: real)
    requires x == y && y > 0.0
    ensures -x / y == -1.0
  {
  }

  /** A signal that changes sign every `p` samples has correlation -1 at that lag. */
  lemma HalfPeriodCorrelation(sqrt: real -> real, d: seq<real>, p: nat)
    requires IsSqrt(sqrt) && p <= |d| && Alternating(d, p) && Dot(d, 0, 0, |d| - p) > NEGLIGIBLE
    ensures Correlation(sqrt, d, p) == -1.0
  {
    AlternatingDot(d, p, |d| - p);
    hide Dot, Normalised, IsSqrt;
    OppositeCorrelation(sqrt, Dot(d, 0, 0, |d| - p));
  }

  lemma AlternatingTwice(d: seq<real>, p: nat)
    requires Alternating(d, p)
    ensures Periodic(d, 2 * p)
  {
    forall i | 0 <= i < |d| - 2 * p
      ensures d[i] == d[i + 2 * p]
    {
      assert d[i + p] == -d[i] && d[i + p + p] == -d[i + p];
    }
  }

  /** A half period is never taken for the period while the whole one is in range. */
  lemma HalfPeriodNotChosen(sqrt: real -> real, xs: seq<real>, p: nat, lo: nat, hi: nat, confident: bool, k: nat)
    requires IsSqrt(sqrt) && lo <= p && 2 * p <= hi < |xs| && k <= hi - lo
    requires var d := Deviations(xs, Mean(xs, 0, |xs|));
             Alternating(d, p) && Dot(d, 0, 0, |xs| - p) > NEGLIGIBLE && Dot(d, 0, 0, |xs| - 2 * p) > NEGLIGIBLE
    requires Chosen(Correlations(sqrt, xs, lo, hi), confident, k)
    ensures confident && lo + k != p
  {
    hide Correlation, Correlations, Deviations, Dot, IsSqrt, Mean, Chosen, Periodic, Alternating;
    var d := Deviations(xs, Mean(xs, 0, |xs|));
    HalfPeriodCorrelation(sqrt, d, p);
    AlternatingTwice(d, p);
    PeriodicCorrelation(sqrt, d, 2 * p);
    CorrelationsAt(sqrt, xs, lo, hi, p);
    CorrelationsAt(sqrt, xs, lo, hi, 2 * p);
    OneIsConfident(Correlations(sqrt, xs, lo, hi), 2 * p - lo, confident, k);
  }

  /** A signal with period `p` that correlates below 0.95 at every other lag gets the period `p`. */
  lemma PeriodFound(sqrt: real -> real, xs: seq<real>, p: nat, lo: nat, hi: nat, confident: bool, k: nat)
    requires IsSqrt(sqrt) && lo <= p <= hi < |xs| && Periodic(xs, p) && k <= hi - lo
    requires Dot(Deviations(xs, Mean(xs, 0, |xs|)), 0, 0, |xs| - p) > NEGLIGIBLE
    requires forall j :: 0 <= j <= hi - lo && lo + j != p ==> Correlations(sqrt, xs, lo, hi)[j] < 0.95
    requires Chosen(Correlations(sqrt, xs, lo, hi), confident, k)
    ensures confident && lo + k == p
  {
    PeriodicIsConfident(sqrt, xs, p, lo, hi, confident, k);
    hide Correlations, Chosen, IsSqrt, Periodic, Dot, Deviations, Mean;
  }
}
