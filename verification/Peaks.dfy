/** Peaks of components/motion_stage1_engine/src/step_detection_algo.c: prominence, the merging of
    candidates that are too close, and the steps found in a window. */
module Peaks {
  import opened Periodicity

  const COVERAGE_PERCENT: nat := 45
  const CANDIDATE_BUFFER_SIZE: nat := 126

  datatype Peak = Peak(index: nat, prominence: real)

  // ----- Prominence -----

  /** calculate_peak_radius. */
  function Radius(period: nat): nat { (period * COVERAGE_PERCENT + 50) / 100 }

  /** calculate_peak_boundaries. */
  function Left(peak: nat, radius: nat): nat { if peak > radius then peak - radius else 0 }

  function Right(n: nat, peak: nat, radius: nat): nat
    requires n > 0
  {
    if n > peak + radius then peak + radius else n - 1
  }

  /** The least of `xs[lo..hi]`. */
  function Least(xs: seq<real>, lo: nat, hi: nat): (m: real)
    requires lo < hi <= |xs|
    ensures forall i :: lo <= i < hi ==> m <= xs[i]
    ensures exists i :: lo <= i < hi && m == xs[i]
  {
    if lo + 1 == hi then xs[lo]
    else
      var m := Least(xs, lo, hi - 1);
      if xs[hi - 1] < m then xs[hi - 1] else m
  }

  predicate HasLeft(peak: nat, radius: nat) { peak >= radius }

  predicate HasRight(n: nat, peak: nat, radius: nat) { peak + radius < n }

  /** `xs[i]` is below the peak by at least `q`. */
  predicate Below(xs: seq<real>, peak: nat, i: nat, q: real)
    requires peak < |xs| && i < |xs|
  {
    xs[i] <= xs[peak] - q
  }

  /** A peak stands out by `q` if some side reaches a full radius, and every side that does holds a
      sample lower by `q`. */
  ghost predicate StandsOut(xs: seq<real>, peak: nat, radius: nat, q: real)
    requires peak < |xs|
  {
    && (HasLeft(peak, radius) || HasRight(|xs|, peak, radius))
    && (HasLeft(peak, radius) ==> exists i :: peak - radius <= i < peak && Below(xs, peak, i, q))
    && (HasRight(|xs|, peak, radius) ==> exists i :: peak < i <= peak + radius && Below(xs, peak, i, q))
  }

  predicate IsLocalMaximum(xs: seq<real>, i: nat)
    requires 1 <= i < |xs| - 1
  {
    xs[i] >= xs[i - 1] && xs[i] >= xs[i + 1]
  }

  /** calculate_peak_prominence. A minus infinity stands for a side that is too short; here the side
      is left out of the comparison. */
  method Prominence(xs: seq<real>, peak: nat, radius: nat) returns (p: real)
    requires |xs| > 3 && peak < |xs|
    ensures p == if radius == 0 then 0.0 else ProminenceOf(xs, peak, radius)
  {
    hide Least;
    var left, right := Left(peak, radius), Right(|xs|, peak, radius);
    var leftMin, rightMin := xs[peak], xs[peak];
    var hasLeft, hasRight := peak >= radius, right - peak >= radius;
    if hasLeft {
      leftMin := LeastOnLeft(xs, left, peak);
    }
    if hasRight && peak < right {
      rightMin := LeastOnRight(xs, peak + 1, right);
    }
    var baseline := xs[peak];
    if hasLeft && hasRight {
      baseline := if rightMin > leftMin then rightMin else leftMin;
    } else if hasLeft {
      baseline := leftMin;
    } else if hasRight {
      baseline := rightMin;
    }
    p := xs[peak] - baseline;
  }

  /** The loop over the left side. */
  method LeastOnLeft(xs: seq<real>, left: nat, peak: nat) returns (m: real)
    requires left <= peak < |xs|
    ensures m == if left == peak then xs[peak] else Least(xs, left, peak)
  {
    m := xs[left];
    for i := left to peak
      invariant m == if i == left then xs[left] else Least(xs, left, i)
    {
      if xs[i] < m {
        m := xs[i];
      }
    }
  }

  /** The loop over the right side, which starts from the far end. */
  method LeastOnRight(xs: seq<real>, lo: nat, right: nat) returns (m: real)
    requires lo <= right < |xs|
    ensures m == Least(xs, lo, right + 1)
  {
    m := xs[right];
    for i := lo to right
      invariant m <= xs[right] && (forall k :: lo <= k < i ==> m <= xs[k])
      invariant m == xs[right] || exists k :: lo <= k < i && m == xs[k]
    {
      if xs[i] < m {
        m := xs[i];
      }
    }
  }

  function ProminenceOf(xs: seq<real>, peak: nat, radius: nat): real
    requires peak < |xs| && radius > 0
  {
    var onLeft := if HasLeft(peak, radius) then xs[peak] - Least(xs, peak - radius, peak) else 0.0;
    var onRight := if HasRight(|xs|, peak, radius) then xs[peak] - Least(xs, peak + 1, peak + radius + 1) else 0.0;
    if HasLeft(peak, radius) && HasRight(|xs|, peak, radius) then (if onLeft < onRight then onLeft else onRight)
    else if HasLeft(peak, radius) then onLeft
    else onRight
  }

  /** A prominence of `q` or more means exactly that the peak stands out by `q`. */
  lemma ProminenceMeaning(xs: seq<real>, peak: nat, radius: nat, q: real)
    requires peak < |xs| && radius > 0 && q > 0.0
    ensures ProminenceOf(xs, peak, radius) >= q <==> StandsOut(xs, peak, radius, q)
  {
    if HasLeft(peak, radius) {
      SideMeaning(xs, peak, peak - radius, peak, q);
    }
    if HasRight(|xs|, peak, radius) {
      SideMeaning(xs, peak, peak + 1, peak + radius + 1, q);
    }
  }

  lemma SideMeaning(xs: seq<real>, peak: nat, lo: nat, hi: nat, q: real)
    requires peak < |xs| && lo < hi <= |xs|
    ensures xs[peak] - Least(xs, lo, hi) >= q <==> exists i :: lo <= i < hi && Below(xs, peak, i, q)
  {
    hide Least;
    var i :| lo <= i < hi && Least(xs, lo, hi) == xs[i];
    if xs[peak] - Least(xs, lo, hi) >= q {
      assert Below(xs, peak, i, q);
    }
  }

  lemma LocalMaximumProminence(xs: seq<real>, peak: nat, radius: nat)
    requires 1 <= peak < |xs| - 1 && radius > 0 && IsLocalMaximum(xs, peak)
    ensures ProminenceOf(xs, peak, radius) >= 0.0
  {
    hide Least;
    if HasLeft(peak, radius) {
      assert Least(xs, peak - radius, peak) <= xs[peak - 1];
    }
    if HasRight(|xs|, peak, radius) {
      assert Least(xs, peak + 1, peak + radius + 1) <= xs[peak + 1];
    }
  }

  // ----- Merging candidates -----

  /** append_peak_candidate on the candidates so far. */
  function Append(cs: seq<Peak>, p: Peak, minInterval: nat): seq<Peak>
  {
    if cs != [] && p.index - cs[|cs| - 1].index < minInterval then
      (if p.prominence > cs[|cs| - 1].prominence then cs[..|cs| - 1] + [p] else cs)
    else cs + [p]
  }

  /** Any two candidates are at least `minInterval` apart per place between them. */
  ghost predicate Spaced(cs: seq<Peak>, minInterval: nat)
  {
    forall k :: 0 < k < |cs| ==> cs[k - 1].index < cs[k].index && cs[k - 1].index + minInterval <= cs[k].index
  }

  /** The merge loses `p` only to a candidate at least as prominent that is not `minInterval` or more
      before it. */
  ghost predicate Represented(cs: seq<Peak>, p: Peak, minInterval: nat)
  {
    exists k :: 0 <= k < |cs| && cs[k].prominence >= p.prominence && (cs[k] == p || cs[k].index + minInterval > p.index)
  }

  lemma AppendSpaced(cs: seq<Peak>, p: Peak, minInterval: nat)
    requires Spaced(cs, minInterval) && (cs != [] ==> cs[|cs| - 1].index < p.index)
    ensures var r := Append(cs, p, minInterval);
            Spaced(r, minInterval) && r != [] && r[|r| - 1].index <= p.index
  {
  }

  lemma AppendRepresents(cs: seq<Peak>, p: Peak, minInterval: nat)
    requires cs != [] ==> cs[|cs| - 1].index < p.index
    ensures Represented(Append(cs, p, minInterval), p, minInterval)
    ensures forall q :: Represented(cs, q, minInterval) && q.index < p.index ==> Represented(Append(cs, p, minInterval), q, minInterval)
  {
    var r := Append(cs, p, minInterval);
    assert r[|r| - 1].prominence >= p.prominence;
    forall q | Represented(cs, q, minInterval) && q.index < p.index
      ensures Represented(r, q, minInterval)
    {
      var k :| 0 <= k < |cs| && cs[k].prominence >= q.prominence && (cs[k] == q || cs[k].index + minInterval > q.index);
      if k < |r| && r[k] == cs[k] {
        assert r[k].prominence >= q.prominence;
      } else {
        assert r[|r| - 1] == p;
        assert minInterval > 0;
      }
    }
  }

  /** A sample the search puts forward: a local maximum that is prominent enough. */
  predicate Considered(xs: seq<real>, radius: nat, threshold: real, i: nat)
    requires radius > 0
  {
    1 <= i < |xs| - 1 && IsLocalMaximum(xs, i) && ProminenceOf(xs, i, radius) >= threshold
  }

  function Candidates(xs: seq<real>, radius: nat, threshold: real, minInterval: nat, n: nat): seq<Peak>
    requires radius > 0 && 1 <= n <= |xs| - 1
  {
    if n == 1 then []
    else
      var cs := Candidates(xs, radius, threshold, minInterval, n - 1);
      if Considered(xs, radius, threshold, n - 1) then
        Append(cs, Peak(n - 1, ProminenceOf(xs, n - 1, radius)), minInterval)
      else cs
  }

  /** What merging keeps, for the samples before `n`. */
  ghost predicate Merged(xs: seq<real>, radius: nat, threshold: real, minInterval: nat, n: nat, cs: seq<Peak>)
    requires radius > 0
  {
    && Spaced(cs, minInterval)
    && (forall k :: 0 <= k < |cs| ==>
          cs[k].index < n && Considered(xs, radius, threshold, cs[k].index)
          && cs[k].prominence == ProminenceOf(xs, cs[k].index, radius))
    && (forall i :: 1 <= i < n && Considered(xs, radius, threshold, i) ==>
          Represented(cs, Peak(i, ProminenceOf(xs, i, radius)), minInterval))
  }

  lemma {:induction false} CandidatesMerged(xs: seq<real>, radius: nat, threshold: real, minInterval: nat, n: nat)
    requires radius > 0 && 1 <= n <= |xs| - 1
    ensures Merged(xs, radius, threshold, minInterval, n, Candidates(xs, radius, threshold, minInterval, n))
  {
    hide Merged, Considered, Append, ProminenceOf;
    if n == 1 {
      NothingMerged(xs, radius, threshold, minInterval);
    } else {
      CandidatesMerged(xs, radius, threshold, minInterval, n - 1);
      var cs := Candidates(xs, radius, threshold, minInterval, n - 1);
      if Considered(xs, radius, threshold, n - 1) {
        MergedOne(xs, radius, threshold, minInterval, n - 1, cs);
      } else {
        MergedNone(xs, radius, threshold, minInterval, n - 1, cs);
      }
    }
  }

  lemma NothingMerged(xs: seq<real>, radius: nat, threshold: real, minInterval: nat)
    requires radius > 0
    ensures Merged(xs, radius, threshold, minInterval, 1, [])
  {
  }

  lemma MergedNone(xs: seq<real>, radius: nat, threshold: real, minInterval: nat, n: nat, cs: seq<Peak>)
    requires radius > 0 && 1 <= n && Merged(xs, radius, threshold, minInterval, n, cs) && !Considered(xs, radius, threshold, n)
    ensures Merged(xs, radius, threshold, minInterval, n + 1, cs)
  {
    hide Considered, ProminenceOf, Spaced, Represented;
  }

  lemma MergedOne(xs: seq<real>, radius: nat, threshold: real, minInterval: nat, n: nat, cs: seq<Peak>)
    requires radius > 0 && 1 <= n < |xs| - 1 && Merged(xs, radius, threshold, minInterval, n, cs) && Considered(xs, radius, threshold, n)
    ensures Merged(xs, radius, threshold, minInterval, n + 1, Append(cs, Peak(n, ProminenceOf(xs, n, radius)), minInterval))
  {
    hide Considered, ProminenceOf;
    var p := Peak(n, ProminenceOf(xs, n, radius));
    AppendSpaced(cs, p, minInterval);
    AppendRepresents(cs, p, minInterval);
    AppendFrom(cs, p, minInterval);
    hide Spaced, Represented, Append;
  }

  lemma AppendFrom(cs: seq<Peak>, p: Peak, minInterval: nat)
    ensures var r := Append(cs, p, minInterval); forall k :: 0 <= k < |r| ==> r[k] == p || (k < |cs| && r[k] == cs[k])
  {
  }

  /** append_peak_candidate: the candidates are the first `count` elements of the array. */
  method AppendPeak(candidates: array<Peak>, count: nat, p: Peak, minInterval: nat) returns (newCount: nat)
    requires count < candidates.Length
    modifies candidates
    ensures newCount <= candidates.Length && newCount <= count + 1
    ensures candidates[..newCount] == Append(old(candidates[..count]), p, minInterval)
  {
    if count > 0 {
      var prev := candidates[count - 1];
      if p.index - prev.index < minInterval {
        if p.prominence > prev.prominence {
          candidates[count - 1] := p;
        }
        return count;
      }
    }
    candidates[count] := p;
    newCount := count + 1;
  }

  /** The first loop of stage1_detect_window_steps. */
  method FindCandidates(xs: seq<real>, radius: nat, threshold: real, minInterval: nat, candidates: array<Peak>) returns (count: nat)
    requires radius > 0 && 3 < |xs| <= candidates.Length
    modifies candidates
    ensures count <= candidates.Length
    ensures candidates[..count] == Candidates(xs, radius, threshold, minInterval, |xs| - 1)
  {
    count := 0;
    for i := 1 to |xs| - 1
      invariant count < i && candidates[..count] == Candidates(xs, radius, threshold, minInterval, i)
    {
      if xs[i] >= xs[i - 1] && xs[i] >= xs[i + 1] {
        var p := Prominence(xs, i, radius);
        if p >= threshold {
          count := AppendPeak(candidates, count, Peak(i, p), minInterval);
        }
      }
    }
  }

  // ----- Steps of a window -----

  datatype Params = Params(minSamples: nat, minInterval: nat, maxInterval: nat, minVariance: real, minProminence: real, maxDeviation: real)

  /** What the source's assertions ask of the tuning. */
  ghost predicate Sound(p: Params)
  {
    2 <= p.minInterval < p.maxInterval < p.minSamples && p.maxInterval - p.minInterval < CORRELATION_BUFFER_SIZE && p.minProminence > 0.0
  }

  function SquaredDeviations(xs: seq<real>, mean: real, lo: nat, hi: nat): real
    requires lo <= hi <= |xs|
  {
    if lo == hi then 0.0 else SquaredDeviations(xs, mean, lo, hi - 1) + (xs[hi - 1] - mean) * (xs[hi - 1] - mean)
  }

  function Variance(xs: seq<real>, mean: real, lo: nat, hi: nat): real
    requires lo < hi <= |xs|
  {
    SquaredDeviations(xs, mean, lo, hi) / (hi - lo) as real
  }

  /** calculate_signal_variance. */
  method SignalVariance(xs: seq<real>, mean: real, start: nat, end: nat) returns (v: real)
    requires start < end < |xs|
    ensures v == Variance(xs, mean, start, end + 1)
  {
    v := 0.0;
    for i := start to end + 1
      invariant v == SquaredDeviations(xs, mean, start, i)
    {
      var delta := xs[i] - mean;
      v := v + delta * delta;
    }
    v := v / (end - start + 1) as real;
  }

  /** The variance around a peak. */
  function Activity(xs: seq<real>, peak: nat, radius: nat): real
    requires peak < |xs| && |xs| > 1 && radius > 0
  {
    var lo, hi := Left(peak, radius), Right(|xs|, peak, radius) + 1;
    Variance(xs, Mean(xs, lo, hi), lo, hi)
  }

  function Gap(a: nat, b: nat): nat { if a >= b then a - b else b - a }

  /** Candidate `j` is another peak, at an interval a step may have. */
  predicate Neighbour(cs: seq<Peak>, k: nat, j: nat, ps: Params)
    requires k < |cs| && j < |cs|
  {
    j != k && ps.minInterval <= Gap(cs[k].index, cs[j].index) <= ps.maxInterval
  }

  /** How far the interval to `j` is from the period. */
  function Offbeat(cs: seq<Peak>, k: nat, j: nat, period: nat): nat
    requires k < |cs| && j < |cs|
  {
    Gap(Gap(cs[k].index, cs[j].index), period)
  }

  /** peak_has_rhythmic_neighbor: whether there is a neighbour, and the least distance of an interval
      from the period. */
  method RhythmicNeighbour(candidates: seq<Peak>, k: nat, period: nat, ps: Params) returns (found: bool, delta: nat)
    requires k < |candidates|
    ensures found <==> exists j :: 0 <= j < |candidates| && Neighbour(candidates, k, j, ps)
    ensures found ==> exists j :: 0 <= j < |candidates| && Neighbour(candidates, k, j, ps) && Offbeat(candidates, k, j, period) == delta
    ensures forall j :: 0 <= j < |candidates| && Neighbour(candidates, k, j, ps) ==> delta <= Offbeat(candidates, k, j, period)
  {
    found, delta := false, 0;
    for i := 0 to |candidates|
      invariant found <==> exists j :: 0 <= j < i && Neighbour(candidates, k, j, ps)
      invariant found ==> exists j :: 0 <= j < i && Neighbour(candidates, k, j, ps) && Offbeat(candidates, k, j, period) == delta
      invariant forall j :: 0 <= j < i && Neighbour(candidates, k, j, ps) ==> delta <= Offbeat(candidates, k, j, period)
    {
      var interval := Gap(candidates[k].index, candidates[i].index);
      if i != k && ps.minInterval <= interval <= ps.maxInterval {
        assert Neighbour(candidates, k, i, ps);
        var d := Gap(interval, period);
        if !found || d < delta {
          delta := d;
        }
        found := true;
      }
    }
  }

  /** Everything the decision about a candidate looks at. `atRest` says that the wearer is not walking
      and has no step pending. */
  datatype View = View(xs: seq<real>, cs: seq<Peak>, period: nat, confident: bool, atRest: bool, boundary: nat)

  ghost predicate Proper(v: View, ps: Params)
  {
    && Sound(ps) && |v.xs| > 3 && v.period >= 2
    && (forall k :: 0 <= k < |v.cs| ==> v.cs[k].index < |v.xs|)
  }

  /** A neighbour whose interval deviates from the period by no more than is allowed. */
  ghost predicate InTime(v: View, k: nat, ps: Params)
    requires k < |v.cs| && v.period > 0
  {
    exists j :: 0 <= j < |v.cs| && Neighbour(v.cs, k, j, ps) && Offbeat(v.cs, k, j, v.period) as real / v.period as real <= ps.maxDeviation
  }

  /** Whether candidate `k` is a step: it lies in the window among enough activity, and it is in time
      with the established period, or a clear peak with a neighbour while no period is established, or a
      clear peak that opens a walk. */
  ghost predicate Accepted(v: View, k: nat, opening: bool, ps: Params)
    requires Proper(v, ps) && k < |v.cs|
  {
    RadiusPositive(v.period);
    var c := v.cs[k];
    && c.index >= v.boundary
    && Activity(v.xs, c.index, Radius(v.period)) >= ps.minVariance
    && (|| (v.confident && InTime(v, k, ps) && c.prominence >= ps.minProminence * 1.15)
        || (!v.confident && (exists j :: 0 <= j < |v.cs| && Neighbour(v.cs, k, j, ps)) && c.prominence >= ps.minProminence * 1.5)
        || (v.atRest && opening && c.prominence >= ps.minProminence * 1.5))
  }

  lemma RadiusPositive(period: nat)
    ensures period >= 2 ==> Radius(period) > 0
  {
  }

  /** The steps among the first `n` candidates. */
  ghost function Steps(v: View, n: nat, ps: Params): nat
    requires Proper(v, ps) && n <= |v.cs|
  {
    if n == 0 then 0
    else
      var before := Steps(v, n - 1, ps);
      before + if Accepted(v, n - 1, before == 0, ps) then 1 else 0
  }

  lemma AcceptedInWindow(v: View, k: nat, opening: bool, ps: Params)
    requires Proper(v, ps) && k < |v.cs| && Accepted(v, k, opening, ps)
    ensures v.cs[k].index >= v.boundary
  {
  }

  /** The earliest place of the `s`-th step. */
  function Reach(boundary: nat, s: nat, m: nat): int { boundary + (s - 1) * m }

  lemma ReachNext(boundary: nat, s: nat, m: nat)
    ensures Reach(boundary, s + 1, m) == Reach(boundary, s, m) + m && Reach(boundary, 1, m) == boundary
  {
  }

  /** The steps of a window lie at least `minInterval` apart between the boundary and the last
      candidate. */
  lemma {:induction false} StepsSpread(v: View, n: nat, ps: Params)
    requires Proper(v, ps) && Spaced(v.cs, ps.minInterval) && 0 < n <= |v.cs|
    ensures Steps(v, n, ps) <= n && (Steps(v, n, ps) > 0 ==> Reach(v.boundary, Steps(v, n, ps), ps.minInterval) <= v.cs[n - 1].index)
  {
    hide Accepted, Proper, Reach;
    var b := Steps(v, n - 1, ps);
    ReachNext(v.boundary, b, ps.minInterval);
    if Accepted(v, n - 1, b == 0, ps) {
      AcceptedInWindow(v, n - 1, b == 0, ps);
    }
    if n > 1 {
      StepsSpread(v, n - 1, ps);
    }
  }

  lemma ProductMonotoneNat(a: nat, b: nat, m: nat)
    requires a <= b
    ensures a * m <= b * m
  {
  }

  /** How many steps fit into `w` samples. */
  function MaxSteps(w: nat, m: nat): nat
    requires w > 0 && m > 0
  {
    (w - 1) / m + 1
  }

  lemma QuotientBound(s: nat, m: nat, w: nat)
    requires m > 0 && s > 0 && w > 0 && Reach(0, s, m) <= w - 1
    ensures s <= MaxSteps(w, m)
  {
    var q := (w - 1) / m;
    assert q * m + (w - 1) % m == w - 1;
    assert (q + 1) * m == q * m + m;
    if q + 1 <= s - 1 {
      ProductMonotoneNat(q + 1, s - 1, m);
    }
  }

  /** A window of `w` samples yields at most `(w - 1) / minInterval + 1` steps. */
  lemma StepBound(v: View, w: nat, ps: Params)
    requires Proper(v, ps) && Spaced(v.cs, ps.minInterval) && 0 < w < |v.xs| && v.boundary == |v.xs| - w - 1
    requires v.cs != [] ==> v.cs[|v.cs| - 1].index <= |v.xs| - 2
    ensures Steps(v, |v.cs|, ps) <= MaxSteps(w, ps.minInterval)
  {
    var s := Steps(v, |v.cs|, ps);
    if s > 0 {
      StepsSpread(v, |v.cs|, ps);
      QuotientBound(s, ps.minInterval, w);
    }
  }

  // ----- stage1_detect_window_steps -----

  lemma QuotientMonotone(a: nat, b: nat, p: nat)
    requires a <= b && p > 0
    ensures a as real / p as real <= b as real / p as real
  {
  }

  lemma InTimeIffLeast(v: View, k: nat, ps: Params, found: bool, delta: nat)
    requires k < |v.cs| && v.period > 0
    requires found <==> exists j :: 0 <= j < |v.cs| && Neighbour(v.cs, k, j, ps)
    requires found ==> exists j :: 0 <= j < |v.cs| && Neighbour(v.cs, k, j, ps) && Offbeat(v.cs, k, j, v.period) == delta
    requires forall j :: 0 <= j < |v.cs| && Neighbour(v.cs, k, j, ps) ==> delta <= Offbeat(v.cs, k, j, v.period)
    ensures InTime(v, k, ps) <==> found && delta as real / v.period as real <= ps.maxDeviation
  {
    if InTime(v, k, ps) {
      var j :| 0 <= j < |v.cs| && Neighbour(v.cs, k, j, ps) && Offbeat(v.cs, k, j, v.period) as real / v.period as real <= ps.maxDeviation;
      QuotientMonotone(delta, Offbeat(v.cs, k, j, v.period), v.period);
    }
  }

  /** The tests on one candidate. */
  method IsStep(v: View, k: nat, detected: nat, ps: Params) returns (accept: bool)
    requires Proper(v, ps) && k < |v.cs|
    ensures accept <==> Accepted(v, k, detected == 0, ps)
  {
    var c := v.cs[k];
    if c.index < v.boundary {
      return false;
    }
    RadiusPositive(v.period);
    var variance := VarianceAround(v.xs, c.index, Radius(v.period));
    if variance < ps.minVariance {
      return false;
    }
    var hasNeighbour, delta := RhythmicNeighbour(v.cs, k, v.period, ps);
    InTimeIffLeast(v, k, ps, hasNeighbour, delta);
    hide Activity, InTime, Neighbour;
    var clear := c.prominence >= ps.minProminence * 1.5;
    var first := v.atRest && detected == 0 && clear;
    var byProminence := !v.confident && hasNeighbour && clear;
    var inTime := v.confident && hasNeighbour && delta as real / v.period as real <= ps.maxDeviation && c.prominence >= ps.minProminence * 1.15;
    accept := inTime || byProminence || first;
  }

  method VarianceAround(xs: seq<real>, peak: nat, radius: nat) returns (variance: real)
    requires peak < |xs| && |xs| > 3 && radius > 0
    ensures variance == Activity(xs, peak, radius)
  {
    var left, right := Left(peak, radius), Right(|xs|, peak, radius);
    var mean := SignalMean(xs, left, right);
    variance := SignalVariance(xs, mean, left, right);
  }

  /** The second loop; the 8-bit count never saturates. */
  method CountSteps(v: View, ps: Params) returns (detected: nat)
    requires Proper(v, ps) && |v.cs| <= 255
    ensures detected == Steps(v, |v.cs|, ps)
  {
    detected := 0;
    for i := 0 to |v.cs|
      invariant detected == Steps(v, i, ps) && detected <= i
    {
      var accept := IsStep(v, i, detected, ps);
      if accept && detected < 255 {
        detected := detected + 1;
      }
    }
  }

  /** What the search makes of a history, once the period is found. */
  ghost function ViewOf(xs: seq<real>, w: nat, atRest: bool, period: nat, confident: bool, ps: Params): (v: View)
    requires |xs| > 3 && 0 < w < |xs| && period >= 2
  {
    RadiusPositive(period);
    View(xs, Candidates(xs, Radius(period), ps.minProminence, ps.minInterval, |xs| - 1), period, confident, atRest, |xs| - w - 1)
  }

  /** The number of steps that a window of `w` samples adds, as the period decides it. */
  ghost predicate Found(sqrt: real -> real, xs: seq<real>, w: nat, atRest: bool, ps: Params, steps: nat, period: nat, confident: bool)
    requires Sound(ps) && 3 < |xs| && ps.maxInterval < |xs| && 0 < w < |xs|
  {
    && ps.minInterval <= period <= ps.maxInterval
    && Chosen(Correlations(sqrt, xs, ps.minInterval, ps.maxInterval), confident, period - ps.minInterval)
    && var v := ViewOf(xs, w, atRest, period, confident, ps);
       Proper(v, ps) && steps == Steps(v, |v.cs|, ps)
  }

  /** The steps reported lie in the window and apart, so there are few. */
  lemma ViewIsProper(xs: seq<real>, w: nat, atRest: bool, period: nat, confident: bool, ps: Params)
    requires Sound(ps) && |xs| > 3 && 0 < w < |xs| && period >= 2
    ensures var v := ViewOf(xs, w, atRest, period, confident, ps);
            Proper(v, ps) && Spaced(v.cs, ps.minInterval) && Steps(v, |v.cs|, ps) <= MaxSteps(w, ps.minInterval)
  {
    RadiusPositive(period);
    CandidatesMerged(xs, Radius(period), ps.minProminence, ps.minInterval, |xs| - 1);
    StepBound(ViewOf(xs, w, atRest, period, confident, ps), w, ps);
  }

  /** The search once the period is known. */
  method DetectFrom(xs: seq<real>, w: nat, atRest: bool, period: nat, confident: bool, ps: Params) returns (steps: nat)
    requires Sound(ps) && 3 < |xs| <= CANDIDATE_BUFFER_SIZE && 0 < w < |xs| && period >= 2
    ensures var v := ViewOf(xs, w, atRest, period, confident, ps);
            Proper(v, ps) && steps == Steps(v, |v.cs|, ps)
  {
    ViewIsProper(xs, w, atRest, period, confident, ps);
    RadiusPositive(period);
    hide Candidates, Steps, Spaced, MaxSteps;
    var candidates := new Peak[CANDIDATE_BUFFER_SIZE];
    var count := FindCandidates(xs, Radius(period), ps.minProminence, ps.minInterval, candidates);
    steps := CountSteps(View(xs, candidates[..count], period, confident, atRest, |xs| - w - 1), ps);
  }

  /** The number of steps reported for a window. */
  ghost predicate Reported(sqrt: real -> real, xs: seq<real>, w: nat, atRest: bool, ps: Params, steps: nat)
    requires Sound(ps) && 3 < |xs| && ps.maxInterval < |xs| && 0 < w < |xs|
  {
    && (exists period, confident :: Found(sqrt, xs, w, atRest, ps, steps, period, confident))
    && steps <= MaxSteps(w, ps.minInterval)
  }

  /** The report is decided by the history, the window and the state of the gate. */
  lemma ReportedUnique(sqrt: real -> real, xs: seq<real>, w: nat, atRest: bool, ps: Params, s1: nat, s2: nat)
    requires IsSqrt(sqrt) && Sound(ps) && 3 < |xs| && ps.maxInterval < |xs| && 0 < w < |xs|
    requires Reported(sqrt, xs, w, atRest, ps, s1) && Reported(sqrt, xs, w, atRest, ps, s2)
    ensures s1 == s2
  {
    hide Found, IsSqrt, Correlations;
    var p1, c1 :| Found(sqrt, xs, w, atRest, ps, s1, p1, c1);
    var p2, c2 :| Found(sqrt, xs, w, atRest, ps, s2, p2, c2);
    FoundUnique(sqrt, xs, w, atRest, ps, s1, p1, c1, s2, p2, c2);
  }

  lemma FoundUnique(sqrt: real -> real, xs: seq<real>, w: nat, atRest: bool, ps: Params,
                    s1: nat, p1: nat, c1: bool, s2: nat, p2: nat, c2: bool)
    requires IsSqrt(sqrt) && Sound(ps) && 3 < |xs| && ps.maxInterval < |xs| && 0 < w < |xs|
    requires Found(sqrt, xs, w, atRest, ps, s1, p1, c1) && Found(sqrt, xs, w, atRest, ps, s2, p2, c2)
    ensures s1 == s2 && p1 == p2 && c1 == c2
  {
    CorrelationsBounded(sqrt, xs, ps.minInterval, ps.maxInterval);
    var cs := Correlations(sqrt, xs, ps.minInterval, ps.maxInterval);
    hide Chosen, Correlations, IsSqrt, Steps, ViewOf;
    ChosenUnique(cs, c1, p1 - ps.minInterval, c2, p2 - ps.minInterval);
  }

  /** The search on a long enough history. */
  method DetectLong(sqrt: real -> real, xs: seq<real>, w: nat, atRest: bool, ps: Params) returns (steps: nat)
    requires IsSqrt(sqrt) && Sound(ps) && ps.minSamples <= |xs| <= CANDIDATE_BUFFER_SIZE && 0 < w < |xs|
    ensures Reported(sqrt, xs, w, atRest, ps, steps)
  {
    var period, confident := Find(sqrt, xs, ps.minInterval, ps.maxInterval);
    hide Correlations, Chosen, Steps, ViewOf, Proper, IsSqrt, Reported;
    steps := DetectFrom(xs, w, atRest, period, confident, ps);
    FoundReported(sqrt, xs, w, atRest, ps, steps, period, confident);
  }

  lemma FoundReported(sqrt: real -> real, xs: seq<real>, w: nat, atRest: bool, ps: Params, steps: nat, period: nat, confident: bool)
    requires Sound(ps) && 3 < |xs| && ps.maxInterval < |xs| && 0 < w < |xs| && ps.minInterval <= period <= ps.maxInterval
    requires Chosen(Correlations(sqrt, xs, ps.minInterval, ps.maxInterval), confident, period - ps.minInterval)
    requires var v := ViewOf(xs, w, atRest, period, confident, ps); Proper(v, ps) && steps == Steps(v, |v.cs|, ps)
    ensures Reported(sqrt, xs, w, atRest, ps, steps)
  {
    hide Correlations, Chosen, Steps, ViewOf, Proper, MaxSteps;
    ViewIsProper(xs, w, atRest, period, confident, ps);
    assert Found(sqrt, xs, w, atRest, ps, steps, period, confident);
  }

  /** stage1_detect_window_steps. */
  method Detect(sqrt: real -> real, xs: seq<real>, w: nat, atRest: bool, ps: Params) returns (steps: nat)
    requires IsSqrt(sqrt) && Sound(ps) && |xs| <= CANDIDATE_BUFFER_SIZE
    requires 0 < w && |xs| >= ps.minSamples ==> w < |xs|
    ensures if w == 0 || |xs| < ps.minSamples then steps == 0 else Reported(sqrt, xs, w, atRest, ps, steps)
  {
    hide Reported;
    if w == 0 || |xs| < ps.minSamples {
      return 0;
    }
    steps := DetectLong(sqrt, xs, w, atRest, ps);
  }

  // ----- What the neighbourhood of a peak is -----

  /** The radius is 45 percent of the period, to the nearest sample. */
  lemma RadiusIs(period: nat)
    ensures -50 <= 100 * Radius(period) - 45 * period <= 50
  {
  }

  /** The neighbourhood holds exactly the samples within the radius. */
  lemma NeighbourhoodIs(n: nat, peak: nat, radius: nat, i: nat)
    requires peak < n && i < n
    ensures Left(peak, radius) <= i <= Right(n, peak, radius) <==> Gap(i, peak) <= radius
  {
  }

  function SumOfSquares(xs: seq<real>, lo: nat, hi: nat): real
    requires lo <= hi <= |xs|
  {
    if lo == hi then 0.0 else SumOfSquares(xs, lo, hi - 1) + xs[hi - 1] * xs[hi - 1]
  }

  lemma {:induction false} SquaredDeviationsAre(xs: seq<real>, m: real, lo: nat, hi: nat)
    requires lo <= hi <= |xs|
    ensures SquaredDeviations(xs, m, lo, hi) == SumOfSquares(xs, lo, hi) - 2.0 * (m * Sum(xs, lo, hi)) + (hi - lo) as real * (m * m)
  {
    if lo < hi {
      SquaredDeviationsAre(xs, m, lo, hi - 1);
      var x, s, n := xs[hi - 1], Sum(xs, lo, hi - 1), (hi - 1 - lo) as real;
      SquareOfDifference(x, m);
      Distributes(m, s, x);
      Distributes(m * m, n, 1.0);
    }
  }

  lemma SquareOfDifference(x: real, m: real)
    ensures (x - m) * (x - m) == x * x - 2.0 * (m * x) + m * m
  {
  }

  lemma Distributes(a: real, b: real, c: real)
    ensures a * (b + c) == a * b + a * c && (b + c) * a == b * a + c * a && a * 1.0 == a
  {
  }

  /** The activity around a peak is the mean of the squares less the square of the mean, over the
      neighbourhood. */
  lemma ActivityIs(xs: seq<real>, peak: nat, radius: nat)
    requires peak < |xs| && |xs| > 1 && radius > 0
    ensures var lo, hi := Left(peak, radius), Right(|xs|, peak, radius) + 1;
            var n, m := (hi - lo) as real, Mean(xs, lo, hi);
            && m * n == Sum(xs, lo, hi)
            && Activity(xs, peak, radius) * n == SumOfSquares(xs, lo, hi) - n * (m * m)
  {
    var lo, hi := Left(peak, radius), Right(|xs|, peak, radius) + 1;
    var n, m := (hi - lo) as real, Mean(xs, lo, hi);
    QuotientTimes(Sum(xs, lo, hi), n);
    QuotientTimes(SquaredDeviations(xs, m, lo, hi), n);
    SquaredDeviationsAre(xs, m, lo, hi);
    hide Sum, SumOfSquares, SquaredDeviations, Mean;
    Twice(m, n, Sum(xs, lo, hi));
  }

  lemma Twice(m: real, n: real, s: real)
    requires m * n == s
    ensures m * s == n * (m * m)
  {
  }

  /** Consecutive windows abut: with `total` samples before a window of `w`, the first sample it looks at
      is number `total - 1`, and the last, which has a neighbour on either side, is number
      `total + w - 2`. So every sample is looked at in exactly one window. */
  lemma WindowsAbut(xs: seq<real>, total: nat, w: nat, atRest: bool, period: nat, confident: bool, ps: Params)
    requires |xs| > 3 && 0 < w < |xs| <= total + w && period >= 2
    ensures var v, first := ViewOf(xs, w, atRest, period, confident, ps), total + w - |xs|;
            first + v.boundary == total - 1
    ensures var v, first := ViewOf(xs, w, atRest, period, confident, ps), total + w - |xs|;
            forall k :: 0 <= k < |v.cs| ==> first + v.cs[k].index <= total + w - 2
  {
    RadiusPositive(period);
    CandidatesMerged(xs, Radius(period), ps.minProminence, ps.minInterval, |xs| - 1);
  }

  /** Of two peaks too close and equally prominent, such as the ends of a plateau, the earlier stays. */
  lemma TieKeepsFirst(cs: seq<Peak>, p: Peak, minInterval: nat)
    requires cs != [] && p.index < cs[|cs| - 1].index + minInterval && p.prominence == cs[|cs| - 1].prominence
    ensures Append(cs, p, minInterval) == cs
  {
  }
}
