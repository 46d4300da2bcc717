/** The stage-1 motion context of components/motion_stage1_engine: the history, the step search and the
    gate together. Samples are handed in as smoothed vertical accelerations. */
module Stage1 {
  import opened MotionHistory
  import opened Periodicity
  import Peaks
  import opened StepGate

  const HISTORY_SIZE: nat := 126
  const TUNING: Peaks.Params := Peaks.Params(63, 11, 28, 0.005, 0.1, 0.3)

  /** The history after `inserted` and then `w` more samples is long enough to search and longer than
      the window: the source asserts the second whenever the first holds. */
  predicate WindowFits(inserted: nat, w: nat)
  {
    var n := if inserted + w > HISTORY_SIZE then HISTORY_SIZE else inserted + w;
    n >= TUNING.minSamples ==> w < n
  }

  /** The source's assertion on the window holds exactly for windows of fewer than 63 samples, and, once
      there is some history, for windows of fewer than 126. */
  lemma WindowFitsIff(inserted: nat, w: nat)
    ensures WindowFits(inserted, w) <==> w < 63 || (inserted > 0 && w < 126)
  {
  }

  class Engine {
    const history: History
    var walking: bool
    var pending: nat
    var quiet: nat
    ghost var inserted: seq<real>
    ghost var windows: seq<Window>
    /** The sum of what `Process` has returned. */
    ghost var counted: nat

    ghost function Repr(): set<object>
      reads this
    {
      {this, history, history.data}
    }

    function GateView(): Gate
      reads this
    {
      Gate(walking, pending, quiet)
    }

    /** The history holds the latest of all samples. */
    ghost predicate HistoryHolds(all: seq<real>)
      reads history, history.data
    {
      history.Valid() && history.data.Length == HISTORY_SIZE && history.Contents() == Kept(all, HISTORY_SIZE)
    }

    /** Gate and count are the result of every window so far. */
    ghost predicate GateHolds(ws: seq<Window>)
      reads this
    {
      GateView() == Run(ws).0 && counted == Run(ws).1 && forall k :: 0 <= k < |ws| ==> InBounds(ws[k])
    }

    ghost predicate Valid()
      reads Repr()
    {
      HistoryHolds(inserted) && GateHolds(windows)
    }

    /** stage1_init. */
    constructor ()
      ensures Valid() && inserted == [] && windows == [] && counted == 0 && fresh(Repr())
    {
      history := new History(HISTORY_SIZE);
      walking, pending, quiet := false, 0, 0;
      inserted, windows, counted := [], [], 0;
    }

    /** stage1_derive_accepted_steps_from_window. */
    method Accept(steps: nat, samples: nat) returns (accepted: nat)
      modifies this`walking, this`pending, this`quiet
      ensures (GateView(), accepted) == Pass(old(GateView()), Window(steps, samples))
    {
      if steps == 0 {
        var elapsed := quiet + samples;
        quiet := if elapsed > 65535 then 65535 else elapsed;
        if quiet >= QUIET_SAMPLES {
          walking := false;
          pending := 0;
        }
        return 0;
      }
      quiet := 0;
      if walking {
        pending := 0;
        return steps;
      }
      var sum := pending + steps;
      if sum > 255 {
        sum := 255;
      }
      pending := sum;
      if pending >= MIN_STEPS {
        accepted := pending;
        walking := true;
        pending := 0;
        return;
      }
      accepted := 0;
    }

    method Remember(samples: seq<real>, ghost all: seq<real>) returns (xs: seq<real>)
      requires HistoryHolds(all)
      modifies history, history.data
      ensures HistoryHolds(all + samples) && xs == Kept(all + samples, HISTORY_SIZE)
    {
      KeptTwice(all, samples, HISTORY_SIZE);
      hide Kept;
      history.InsertAll(samples);
      xs := history.Read();
    }

    /** The samples go into the history, and the search looks at what is then there. */
    method Search(sqrt: real -> real, samples: seq<real>, ghost all: seq<real>) returns (steps: nat)
      requires HistoryHolds(all) && IsSqrt(sqrt) && samples != [] && WindowFits(|all|, |samples|)
      modifies history, history.data
      ensures HistoryHolds(all + samples)
      ensures Searched(sqrt, Kept(all + samples, HISTORY_SIZE), Window(steps, |samples|), GateView())
    {
      hide Peaks.Reported, IsSqrt, HistoryHolds;
      var xs := Remember(samples, all);
      steps := Peaks.Detect(sqrt, xs, |samples|, !walking && pending == 0, TUNING);
    }

    /** The gate, with the record of windows. */
    method Admit(w: Window) returns (accepted: nat)
      requires GateHolds(windows) && InBounds(w)
      modifies this`walking, this`pending, this`quiet, this`windows, this`counted
      ensures windows == old(windows) + [w] && GateHolds(windows)
      ensures accepted == Pass(old(GateView()), w).1 && counted == old(counted) + accepted
    {
      accepted := Accept(w.steps, w.samples);
      RunOne(windows, w);
      windows, counted := windows + [w], counted + accepted;
    }

    /** stage1_process_motion_data, from the insertion of the samples on. The result is what the gate lets
        through of the steps found in this window. */
    method Process(sqrt: real -> real, samples: seq<real>) returns (accepted: nat, ghost w: Window)
      requires Valid() && IsSqrt(sqrt) && samples != [] && WindowFits(|inserted|, |samples|)
      modifies Repr()
      ensures Valid() && inserted == old(inserted) + samples && windows == old(windows) + [w]
      ensures w.samples == |samples| && accepted == Pass(old(GateView()), w).1 && counted == old(counted) + accepted
      ensures Searched(sqrt, Kept(inserted, HISTORY_SIZE), w, old(GateView()))
    {
      hide Kept, Run, Pass, Searched, InBounds, IsSqrt;
      var steps := Search(sqrt, samples, inserted);
      w := Window(steps, |samples|);
      SearchBounds(sqrt, Kept(inserted + samples, HISTORY_SIZE), w, GateView());
      accepted := Admit(Window(steps, |samples|));
      inserted := inserted + samples;
    }

    /** What the engine has returned in all: the steps of the bouts that count, none lost to the width
        of a counter, and never more than one step per eleven samples of a window and one over. */
    lemma CountIsTrue()
      requires Valid()
      ensures counted == TotalCounted(Bouts(windows))
      ensures counted + pending + Discarded(windows) == Detected(windows) <= Limit(windows)
    {
      CountedSteps(windows);
    }
  }

  lemma RunOne(ws: seq<Window>, w: Window)
    ensures Run(ws + [w]).0 == Pass(Run(ws).0, w).0 && Run(ws + [w]).1 == Run(ws).1 + Pass(Run(ws).0, w).1
  {
    assert (ws + [w])[..|ws|] == ws;
  }

  lemma SearchBounds(sqrt: real -> real, xs: seq<real>, w: Window, g: Gate)
    requires w.samples > 0 && Searched(sqrt, xs, w, g) && |xs| <= HISTORY_SIZE
    ensures InBounds(w)
  {
  }

  /** The steps of a window of the device: none without enough history, else what the search reports. */
  ghost predicate Searched(sqrt: real -> real, xs: seq<real>, w: Window, g: Gate)
  {
    if w.samples == 0 || |xs| < TUNING.minSamples then w.steps == 0
    else w.samples < |xs| && Peaks.Reported(sqrt, xs, w.samples, !g.walking && g.pending == 0, TUNING, w.steps)
  }

  predicate InBounds(w: Window)
  {
    w.samples > 0 && w.steps <= (w.samples - 1) / 11 + 1 && w.steps <= 252
  }

  /** The same for any list of windows within bounds. */
  lemma {:induction false} CountedSteps(ws: seq<Window>)
    requires forall k :: 0 <= k < |ws| ==> InBounds(ws[k])
    ensures Run(ws).1 == TotalCounted(Bouts(ws))
    ensures Run(ws).1 + Run(ws).0.pending + Discarded(ws) == Detected(ws)
    ensures Detected(ws) <= Limit(ws)
  {
    assert Small(ws);
    ReleasedAreBouts(ws);
    Conservation(ws);
    NothingClipped(ws);
    DetectedWithinLimit(ws);
  }

  function Limit(ws: seq<Window>): nat
    requires forall k :: 0 <= k < |ws| ==> InBounds(ws[k])
  {
    if ws == [] then 0 else Limit(ws[..|ws| - 1]) + (ws[|ws| - 1].samples - 1) / 11 + 1
  }

  lemma {:induction false} DetectedWithinLimit(ws: seq<Window>)
    requires forall k :: 0 <= k < |ws| ==> InBounds(ws[k])
    ensures Detected(ws) <= Limit(ws)
  {
    if ws != [] {
      DetectedWithinLimit(ws[..|ws| - 1]);
    }
  }

  /** Another candidate 11 to 28 samples away, at an interval within 30 percent of the period. */
  ghost predicate OnBeat(v: Peaks.View, k: nat)
    requires k < |v.cs|
  {
    exists j :: 0 <= j < |v.cs| && Peaks.Neighbour(v.cs, k, j, TUNING) && 10 * Peaks.Offbeat(v.cs, k, j, v.period) <= 3 * v.period
  }

  /** What a step is on this device: in the window, with a variance of at least 0.005 g^2 around it, and
      either on the beat of an established period and 0.115 g prominent, or 0.15 g prominent and, while no
      period is established, 11 to 28 samples from another candidate, or the first while at rest. */
  lemma StepIff(v: Peaks.View, k: nat, opening: bool)
    requires Peaks.Proper(v, TUNING) && k < |v.cs|
    ensures Peaks.Radius(v.period) > 0
    ensures var c := v.cs[k];
            Peaks.Accepted(v, k, opening, TUNING) <==>
              && c.index >= v.boundary && Peaks.Activity(v.xs, c.index, Peaks.Radius(v.period)) >= 0.005
              && (|| (v.confident && OnBeat(v, k) && c.prominence >= 0.115)
                  || (!v.confident && c.prominence >= 0.15 && exists j :: 0 <= j < |v.cs| && j != k && 11 <= Peaks.Gap(v.cs[k].index, v.cs[j].index) <= 28)
                  || (v.atRest && opening && c.prominence >= 0.15))
  {
    Peaks.RadiusPositive(v.period);
    OnBeatIff(v, k);
    hide Peaks.Activity, Peaks.InTime, OnBeat, Peaks.Radius, Peaks.Gap;
    assert (exists j :: 0 <= j < |v.cs| && Peaks.Neighbour(v.cs, k, j, TUNING)) <==>
           (exists j :: 0 <= j < |v.cs| && j != k && 11 <= Peaks.Gap(v.cs[k].index, v.cs[j].index) <= 28) by {
      assert forall j :: 0 <= j < |v.cs| ==>
        (Peaks.Neighbour(v.cs, k, j, TUNING) <==> j != k && 11 <= Peaks.Gap(v.cs[k].index, v.cs[j].index) <= 28);
    }
  }

  lemma OnBeatIff(v: Peaks.View, k: nat)
    requires k < |v.cs| && v.period > 0
    ensures Peaks.InTime(v, k, TUNING) <==> OnBeat(v, k)
  {
    forall j | 0 <= j < |v.cs|
      ensures Peaks.Offbeat(v.cs, k, j, v.period) as real / v.period as real <= 0.3 <==> 10 * Peaks.Offbeat(v.cs, k, j, v.period) <= 3 * v.period
    {
      QuotientIff(Peaks.Offbeat(v.cs, k, j, v.period), v.period);
    }
  }

  lemma QuotientIff(d: nat, p: nat)
    requires p > 0
    ensures d as real / p as real <= 0.3 <==> 10 * d <= 3 * p
  {
    var q := d as real / p as real;
    QuotientTimes(d as real, p as real);
    assert q * p as real == d as real;
    assert (10 * d) as real == 10.0 * d as real && (3 * p) as real == 3.0 * p as real;
    if q <= 0.3 {
      Products(q, 0.3, p as real);
    } else {
      StrictProducts(0.3, q, p as real);
    }
  }

  lemma Products(a: real, b: real, p: real)
    requires a <= b && p > 0.0
    ensures a * p <= b * p
  {
  }

  lemma StrictProducts(a: real, b: real, p: real)
    requires a < b && p > 0.0
    ensures a * p < b * p
  {
  }
}
