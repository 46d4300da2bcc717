/** The gate of components/motion_stage1_engine/src/step_detection_algo.c that holds steps back until
    walking is certain, and the stage-1 context that feeds it. */
module StepGate {
  const MIN_STEPS: nat := 4
  const QUIET_SAMPLES: nat := 42

  datatype Gate = Gate(walking: bool, pending: nat, quiet: nat)

  /** A window: its length in samples and the steps found in it. */
  datatype Window = Window(steps: nat, samples: nat)

  function Capped(x: nat, cap: nat): nat { if x > cap then cap else x }

  /** The gate after a window, and the steps it lets through. */
  function Pass(g: Gate, w: Window): (Gate, nat)
  {
    if w.steps == 0 then
      var quiet := Capped(g.quiet + w.samples, 65535);
      if quiet >= QUIET_SAMPLES then (Gate(false, 0, quiet), 0) else (g.(quiet := quiet), 0)
    else if g.walking then (Gate(true, 0, 0), w.steps)
    else
      var pending := Capped(g.pending + w.steps, 255);
      if pending >= MIN_STEPS then (Gate(true, 0, 0), pending) else (Gate(false, pending, 0), 0)
  }

  const AT_REST: Gate := Gate(false, 0, 0)

  /** The steps let through over a run of windows, with the gate at its end. */
  function Run(ws: seq<Window>): (Gate, nat)
  {
    if ws == [] then (AT_REST, 0)
    else
      var (g, released) := Run(ws[..|ws| - 1]);
      var (g', more) := Pass(g, ws[|ws| - 1]);
      (g', released + more)
  }

  // ----- Bouts of walking -----

  /** The samples since the last window with a step. */
  function Quiet(ws: seq<Window>): nat
  {
    if ws == [] || ws[|ws| - 1].steps > 0 then 0 else Quiet(ws[..|ws| - 1]) + ws[|ws| - 1].samples
  }

  /** The steps of each bout: a bout ends where the quiet reaches `QUIET_SAMPLES`. The last bout is the
      one going on. */
  function Bouts(ws: seq<Window>): (bouts: seq<nat>)
    ensures bouts != []
  {
    if ws == [] then [0]
    else Extended(Bouts(ws[..|ws| - 1]), ws[|ws| - 1].steps, Quiet(ws) >= QUIET_SAMPLES)
  }

  function Extended(bouts: seq<nat>, steps: nat, ended: bool): (r: seq<nat>)
    requires bouts != []
    ensures r != []
  {
    var last := |bouts| - 1;
    if steps > 0 then bouts[..last] + [bouts[last] + steps]
    else if ended then bouts + [0]
    else bouts
  }

  function Total(xs: seq<nat>): nat
  {
    if xs == [] then 0 else Total(xs[..|xs| - 1]) + xs[|xs| - 1]
  }

  /** A bout counts if it has enough steps, and then with all of them. */
  function Counted(bout: nat): nat { if bout >= MIN_STEPS then bout else 0 }

  function TotalCounted(bouts: seq<nat>): nat
  {
    if bouts == [] then 0 else TotalCounted(bouts[..|bouts| - 1]) + Counted(bouts[|bouts| - 1])
  }

  function Detected(ws: seq<Window>): nat
  {
    if ws == [] then 0 else Detected(ws[..|ws| - 1]) + ws[|ws| - 1].steps
  }

  predicate Small(ws: seq<Window>) { forall i :: 0 <= i < |ws| ==> ws[i].steps <= 252 }

  /** The gate is where the bout going on puts it: walking with nothing pending once the bout counts,
      and otherwise with the whole bout pending. The quiet is known up to the width of its counter. */
  ghost predicate Follows(g: Gate, bout: nat, quiet: nat)
  {
    && g.walking == (bout >= MIN_STEPS)
    && g.pending == (if bout >= MIN_STEPS then 0 else bout)
    && g.quiet == Capped(quiet, 65535)
    && (bout > 0 ==> quiet < QUIET_SAMPLES)
  }

  /** One window, seen from the bout it continues or ends. */
  lemma PassFollows(g: Gate, bout: nat, quiet: nat, w: Window)
    requires Follows(g, bout, quiet) && w.steps <= 252
    ensures var quiet' := if w.steps > 0 then 0 else quiet + w.samples;
            var ended := w.steps == 0 && quiet' >= QUIET_SAMPLES;
            && Follows(Pass(g, w).0, if ended then 0 else bout + w.steps, quiet')
            && Counted(bout + w.steps) == Counted(bout) + Pass(g, w).1
            && (w.steps == 0 ==> Pass(g, w).1 == 0)
            && Counted(0) == 0
  {
  }

  /** Over any run of windows with at most 252 steps each, the steps let through are those of the bouts
      that count, all of them and no others, counted as soon as the bout reaches `MIN_STEPS`. */
  lemma {:induction false} ReleasedAreBouts(ws: seq<Window>)
    requires Small(ws)
    ensures Run(ws).1 == TotalCounted(Bouts(ws)) && Follows(Run(ws).0, Current(ws), Quiet(ws))
  {
    if ws == [] {
      LastCounted([], 0);
    } else {
      ReleasedAreBouts(ws[..|ws| - 1]);
      WindowFollows(ws);
    }
  }

  /** The bout going on. */
  function Current(ws: seq<Window>): nat { Bouts(ws)[|Bouts(ws)| - 1] }

  lemma WindowFollows(ws: seq<Window>)
    requires ws != [] && ws[|ws| - 1].steps <= 252
    requires var init := ws[..|ws| - 1]; Run(init).1 == TotalCounted(Bouts(init)) && Follows(Run(init).0, Current(init), Quiet(init))
    ensures Run(ws).1 == TotalCounted(Bouts(ws)) && Follows(Run(ws).0, Current(ws), Quiet(ws))
  {
    hide Pass, Follows, Counted, TotalCounted, Extended;
    var init, w := ws[..|ws| - 1], ws[|ws| - 1];
    ExtendedCounted(Bouts(init), w.steps, Quiet(ws) >= QUIET_SAMPLES);
    PassFollows(Run(init).0, Current(init), Quiet(init), w);
  }

  lemma ExtendedCounted(bouts: seq<nat>, steps: nat, ended: bool)
    requires bouts != []
    ensures var r, last := Extended(bouts, steps, ended), bouts[|bouts| - 1];
            && TotalCounted(r) == TotalCounted(bouts) - Counted(last) + Counted(last + steps)
            && r[|r| - 1] == (if steps == 0 && ended then 0 else last + steps)
            && Total(r) == Total(bouts) + steps
  {
    var init, last := bouts[..|bouts| - 1], bouts[|bouts| - 1];
    assert bouts == init + [last];
    LastCounted(init, last);
    LastCounted(init, last + steps);
    LastCounted(bouts, 0);
    LastTotal(init, last);
    LastTotal(init, last + steps);
    LastTotal(bouts, 0);
  }

  lemma LastCounted(bouts: seq<nat>, x: nat)
    ensures TotalCounted(bouts + [x]) == TotalCounted(bouts) + Counted(x)
  {
    assert (bouts + [x])[..|bouts|] == bouts;
  }

  lemma LastTotal(xs: seq<nat>, x: nat)
    ensures Total(xs + [x]) == Total(xs) + x
  {
    assert (xs + [x])[..|xs|] == xs;
  }

  /** Every detected step is in exactly one bout. */
  lemma {:induction false} BoutsPartition(ws: seq<Window>)
    ensures Total(Bouts(ws)) == Detected(ws)
  {
    if ws == [] {
      LastTotal([], 0);
    } else {
      BoutsPartition(ws[..|ws| - 1]);
      ExtendedCounted(Bouts(ws[..|ws| - 1]), ws[|ws| - 1].steps, Quiet(ws) >= QUIET_SAMPLES);
    }
  }

  // ----- Conservation -----

  /** The steps that time out, and the steps the 8-bit counter cannot hold. */
  function Discarded(ws: seq<Window>): nat
  {
    if ws == [] then 0
    else
      var g := Run(ws[..|ws| - 1]).0;
      Discarded(ws[..|ws| - 1]) + if Pass(g, ws[|ws| - 1]).0.pending == 0 && ws[|ws| - 1].steps == 0 then g.pending else 0
  }

  function Clipped(ws: seq<Window>): nat
  {
    if ws == [] then 0
    else
      var g, steps := Run(ws[..|ws| - 1]).0, ws[|ws| - 1].steps;
      Clipped(ws[..|ws| - 1]) + if steps > 0 && !g.walking && g.pending + steps > 255 then g.pending + steps - 255 else 0
  }

  ghost predicate GateInv(g: Gate)
  {
    && (g.walking ==> g.pending == 0 && g.quiet < QUIET_SAMPLES)
    && (!g.walking ==> g.pending < MIN_STEPS)
    && (g.pending > 0 ==> g.quiet < QUIET_SAMPLES)
  }

  /** Every detected step is let through, pending, timed out or beyond the counter; walking has nothing
      pending and few quiet samples, not walking has at most three steps pending. */
  lemma {:induction false} Conservation(ws: seq<Window>)
    ensures GateInv(Run(ws).0)
    ensures Run(ws).1 + Run(ws).0.pending + Discarded(ws) + Clipped(ws) == Detected(ws)
  {
    if ws != [] {
      Conservation(ws[..|ws| - 1]);
    }
  }

  /** Windows of at most 252 steps lose none to the counter. */
  lemma {:induction false} NothingClipped(ws: seq<Window>)
    requires Small(ws)
    ensures Clipped(ws) == 0
  {
    if ws != [] {
      NothingClipped(ws[..|ws| - 1]);
      Conservation(ws[..|ws| - 1]);
    }
  }

  /** A window of 253 steps may lose one. */
  lemma ClippedExample()
    ensures var ws := [Window(3, 20), Window(253, 20)]; Run(ws).1 == 255 && Detected(ws) == 256
  {
    var ws := [Window(3, 20), Window(253, 20)];
    assert ws[..1] == [Window(3, 20)];
    assert ws[..1][..0] == [];
  }
}
