/** sync_bt_with_work_window of components/power_manager/src/power_manager.c: how far the work tick is
    moved to meet the radio's wake-ups. */
module PhaseShift {
  import opened Basics
  import opened Runtime

  const MAX_DELTA_CHANGE: int := 1000
  const MIN_SAMPLES: nat := 5
  const OVERLAP: int := 2000

  class Calculator {
    var lastBtWake: int
    var deltaMean: int
    var samples: nat
    /** The delays averaged so far. */
    ghost var delays: seq<int>

    /** A mean exists exactly while samples do, is positive and lies among them. */
    ghost predicate Valid()
      reads this
    {
      && samples == |delays| < MIN_SAMPLES
      && deltaMean == MeanOf(delays) && (samples > 0 ==> deltaMean >= 1 && Among(deltaMean, delays))
    }

    constructor ()
      ensures Valid() && delays == []
    {
      lastBtWake, deltaMean, samples, delays := 0, 0, 0, [];
    }

    method Reset()
      modifies this
      ensures Valid() && delays == [] && lastBtWake == 0
    {
      lastBtWake, deltaMean, samples, delays := 0, 0, 0, [];
    }

    /** Every shift handed to the tick manager is positive and leaves room for the overlap, so it is
        one that `ShiftTick` allows; it is what the overlap and a mean of the last five delays, neither
        below the least nor above the greatest of them, leave of the interval. */
    method Sync(now: int) returns (shift: Option<nat>)
      requires Valid()
      modifies this
      ensures Valid()
      ensures shift.Some? ==> 0 < shift.value <= TICK - OVERLAP - 1 && old(lastBtWake) > 0 && old(samples) + 1 == MIN_SAMPLES
      ensures forall s :: shift.Some? ==> Possible(s, ShiftTick(shift.value))
      ensures shift.Some? ==> Among(TICK - OVERLAP - shift.value, old(delays) + [now - old(lastBtWake)])
      ensures var all := old(delays) + [now - old(lastBtWake)];
              if !(old(lastBtWake) > 0 && Stable(old(delays), now - old(lastBtWake))) then shift == None && delays == []
              else if |all| < 5 then shift == None && delays == all && lastBtWake == old(lastBtWake)
              else delays == [] && shift == if MeanOf(all) + 2000 < 1025000 then Some(1025000 - 2000 - MeanOf(all)) else None
    {
      shift := None;
      if lastBtWake <= 0 {
        Reset();
        return;
      }
      var delta := now - lastBtWake;
      if delta <= 0 {
        Reset();
        return;
      }
      if samples != 0 && delta - deltaMean > MAX_DELTA_CHANGE {
        Reset();
        return;
      }
      MeanAmong(deltaMean, delays, delta);
      MeanNext(delays, delta);
      deltaMean := (deltaMean * samples + delta) / (samples + 1);
      samples := samples + 1;
      delays := delays + [delta];
      if samples >= MIN_SAMPLES {
        var s := TICK - deltaMean - OVERLAP;
        if 0 < s <= TICK {
          shift := Some(s);
        }
        Reset();
      }
    }
  }

  /** The mean as it is kept: each delay is averaged in with the weight of those before. */
  function MeanOf(ds: seq<int>): int
  {
    if ds == [] then 0
    else var n := |ds| - 1; (MeanOf(ds[..n]) * n + ds[n]) / (n + 1)
  }

  lemma MeanNext(ds: seq<int>, d: int)
    ensures MeanOf(ds + [d]) == (MeanOf(ds) * |ds| + d) / (|ds| + 1)
  {
    assert (ds + [d])[..|ds|] == ds;
  }

  /** A delay that counts: positive, and no more than a millisecond above the mean so far. */
  ghost predicate Stable(ds: seq<int>, d: int)
  {
    d > 0 && (ds != [] ==> d - MeanOf(ds) <= 1000)
  }

  /** The mean of equal delays is that delay, so a steady radio moves the tick by what it and the overlap
      leave of the interval. */
  lemma {:induction false} SteadyMean(d: int, n: nat)
    requires n > 0
    ensures MeanOf(seq(n, _ => d)) == d
  {
    var ds := seq(n, _ => d);
    var k := n - 1;
    assert ds[..k] == seq(k, _ => d);
    if k > 0 {
      SteadyMean(d, k);
      assert d * k + d == d * n;
    }
    QuotientBounds(d * n, n, d, d);
  }

  /** `x` is neither below all of `ds` nor above all of them. */
  ghost predicate Among(x: int, ds: seq<int>)
  {
    (exists i :: 0 <= i < |ds| && ds[i] <= x) && (exists i :: 0 <= i < |ds| && x <= ds[i])
  }

  lemma MeanBetween(mean: int, k: nat, delta: int)
    ensures var m := (mean * k + delta) / (k + 1);
            if mean <= delta && k > 0 then mean <= m <= delta else if k > 0 then delta <= m <= mean else m == delta
  {
    var n, sum := k + 1, mean * k + delta;
    if mean <= delta {
      Products(mean, delta, k);
      QuotientBounds(sum, n, mean, delta);
    } else {
      Products(delta, mean, k);
      QuotientBounds(sum, n, delta, mean);
    }
  }

  lemma QuotientBounds(sum: int, n: nat, lo: int, hi: int)
    requires n > 0 && lo * n <= sum <= hi * n
    ensures lo <= sum / n <= hi
  {
    var q := sum / n;
    assert sum == q * n + sum % n;
    if q < lo {
      Products(q + 1, lo, n);
    }
    if q > hi {
      Products(hi + 1, q, n);
    }
  }

  lemma Products(a: int, b: int, n: nat)
    requires a <= b
    ensures a * n <= b * n && (a - 1) * n + n == a * n
  {
  }

  /** The running mean stays among the delays it was taken over. */
  lemma MeanAmong(mean: int, ds: seq<int>, delta: int)
    requires delta >= 1 && (if ds == [] then mean == 0 else mean >= 1 && Among(mean, ds))
    ensures var m := (mean * |ds| + delta) / (|ds| + 1); m >= 1 && Among(m, ds + [delta])
  {
    MeanBetween(mean, |ds|, delta);
    var all := ds + [delta];
    assert all[|ds|] == delta && forall i :: 0 <= i < |ds| ==> all[i] == ds[i];
  }
}
