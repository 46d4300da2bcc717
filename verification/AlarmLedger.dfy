/** Where every alarm of components/state_manager/src/alarm_manager.c ends up. */
module AlarmLedger {
  import opened Basics
  import opened Alarms

  /** What came in, and what left the list otherwise than by firing. */
  datatype Ledger = Ledger(accepted: multiset<Alarm>, removed: multiset<Alarm>, evicted: multiset<Alarm>,
                           discarded: multiset<Alarm>, lost: multiset<Alarm>)

  /** The alarms of `list` that are due within five seconds of `now`. */
  function Due(list: seq<Alarm>, now: nat): multiset<Alarm>
  {
    if list == [] then multiset{}
    else (if list[0].epoch <= now + 5 then multiset{list[0]} else multiset{}) + Due(list[1..], now)
  }

  const NOTHING := Ledger(multiset{}, multiset{}, multiset{}, multiset{}, multiset{})

  /** The entry an event makes, from the list and the clock before it: an accepted alarm, with the latest
      of a full list if it has to go; a deleted alarm; a replaced one, or one that a refused edit cannot
      put back; and at a resynchronisation everything that is due. */
  function Entry(w: World, e: Event): Ledger
  {
    var list := w.s.list;
    match e
    case Created(a) =>
      if !Creates(list, a, w.now) then NOTHING
      else NOTHING.(accepted := multiset{a}, evicted := if |list| == 5 then multiset{list[4]} else multiset{})
    case Deleted(i) => if 0 <= i < |list| then NOTHING.(removed := multiset{list[i]}) else NOTHING
    case Edited(i, a) =>
      if !(0 <= i < |list|) then NOTHING
      else if Creates(Remove(list, i), a, w.now) then NOTHING.(accepted := multiset{a}, removed := multiset{list[i]})
      else if Creates(Remove(list, i), list[i], w.now) then NOTHING
      else NOTHING.(lost := multiset{list[i]})
    case Resynced(now) => NOTHING.(discarded := Due(list, now))
    case _ => NOTHING
  }

  function Added(g: Ledger, d: Ledger): Ledger
  {
    Ledger(g.accepted + d.accepted, g.removed + d.removed, g.evicted + d.evicted, g.discarded + d.discarded, g.lost + d.lost)
  }

  /** At start-up the alarms kept over a reset come in, and those that are due are discarded. */
  function Opening(list: seq<Alarm>, start: nat): Ledger
  {
    Ledger(multiset(list), multiset{}, multiset{}, Due(list, start), multiset{})
  }

  function Book(list: seq<Alarm>, start: nat, es: seq<Event>): Ledger
  {
    if es == [] then Opening(list, start)
    else
      var init := es[..|es| - 1];
      Added(Book(list, start, init), Entry(Run(Init(list, start), init), es[|es| - 1]))
  }

  /** The alarms that fired. */
  function Fired(log: seq<Firing>): multiset<Alarm>
  {
    if log == [] then multiset{} else Fired(log[..|log| - 1]) + multiset{log[|log| - 1].a}
  }

  /** All that came in is listed, fired, removed, evicted, discarded or lost. */
  ghost predicate Balanced(g: Ledger, w: World)
  {
    g.accepted == multiset(w.s.list) + Fired(w.log) + g.removed + g.evicted + g.discarded + g.lost
  }

  // ----- What each operation does to the multiset of alarms -----

  lemma {:induction false} DiscardTakesDue(list: seq<Alarm>, now: nat)
    requires Sorted(list)
    ensures multiset(list) == multiset(Discard(list, now)) + Due(list, now)
  {
    if list != [] {
      assert list == [list[0]] + list[1..];
      if list[0].epoch <= now + BUFFER {
        DiscardTakesDue(list[1..], now);
      } else {
        NothingDue(list, now);
      }
    }
  }

  lemma {:induction false} NothingDue(list: seq<Alarm>, now: nat)
    requires forall i :: 0 <= i < |list| ==> list[i].epoch > now + 5
    ensures Due(list, now) == multiset{}
  {
    if list != [] {
      NothingDue(list[1..], now);
    }
  }

  lemma RemoveTakes(list: seq<Alarm>, i: nat)
    requires i < |list|
    ensures multiset(list) == multiset(Remove(list, i)) + multiset{list[i]}
  {
    assert list == list[..i] + [list[i]] + list[i + 1..];
  }

  /** A list that is not full takes the new alarm and gives up nothing. */
  lemma CreateAdds(s: State, a: Alarm, now: nat)
    requires Creates(s.list, a, now) && |s.list| <= 5
    ensures multiset(Create(s, a, now).list) + (if |s.list| == 5 then multiset{s.list[4]} else multiset{})
         == multiset(s.list) + multiset{a}
  {
    if |s.list| == 5 {
      FullListEvictsLatest(s, a, now);
    } else {
      InsertAdds(s.list, Position(s.list, a), a);
    }
  }

  /** A successful edit replaces the alarm and leaves the others; a refused one leaves all of them, or
      all but the one edited. */
  lemma EditReplaces(s: State, i: nat, a: Alarm, now: nat)
    requires |s.list| <= 5 && i < |s.list|
    ensures var without, list := Remove(s.list, i), Edit(s, i, a, now).list;
            && (Creates(without, a, now) ==> multiset(list) + multiset{s.list[i]} == multiset(s.list) + multiset{a})
            && (!Creates(without, a, now) ==>
                  multiset(list) + (if Creates(without, s.list[i], now) then multiset{} else multiset{s.list[i]}) == multiset(s.list))
  {
    var d := Delete(s, i, now);
    assert d.list == Remove(s.list, i) && |d.list| < 5;
    RemoveTakes(s.list, i);
    hide Create, Creates, Remove, Delete;
    if Creates(d.list, a, now) {
      CreateAdds(d, a, now);
      Swapped(multiset(Create(d, a, now).list), multiset(d.list), multiset(s.list), a, s.list[i]);
    } else if Creates(d.list, s.list[i], now) {
      CreateAdds(d, s.list[i], now);
    }
  }

  lemma Swapped(list: multiset<Alarm>, without: multiset<Alarm>, before: multiset<Alarm>, a: Alarm, x: Alarm)
    requires before == without + multiset{x} && list + multiset{} == without + multiset{a}
    ensures list + multiset{x} == before + multiset{a}
  {
    assert list == without + multiset{a};
  }

  /** Firing takes the head, which is due, and leaves the rest. */
  lemma FireTakesHead(s: State, now: nat)
    requires s.list != []
    ensures multiset(s.list) == multiset(Fire(s, now).list) + multiset{s.list[0]}
  {
    assert s.list == [s.list[0]] + s.list[1..];
  }

  lemma FiredOne(log: seq<Firing>, f: Firing)
    ensures Fired(log + [f]) == Fired(log) + multiset{f.a}
  {
    assert (log + [f])[..|log|] == log;
  }

  // ----- Whole runs -----

  ghost predicate EntryRight(w: World, e: Event, fired: multiset<Alarm>)
  {
    var d := Entry(w, e);
    multiset(w.s.list) + d.accepted == multiset(Apply(w, e).s.list) + fired + d.removed + d.evicted + d.discarded + d.lost
  }

  lemma CreatedRight(w: World, a: Alarm)
    requires |w.s.list| <= 5
    ensures EntryRight(w, Created(a), multiset{})
  {
    if Creates(w.s.list, a, w.now) {
      CreateAdds(w.s, a, w.now);
    } else {
      assert Create(w.s, a, w.now) == w.s;
    }
    hide Create, Creates;
  }

  lemma EditedRight(w: World, i: int, a: Alarm)
    requires |w.s.list| <= 5
    ensures EntryRight(w, Edited(i, a), multiset{})
  {
    if 0 <= i < |w.s.list| {
      EditReplaces(w.s, i, a, w.now);
    } else {
      assert Edit(w.s, i, a, w.now) == w.s;
    }
    hide Edit, Creates, Remove;
  }

  lemma DeletedRight(w: World, i: int)
    ensures EntryRight(w, Deleted(i), multiset{})
  {
    if 0 <= i < |w.s.list| {
      RemoveTakes(w.s.list, i);
    }
    hide Remove;
  }

  /** What an event takes from and adds to the list is what it enters and what it fires. */
  lemma EntryBalances(w: World, e: Event) returns (fired: multiset<Alarm>)
    requires |w.s.list| <= 5 && Sorted(w.s.list)
    ensures EntryRight(w, e, fired) && Fired(Apply(w, e).log) == Fired(w.log) + fired
  {
    hide Fired, Create, Creates, Edit, Delete, Discard, Schedule;
    fired := multiset{};
    match e
    case Created(a) => CreatedRight(w, a);
    case Deleted(i) => DeletedRight(w, i);
    case Edited(i, a) => EditedRight(w, i, a);
    case Passed(_) =>
    case TimerFired =>
      FiredNone(w.log);
      if w.s.list != [] {
        fired := multiset{w.s.list[0]};
        FireTakesHead(w.s, w.now);
        FiredOne(w.log, Firing(w.s.list[0], w.now, w.period));
      }
    case Resynced(now) => DiscardTakesDue(w.s.list, now);
  }

  lemma FiredNone(log: seq<Firing>)
    ensures Fired(log + []) == Fired(log)
  {
    assert log + [] == log;
  }

  lemma Rebalanced(acc: multiset<Alarm>, l: multiset<Alarm>, f: multiset<Alarm>, g: Ledger,
                   l': multiset<Alarm>, f': multiset<Alarm>, d: Ledger)
    requires acc == l + f + g.removed + g.evicted + g.discarded + g.lost
    requires l + d.accepted == l' + f' + d.removed + d.evicted + d.discarded + d.lost
    ensures acc + d.accepted == l' + (f + f') + (g.removed + d.removed) + (g.evicted + d.evicted)
                                + (g.discarded + d.discarded) + (g.lost + d.lost)
  {
    forall x: Alarm
      ensures (acc + d.accepted)[x] == l'[x] + (f + f')[x] + (g.removed + d.removed)[x] + (g.evicted + d.evicted)[x]
                                       + (g.discarded + d.discarded)[x] + (g.lost + d.lost)[x]
    {
      assert (l + d.accepted)[x] == l[x] + d.accepted[x];
    }
  }

  lemma StepBalanced(g: Ledger, w: World, e: Event)
    requires Balanced(g, w) && |w.s.list| <= 5 && Sorted(w.s.list)
    ensures Balanced(Added(g, Entry(w, e)), Apply(w, e))
  {
    hide Entry, Apply;
    var fired := EntryBalances(w, e);
    hide Fired;
    Rebalanced(g.accepted, multiset(w.s.list), Fired(w.log), g, multiset(Apply(w, e).s.list), fired, Entry(w, e));
  }

  /** Over every run, no alarm disappears: what came in is listed, or fired, or was deleted, replaced,
      evicted as the latest of a full list, discarded as due at a resynchronisation, or lost in a refused
      edit, and each in one way only. */
  lemma {:induction false} Conserved(list: seq<Alarm>, start: nat, es: seq<Event>, distinct: bool)
    requires |list| <= CAPACITY && Sorted(list) && (distinct ==> Distinct(list))
    requires CanHappen(Init(list, start), es)
    ensures Balanced(Book(list, start, es), Run(Init(list, start), es))
  {
    if es == [] {
      DiscardTakesDue(list, start);
    } else {
      var n := |es| - 1;
      CanHappenBefore(Init(list, start), es, n);
      Conserved(list, start, es[..n], distinct);
      RunSafe(list, start, es[..n], distinct);
      hide Balanced, Apply, Entry, Added, CanHappen;
      StepBalanced(Book(list, start, es[..n]), Run(Init(list, start), es[..n]), es[n]);
    }
  }

  lemma CanHappenBefore(w: World, es: seq<Event>, n: nat)
    requires CanHappen(w, es) && n <= |es|
    ensures CanHappen(w, es[..n])
  {
    forall i | 0 <= i < n
      ensures es[..n][..i] == es[..i]
    {
    }
  }

  /** An alarm still listed is not overdue by more than the worst delay. */
  lemma ListedInTime(s: State, now: nat, distinct: bool, x: Alarm)
    requires Inv(s, now, distinct) && x in s.list
    ensures now <= x.epoch + WorstDelay(distinct)
  {
    var i :| 0 <= i < |s.list| && s.list[i] == x;
    assert s.timer.value + BUFFER * i <= s.list[i].epoch + WorstDelay(distinct);
  }

  lemma {:induction false} FiredIsLogged(log: seq<Firing>, x: Alarm) returns (i: nat)
    requires Fired(log)[x] > 0
    ensures i < |log| && log[i].a == x
  {
    if log[|log| - 1].a == x {
      i := |log| - 1;
    } else {
      i := FiredIsLogged(log[..|log| - 1], x);
    }
  }

  /** Every alarm that was accepted, and was not deleted, replaced, evicted, discarded or lost, has fired
      by the time its epoch is past by more than the worst delay: as often as it was accepted, and at a
      moment between its epoch and that delay behind it. */
  lemma FiresInTime(list: seq<Alarm>, start: nat, es: seq<Event>, distinct: bool, x: Alarm)
    requires |list| <= CAPACITY && Sorted(list) && (distinct ==> Distinct(list))
    requires CanHappen(Init(list, start), es)
    requires var g := Book(list, start, es); g.removed[x] + g.evicted[x] + g.discarded[x] + g.lost[x] == 0
    requires Run(Init(list, start), es).now > x.epoch + (if distinct then 19 else 20)
    ensures var w, g := Run(Init(list, start), es), Book(list, start, es);
            && Fired(w.log)[x] == g.accepted[x]
            && (g.accepted[x] > 0 ==>
                  exists i :: 0 <= i < |w.log| && w.log[i].a == x
                              && x.epoch <= w.log[i].at <= x.epoch + (if distinct then 19 else 20))
  {
    var w, g := Run(Init(list, start), es), Book(list, start, es);
    Conserved(list, start, es, distinct);
    RunSafe(list, start, es, distinct);
    RevalidateKeeps(State(list, None), start, distinct);
    RunGood(Init(list, start), es, distinct);
    hide Run, Book, Init, CanHappen, Fired;
    if x in w.s.list {
      ListedInTime(w.s, w.now, distinct, x);
    }
    assert multiset(w.s.list)[x] == 0;
    if g.accepted[x] > 0 {
      var i := FiredIsLogged(w.log, x);
    }
  }
}
