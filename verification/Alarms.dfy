/** components/state_manager/src/alarm_manager.c: the sorted alarm list and its one-shot timer as
    values, and what holds over every run. Times are readings of the epoch clock in seconds; the
    timer is represented by the reading at which it will go off. */
module Alarms {
  import opened Basics
  import Seqs

  const CAPACITY: nat := 5
  const BUFFER: nat := 5
  const HORIZON: nat := 31536000

  datatype Kind = Global | Watch

  datatype Alarm = Alarm(epoch: nat, kind: Kind, sync: bool)

  datatype State = State(list: seq<Alarm>, timer: Option<nat>)

  // ----- The operations -----

  /** schedule_next_alarm_internal: at the alarm's epoch, or in five seconds if that is too near. */
  function Schedule(list: seq<Alarm>, now: nat): Option<nat>
  {
    if list == [] then None
    else if list[0].epoch > now + BUFFER then Some(list[0].epoch)
    else Some(now + BUFFER)
  }

  function Discard(list: seq<Alarm>, now: nat): seq<Alarm>
  {
    if list == [] || list[0].epoch > now + BUFFER then list else Discard(list[1..], now)
  }

  function Revalidate(s: State, now: nat): State
  {
    var list := Discard(s.list, now);
    State(list, Schedule(list, now))
  }

  predicate Acceptable(a: Alarm, now: nat) { BUFFER < a.epoch - now <= HORIZON }

  predicate Duplicate(list: seq<Alarm>, a: Alarm) { exists k :: 0 <= k < |list| && list[k].epoch == a.epoch }

  /** Where the insertion loop, scanning from the end, puts `a`. */
  function Position(list: seq<Alarm>, a: Alarm): (p: nat)
    ensures p <= |list|
    ensures forall i :: p <= i < |list| ==> a.epoch < list[i].epoch
    ensures p > 0 ==> list[p - 1].epoch <= a.epoch
  {
    if list == [] || list[|list| - 1].epoch <= a.epoch then |list| else Position(list[..|list| - 1], a)
  }

  function Insert(list: seq<Alarm>, a: Alarm): seq<Alarm>
  {
    var p := Position(list, a);
    list[..p] + [a] + list[p..]
  }

  /** The entries an insertion keeps: a full list gives up its latest. */
  function Kept(list: seq<Alarm>): seq<Alarm> { if |list| >= CAPACITY then list[..CAPACITY - 1] else list }

  predicate Creates(list: seq<Alarm>, a: Alarm, now: nat)
  {
    && Acceptable(a, now) && !Duplicate(list, a)
    && (|list| >= CAPACITY ==> a.epoch < list[CAPACITY - 1].epoch)
  }

  function Create(s: State, a: Alarm, now: nat): State
  {
    if !Creates(s.list, a, now) then s
    else
      var list := Insert(Kept(s.list), a);
      State(list, if Position(Kept(s.list), a) == 0 then Schedule(list, now) else s.timer)
  }

  function Remove(list: seq<Alarm>, i: nat): seq<Alarm>
    requires i < |list|
  {
    list[..i] + list[i + 1..]
  }

  function Delete(s: State, index: int, now: nat): State
  {
    if !(0 <= index < |s.list|) then s
    else
      var list := Remove(s.list, index);
      State(list, if index == 0 then Schedule(list, now) else s.timer)
  }

  /** Delete, then create; on failure create the old one again. */
  function Edit(s: State, index: int, a: Alarm, now: nat): State
  {
    if !(0 <= index < |s.list|) then s
    else
      var without := Delete(s, index, now);
      if Creates(without.list, a, now) then Create(without, a, now) else Create(without, s.list[index], now)
  }

  /** The timer callback: the head fires and the next one is scheduled. */
  function Fire(s: State, now: nat): State
  {
    if s.list == [] then State([], None) else State(s.list[1..], Schedule(s.list[1..], now))
  }

  // ----- Well-formed lists -----

  predicate Sorted(list: seq<Alarm>) { forall i, j :: 0 <= i < j < |list| ==> list[i].epoch <= list[j].epoch }

  predicate Distinct(list: seq<Alarm>) { forall i, j :: 0 <= i < j < |list| ==> list[i].epoch != list[j].epoch }

  /** The worst delay: five seconds for each alarm that can stand before another, less one if no two
      share an epoch. */
  function WorstDelay(distinct: bool): nat { if distinct then 19 else 20 }

  /** What holds at every moment `now` between operations. The last clause is the heart: if all goes
      on firing five seconds apart, the alarm at place `i` is at most the worst delay late. */
  ghost predicate Inv(s: State, now: nat, distinct: bool)
  {
    && |s.list| <= CAPACITY && Sorted(s.list) && (distinct ==> Distinct(s.list))
    && (s.timer == None <==> s.list == [])
    && (s.list != [] ==>
          var due := s.timer.value;
          && now <= due && s.list[0].epoch <= due
          && (due == s.list[0].epoch || due <= now + BUFFER)
          && (forall i :: 0 <= i < |s.list| ==> due + BUFFER * i <= s.list[i].epoch + WorstDelay(distinct)))
  }

  /** Distinct epochs in order grow by at least one per place. */
  lemma {:induction false} Spread(list: seq<Alarm>, i: nat, j: nat)
    requires Sorted(list) && i <= j < |list|
    ensures list[i].epoch <= list[j].epoch
    ensures Distinct(list) ==> list[i].epoch + (j - i) <= list[j].epoch
    decreases j - i
  {
    if i < j {
      Spread(list, i, j - 1);
      assert Distinct(list) ==> list[j - 1].epoch != list[j].epoch;
    }
  }

  /** A list whose timer stands at its head's epoch satisfies the delay bound. */
  lemma OnTime(list: seq<Alarm>, distinct: bool)
    requires Sorted(list) && |list| <= CAPACITY && (distinct ==> Distinct(list))
    ensures forall i :: 0 <= i < |list| ==> list[0].epoch + BUFFER * i <= list[i].epoch + WorstDelay(distinct)
  {
    forall i | 0 <= i < |list|
      ensures list[0].epoch + BUFFER * i <= list[i].epoch + WorstDelay(distinct)
    {
      Spread(list, 0, i);
    }
  }

  lemma RemoveKeeps(list: seq<Alarm>, i: nat)
    requires Sorted(list) && i < |list|
    ensures var r := Remove(list, i);
            Sorted(r) && (Distinct(list) ==> Distinct(r)) && forall k :: 0 <= k < |r| ==> r[k] == list[if k < i then k else k + 1]
  {
  }

  lemma InsertShape(list: seq<Alarm>, a: Alarm)
    ensures |Insert(list, a)| == |list| + 1
    ensures forall k :: 0 <= k <= |list| ==>
              Insert(list, a)[k] == if k < Position(list, a) then list[k] else if k == Position(list, a) then a else list[k - 1]
  {
  }

  lemma InsertKeeps(list: seq<Alarm>, a: Alarm)
    requires Sorted(list) && !Duplicate(list, a)
    ensures Sorted(Insert(list, a)) && (Distinct(list) ==> Distinct(Insert(list, a)))
  {
    var p := Position(list, a);
    InsertShape(list, a);
    assert p > 0 ==> list[p - 1].epoch != a.epoch;
    SortedWithNew(list, Insert(list, a), p, a);
  }

  lemma SortedWithNew(list: seq<Alarm>, r: seq<Alarm>, p: nat, a: Alarm)
    requires Sorted(list) && p <= |list| && |r| == |list| + 1
    requires r[p] == a
    requires (forall k :: 0 <= k < p ==> r[k] == list[k]) && (forall k :: p < k < |r| ==> r[k] == list[k - 1])
    requires (p > 0 ==> list[p - 1].epoch < a.epoch) && (p < |list| ==> a.epoch < list[p].epoch)
    ensures Sorted(r) && (Distinct(list) ==> Distinct(r))
  {
    forall i, j | 0 <= i < j < |r|
      ensures r[i].epoch <= r[j].epoch && (Distinct(list) ==> r[i].epoch != r[j].epoch)
    {
      if j == p {
        assert list[i].epoch <= list[p - 1].epoch;
      } else if i == p {
        assert list[p].epoch <= list[j - 1].epoch;
      } else {
        var x, y := if i < p then i else i - 1, if j < p then j else j - 1;
        assert r[i] == list[x] && r[j] == list[y] && x < y;
      }
    }
  }

  /** Discarding cuts off the front that is due. */
  lemma {:induction false} DiscardCuts(list: seq<Alarm>, now: nat) returns (k: nat)
    ensures k <= |list| && Discard(list, now) == list[k..] && (k < |list| ==> list[k].epoch > now + BUFFER)
    ensures forall i :: 0 <= i < k ==> list[i].epoch <= now + BUFFER
  {
    k := 0;
    if list != [] && list[0].epoch <= now + BUFFER {
      var j := DiscardCuts(list[1..], now);
      k := j + 1;
      assert list[1..][j..] == list[k..];
      assert forall i :: 1 <= i < k ==> list[i] == list[1..][i - 1];
    }
  }

  lemma DiscardKeeps(list: seq<Alarm>, now: nat)
    requires Sorted(list)
    ensures var r := Discard(list, now);
            && Sorted(r) && (Distinct(list) ==> Distinct(r)) && |r| <= |list|
            && (forall i :: 0 <= i < |r| ==> r[i].epoch > now + BUFFER)
            && r == list[|list| - |r|..]
            && (forall i :: 0 <= i < |list| - |r| ==> list[i].epoch <= now + BUFFER)
  {
    hide Discard;
    var k := DiscardCuts(list, now);
  }

  // ----- Every operation keeps the invariant -----

  /** Removing the head, by firing or deletion, no later than its timer. */
  lemma HeadRemoved(s: State, now: nat, distinct: bool)
    requires Inv(s, now, distinct) && s.list != []
    ensures var list := s.list[1..]; Inv(State(list, Schedule(list, now)), now, distinct)
  {
    var list := s.list[1..];
    OnTime(list, distinct);
    if list != [] {
      var due, due' := s.timer.value, Schedule(list, now).value;
      forall i | 0 <= i < |list|
        ensures due' + BUFFER * i <= list[i].epoch + WorstDelay(distinct)
      {
        assert due + BUFFER * (i + 1) <= s.list[i + 1].epoch + WorstDelay(distinct);
      }
    }
  }

  lemma FireKeeps(s: State, now: nat, distinct: bool)
    requires Inv(s, now, distinct)
    ensures Inv(Fire(s, now), now, distinct)
  {
    if s.list != [] {
      HeadRemoved(s, now, distinct);
    }
  }

  lemma DeleteKeeps(s: State, index: int, now: nat, distinct: bool)
    requires Inv(s, now, distinct)
    ensures Inv(Delete(s, index, now), now, distinct)
  {
    if 0 <= index < |s.list| {
      RemoveKeeps(s.list, index);
      if index == 0 {
        assert Remove(s.list, 0) == s.list[1..];
        HeadRemoved(s, now, distinct);
      }
    }
  }

  lemma RevalidateKeeps(s: State, now: nat, distinct: bool)
    requires |s.list| <= CAPACITY && Sorted(s.list) && (distinct ==> Distinct(s.list))
    ensures Inv(Revalidate(s, now), now, distinct)
  {
    DiscardKeeps(s.list, now);
    OnTime(Discard(s.list, now), distinct);
  }

  /** An alarm put behind the head, whose timer may be running late. */
  lemma InsertedBehind(s: State, a: Alarm, now: nat, distinct: bool)
    requires Inv(s, now, distinct) && Creates(s.list, a, now) && Position(Kept(s.list), a) > 0
    ensures var list := Insert(Kept(s.list), a);
            Sorted(list) && (distinct ==> Distinct(list)) ==>
              forall i :: 0 <= i < |list| ==> s.timer.value + BUFFER * i <= list[i].epoch + WorstDelay(distinct)
  {
    var kept, due := Kept(s.list), s.timer.value;
    var list, p := Insert(kept, a), Position(kept, a);
    InsertShape(kept, a);
    hide Insert;
    if Sorted(list) && (distinct ==> Distinct(list)) {
      OnTime(list, distinct);
      forall i | 0 <= i < |list|
        ensures due + BUFFER * i <= list[i].epoch + WorstDelay(distinct)
      {
        assert list[0] == s.list[0];
        if i < p {
          assert list[i] == s.list[i];
        } else {
          Spread(list, p, i);
        }
      }
    }
  }

  lemma CreateKeeps(s: State, a: Alarm, now: nat, distinct: bool)
    requires Inv(s, now, distinct)
    ensures Inv(Create(s, a, now), now, distinct)
  {
    if Creates(s.list, a, now) {
      if Position(Kept(s.list), a) == 0 {
        CreatedInFront(s, a, now, distinct);
      } else {
        CreatedBehind(s, a, now, distinct);
      }
    }
  }

  /** The list after an insertion, whatever its timer. */
  lemma CreatedList(s: State, a: Alarm, now: nat, distinct: bool)
    requires Inv(s, now, distinct) && Creates(s.list, a, now)
    ensures var list := Insert(Kept(s.list), a); 1 <= |list| <= CAPACITY && Sorted(list) && (distinct ==> Distinct(list))
  {
    InsertShape(Kept(s.list), a);
    InsertKeeps(Kept(s.list), a);
  }

  lemma CreatedInFront(s: State, a: Alarm, now: nat, distinct: bool)
    requires Inv(s, now, distinct) && Creates(s.list, a, now) && Position(Kept(s.list), a) == 0
    ensures var list := Insert(Kept(s.list), a); Inv(State(list, Schedule(list, now)), now, distinct)
  {
    var list := Insert(Kept(s.list), a);
    CreatedList(s, a, now, distinct);
    InsertShape(Kept(s.list), a);
    hide Insert, Position, Kept, Sorted, Distinct;
    assert list[0] == a;
    OnTime(list, distinct);
  }

  lemma CreatedBehind(s: State, a: Alarm, now: nat, distinct: bool)
    requires Inv(s, now, distinct) && Creates(s.list, a, now) && Position(Kept(s.list), a) > 0
    ensures Inv(State(Insert(Kept(s.list), a), s.timer), now, distinct)
  {
    CreatedList(s, a, now, distinct);
    InsertShape(Kept(s.list), a);
    InsertedBehind(s, a, now, distinct);
    assert Kept(s.list)[0] == s.list[0];
    hide Insert, Position, Kept, Sorted, Distinct, Creates;
  }

  lemma EditKeeps(s: State, index: int, a: Alarm, now: nat, distinct: bool)
    requires Inv(s, now, distinct)
    ensures Inv(Edit(s, index, a, now), now, distinct)
  {
    if 0 <= index < |s.list| {
      var without := Delete(s, index, now);
      DeleteKeeps(s, index, now, distinct);
      CreateKeeps(without, a, now, distinct);
      CreateKeeps(without, s.list[index], now, distinct);
    }
  }

  // ----- Whole runs -----

  datatype Event =
    | Created(a: Alarm)
    | Deleted(index: int)
    | Edited(index: int, a: Alarm)
    | Passed(seconds: nat)
    | TimerFired
    | Resynced(now: nat)

  /** A firing: which alarm, at which reading, in which period between clock changes. */
  datatype Firing = Firing(a: Alarm, at: nat, period: nat)

  datatype World = World(s: State, now: nat, period: nat, log: seq<Firing>)

  /** The timer goes off exactly at its reading: time does not pass it, and it does not go off early. */
  predicate Possible(w: World, e: Event)
  {
    match e
    case Passed(seconds) => w.s.timer.Some? ==> w.now + seconds <= w.s.timer.value
    case TimerFired => w.s.timer == Some(w.now)
    case _ => true
  }

  function Apply(w: World, e: Event): World
  {
    match e
    case Created(a) => w.(s := Create(w.s, a, w.now))
    case Deleted(index) => w.(s := Delete(w.s, index, w.now))
    case Edited(index, a) => w.(s := Edit(w.s, index, a, w.now))
    case Passed(seconds) => w.(now := w.now + seconds)
    case TimerFired =>
      World(Fire(w.s, w.now), w.now, w.period,
            w.log + if w.s.list == [] then [] else [Firing(w.s.list[0], w.now, w.period)])
    case Resynced(now) => World(Revalidate(w.s, now), now, w.period + 1, w.log)
  }

  /** alarm_manager_init on the alarms kept over a reset, which qsort has put in order. */
  function Init(list: seq<Alarm>, now: nat): World { World(Revalidate(State(list, None), now), now, 0, []) }

  function Run(w: World, es: seq<Event>): World
  {
    if es == [] then w else Apply(Run(w, es[..|es| - 1]), es[|es| - 1])
  }

  ghost predicate CanHappen(w: World, es: seq<Event>)
  {
    forall i :: 0 <= i < |es| ==> Possible(Run(w, es[..i]), es[i])
  }

  /** The log is right so far, and what is still listed belongs after it. */
  ghost predicate LogInv(w: World, distinct: bool)
  {
    && (forall i :: 0 <= i < |w.log| ==>
          w.log[i].period <= w.period && w.log[i].a.epoch <= w.log[i].at <= w.log[i].a.epoch + WorstDelay(distinct))
    && (forall i, j :: 0 <= i < j < |w.log| && w.log[i].period == w.log[j].period ==>
          w.log[i].a.epoch <= w.log[j].a.epoch)
    && (forall i :: 0 <= i < |w.log| && w.log[i].period == w.period ==>
          w.log[i].at <= w.now && forall k :: 0 <= k < |w.s.list| ==> w.log[i].a.epoch <= w.s.list[k].epoch)
  }

  ghost predicate Good(w: World, distinct: bool) { Inv(w.s, w.now, distinct) && LogInv(w, distinct) }

  /** Everything an operation leaves in the list was there before or lies in the future. */
  lemma ListFromFuture(w: World, e: Event, distinct: bool)
    requires Inv(w.s, w.now, distinct) && Possible(w, e) && !e.Resynced? && !e.TimerFired?
    ensures forall k :: 0 <= k < |Apply(w, e).s.list| ==>
              Apply(w, e).s.list[k] in w.s.list || Apply(w, e).s.list[k].epoch > w.now
  {
    match e
    case Created(a) => CreatedFrom(w.s, a, w.now);
    case Deleted(index) =>
    case Edited(index, a) =>
      if 0 <= index < |w.s.list| {
        var without := Delete(w.s, index, w.now);
        CreatedFrom(without, a, w.now);
        CreatedFrom(without, w.s.list[index], w.now);
      }
    case Passed(seconds) =>
  }

  lemma CreatedFrom(s: State, a: Alarm, now: nat)
    ensures forall x :: x in Create(s, a, now).list ==> x in s.list || (x == a && x.epoch > now)
  {
    if Creates(s.list, a, now) {
      var kept := Kept(s.list);
      assert forall x :: x in kept ==> x in s.list;
      assert forall x :: x in Insert(kept, a) ==> x == a || x in kept;
    }
  }

  lemma StepGood(w: World, e: Event, distinct: bool)
    requires Good(w, distinct) && Possible(w, e)
    ensures Good(Apply(w, e), distinct)
  {
    StepInv(w, e, distinct);
    hide Inv, Create, Edit, Delete, Fire, Revalidate;
    StepLog(w, e, distinct);
  }

  lemma StepInv(w: World, e: Event, distinct: bool)
    requires Inv(w.s, w.now, distinct) && Possible(w, e)
    ensures Inv(Apply(w, e).s, Apply(w, e).now, distinct)
  {
    match e
    case Created(a) => CreateKeeps(w.s, a, w.now, distinct);
    case Deleted(index) => DeleteKeeps(w.s, index, w.now, distinct);
    case Edited(index, a) => EditKeeps(w.s, index, a, w.now, distinct);
    case Passed(seconds) =>
    case TimerFired => FireKeeps(w.s, w.now, distinct);
    case Resynced(now) => RevalidateKeeps(w.s, now, distinct);
  }

  lemma FireLog(w: World, distinct: bool)
    requires Good(w, distinct) && w.s.timer == Some(w.now) && w.s.list != []
    ensures LogInv(Apply(w, TimerFired), distinct)
  {
    var x, w' := w.s.list[0], Apply(w, TimerFired);
    assert w.s.timer.value + BUFFER * 0 <= x.epoch + WorstDelay(distinct);
    forall i | 0 <= i < |w'.log|
      ensures w'.log[i] == if i < |w.log| then w.log[i] else Firing(x, w.now, w.period)
    {
    }
    assert forall k :: 0 <= k < |w'.s.list| ==> w'.s.list[k] == w.s.list[k + 1];
  }

  lemma QuietLog(w: World, w': World, distinct: bool)
    requires LogInv(w, distinct) && w'.log == w.log && w'.period == w.period && w.now <= w'.now
    requires forall i :: 0 <= i < |w.log| ==> w.log[i].a.epoch <= w.log[i].at
    requires forall k :: 0 <= k < |w'.s.list| ==> w'.s.list[k] in w.s.list || w'.s.list[k].epoch > w.now
    ensures LogInv(w', distinct)
  {
    forall i, k | 0 <= i < |w.log| && w.log[i].period == w.period && 0 <= k < |w'.s.list|
      ensures w.log[i].a.epoch <= w'.s.list[k].epoch
    {
      if w'.s.list[k] in w.s.list {
        var m :| 0 <= m < |w.s.list| && w.s.list[m] == w'.s.list[k];
      }
    }
  }

  lemma StepLog(w: World, e: Event, distinct: bool)
    requires Good(w, distinct) && Possible(w, e)
    ensures LogInv(Apply(w, e), distinct)
  {
    match e
    case TimerFired => FireLog(w, distinct);
    case Resynced(now) =>
    case _ =>
      ListFromFuture(w, e, distinct);
      hide Create, Edit, Delete, Inv;
      QuietLog(w, Apply(w, e), distinct);
  }

  lemma {:induction false} RunGood(w: World, es: seq<Event>, distinct: bool)
    requires Good(w, distinct) && CanHappen(w, es)
    ensures Good(Run(w, es), distinct)
  {
    if es != [] {
      var n := |es| - 1;
      forall i | 0 <= i < n
        ensures es[..n][..i] == es[..i]
      {
      }
      assert CanHappen(w, es[..n]);
      RunGood(w, es[..n], distinct);
      assert Possible(Run(w, es[..n]), es[n]);
      StepGood(Run(w, es[..n]), es[n], distinct);
    }
  }

  /** Over every run from start-up, however creations, deletions, edits, firings and clock changes
      interleave: the list stays sorted, at most five long and, if it started so, free of equal
      epochs; the timer is armed exactly while there is something to fire; and no alarm fires early,
      more than the worst delay late, or out of order within a period between clock changes. */
  lemma RunSafe(list: seq<Alarm>, start: nat, es: seq<Event>, distinct: bool)
    requires |list| <= CAPACITY && Sorted(list) && (distinct ==> Distinct(list))
    requires CanHappen(Init(list, start), es)
    ensures var w := Run(Init(list, start), es);
            && |w.s.list| <= CAPACITY && Sorted(w.s.list) && (distinct ==> Distinct(w.s.list))
            && (w.s.timer.Some? <==> w.s.list != [])
            && (forall i :: 0 <= i < |w.log| ==>
                  w.log[i].a.epoch <= w.log[i].at <= w.log[i].a.epoch + (if distinct then 19 else 20))
            && (forall i, j :: 0 <= i < j < |w.log| && w.log[i].period == w.log[j].period ==>
                  w.log[i].a.epoch <= w.log[j].a.epoch)
  {
    RevalidateKeeps(State(list, None), start, distinct);
    RunGood(Init(list, start), es, distinct);
  }

  // ----- The delay bound is reached -----

  lemma {:induction false} RunConcat(w: World, a: seq<Event>, b: seq<Event>)
    ensures Run(w, a + b) == Run(Run(w, a), b)
  {
    if b == [] {
      assert a + b == a;
    } else {
      var n := |b| - 1;
      assert (a + b)[..|a + b| - 1] == a + b[..n];
      RunConcat(w, a, b[..n]);
    }
  }

  lemma CanHappenConcat(w: World, a: seq<Event>, b: seq<Event>)
    requires CanHappen(w, a) && CanHappen(Run(w, a), b)
    ensures CanHappen(w, a + b)
  {
    forall i | 0 <= i < |a + b|
      ensures Possible(Run(w, (a + b)[..i]), (a + b)[i])
    {
      if i < |a| {
        assert (a + b)[..i] == a[..i];
      } else {
        assert (a + b)[..i] == a + b[..i - |a|];
        RunConcat(w, a, b[..i - |a|]);
        assert Possible(Run(Run(w, a), b[..i - |a|]), b[i - |a|]);
      }
    }
  }

  lemma RunTwo(w: World, x: Event, y: Event)
    requires Possible(w, x) && Possible(Apply(w, x), y)
    ensures CanHappen(w, [x, y]) && Run(w, [x, y]) == Apply(Apply(w, x), y)
  {
    var es := [x, y];
    assert es[..1] == [x] && es[..0] == [] && es[..1][..0] == [];
    assert Run(w, es[..0]) == w && Run(w, es[..1]) == Apply(w, x);
  }

  /** Five seconds pass and the timer fires, over and over. */
  function Rounds(n: nat): seq<Event> { if n == 0 then [] else [Passed(BUFFER), TimerFired] + Rounds(n - 1) }

  /** Once the head is late, all that is due within ten seconds fires five seconds apart. */
  lemma {:induction false} LateTrain(w: World)
    requires w.s.list != [] && w.s.timer == Some(w.now + BUFFER)
    requires forall i :: 0 <= i < |w.s.list| ==> w.s.list[i].epoch <= w.now + 2 * BUFFER
    ensures var n := |w.s.list|;
            && CanHappen(w, Rounds(n))
            && var log := Run(w, Rounds(n)).log;
               log != [] && log[|log| - 1] == Firing(w.s.list[n - 1], w.now + BUFFER * n, w.period)
    decreases |w.s.list|
  {
    hide Possible, Apply, CanHappen, Run, Rounds;
    var n, two := |w.s.list|, [Passed(BUFFER), TimerFired];
    LateRound(w);
    RoundsUnfold(n);
    var w2 := Run(w, two);
    if n == 1 {
      Seqs.Empty(two);
    } else {
      assert w2.s.list == w.s.list[1..] && w2.s.list[n - 2] == w.s.list[n - 1];
      LateTrain(w2);
      RunConcat(w, two, Rounds(n - 1));
      CanHappenConcat(w, two, Rounds(n - 1));
    }
  }

  lemma RoundsUnfold(n: nat)
    requires n > 0
    ensures Rounds(n) == [Passed(BUFFER), TimerFired] + Rounds(n - 1) && (n == 1 ==> Rounds(n - 1) == [])
  {
  }

  lemma LateRound(w: World)
    requires w.s.list != [] && w.s.timer == Some(w.now + BUFFER)
    requires forall i :: 0 <= i < |w.s.list| ==> w.s.list[i].epoch <= w.now + 2 * BUFFER
    ensures var two, list := [Passed(BUFFER), TimerFired], w.s.list;
            && CanHappen(w, two)
            && Run(w, two) == World(State(list[1..], if |list| == 1 then None else Some(w.now + 2 * BUFFER)),
                                    w.now + BUFFER, w.period, w.log + [Firing(list[0], w.now + BUFFER, w.period)])
  {
    hide Run, CanHappen, Create, Delete, Edit, Revalidate;
    var w1 := w.(now := w.now + BUFFER);
    assert Apply(w, Passed(BUFFER)) == w1;
    RunTwo(w, Passed(BUFFER), TimerFired);
    assert |w.s.list| > 1 ==> w.s.list[1..][0] == w.s.list[1];
  }

  function At(epoch: nat): Alarm { Alarm(epoch, Watch, false) }

  function Late(): World
  {
    World(State([At(107), At(108), At(109), At(110), At(111)], Some(110)), 105, 0, [])
  }

  function Opening(): seq<Event> { [Passed(5), Deleted(0)] + [Created(At(111))] }

  function Five(): seq<Alarm> { [At(106), At(107), At(108), At(109), At(110)] }

  function Four(): seq<Alarm> { [At(107), At(108), At(109), At(110)] }

  lemma OpeningInit()
    ensures Init(Five(), 100) == World(State(Five(), Some(106)), 100, 0, [])
  {
    assert Discard(Five(), 100) == Five();
  }

  lemma OpeningDelete()
    ensures Apply(World(State(Five(), Some(106)), 105, 0, []), Deleted(0)) == World(State(Four(), Some(110)), 105, 0, [])
  {
    assert Remove(Five(), 0) == Four();
  }

  lemma OpeningCreate()
    ensures Apply(World(State(Four(), Some(110)), 105, 0, []), Created(At(111))) == Late()
  {
    LastInserted(Four(), At(111));
    assert Kept(Four()) == Four();
    hide Insert, Position;
  }

  lemma FiveInOrder()
    ensures Sorted(Five()) && Distinct(Five()) && |Five()| <= CAPACITY
  {
  }

  lemma OpeningReached()
    ensures CanHappen(Init(Five(), 100), Opening()) && Run(Init(Five(), 100), Opening()) == Late()
  {
    OpeningInit();
    OpeningDelete();
    OpeningCreate();
    hide Init, Five, Four, Late, Delete, Create;
    var w0, w1 := World(State(Five(), Some(106)), 100, 0, []), World(State(Five(), Some(106)), 105, 0, []);
    var w2 := World(State(Four(), Some(110)), 105, 0, []);
    RunTwo(w0, Passed(5), Deleted(0));
    var add := [Created(At(111))];
    assert add[..0] == [] && Run(w2, add[..0]) == w2;
    assert CanHappen(w2, add) && Run(w2, add) == Late();
    CanHappenConcat(w0, [Passed(5), Deleted(0)], add);
    RunConcat(w0, [Passed(5), Deleted(0)], add);
  }

  lemma LastInserted(list: seq<Alarm>, a: Alarm)
    requires list != [] && list[|list| - 1].epoch < a.epoch
    ensures Position(list, a) == |list| && Insert(list, a) == list + [a]
  {
  }

  /** Nineteen seconds of delay do occur: five alarms a second apart, the first deleted a second
      before its time and another added behind the rest. */
  lemma WorstDelayReached()
    ensures Sorted(Five()) && Distinct(Five()) && |Five()| <= CAPACITY
    ensures var es := Opening() + Rounds(5);
            var log := Run(Init(Five(), 100), es).log;
            && CanHappen(Init(Five(), 100), es)
            && log != [] && log[|log| - 1].at == log[|log| - 1].a.epoch + 19
  {
    FiveInOrder();
    OpeningReached();
    var late := Late();
    assert |late.s.list| == 5 && late.s.list[4].epoch == 111 && late.now == 105;
    LateTrain(late);
    hide Run, CanHappen, Rounds, Init, Opening, Five, Late, Sorted, Distinct;
    CanHappenConcat(Init(Five(), 100), Opening(), Rounds(5));
    RunConcat(Init(Five(), 100), Opening(), Rounds(5));
  }

  // ----- Eviction and rollback -----

  /** Creating in a full list costs exactly the latest alarm. */
  lemma FullListEvictsLatest(s: State, a: Alarm, now: nat)
    requires |s.list| == CAPACITY && Creates(s.list, a, now)
    ensures multiset(Create(s, a, now).list) + multiset{s.list[CAPACITY - 1]} == multiset(s.list) + multiset{a}
  {
    var kept := Kept(s.list);
    InsertAdds(kept, Position(kept, a), a);
    InsertAdds(kept, CAPACITY - 1, s.list[CAPACITY - 1]);
    assert s.list == kept[..CAPACITY - 1] + [s.list[CAPACITY - 1]] + kept[CAPACITY - 1..];
  }

  lemma InsertAdds(list: seq<Alarm>, p: nat, a: Alarm)
    requires p <= |list|
    ensures multiset(list[..p] + [a] + list[p..]) == multiset(list) + multiset{a}
  {
    assert list == list[..p] + list[p..];
  }

  lemma PositionUnique(list: seq<Alarm>, a: Alarm, i: nat)
    requires i <= |list|
    requires forall k :: 0 <= k < i ==> list[k].epoch < a.epoch
    requires forall k :: i <= k < |list| ==> a.epoch < list[k].epoch
    ensures !Duplicate(list, a) && Position(list, a) == i
  {
    var p := Position(list, a);
    assert p < |list| ==> list[p].epoch > a.epoch;
    assert p > 0 ==> list[p - 1].epoch <= a.epoch;
  }

  lemma ReinsertRestores(list: seq<Alarm>, i: nat)
    requires Sorted(list) && Distinct(list) && i < |list|
    ensures var r := Remove(list, i);
            !Duplicate(r, list[i]) && Position(r, list[i]) == i && Insert(r, list[i]) == list
  {
    var r := Remove(list, i);
    assert r[..i] == list[..i] && r[i..] == list[i + 1..];
    assert list == list[..i] + [list[i]] + list[i + 1..];
    RemoveKeeps(list, i);
    hide Remove;
    forall k | 0 <= k < |r|
      ensures if k < i then r[k].epoch < list[i].epoch else list[i].epoch < r[k].epoch
    {
      var other := if k < i then k else k + 1;
      assert r[k] == list[other] && list[other].epoch != list[i].epoch;
    }
    PositionUnique(r, list[i], i);
  }

  /** An edit whose new alarm is refused puts list and timer back as they were if and only if the old
      alarm could still be created at this moment. */
  lemma EditRollsBackIff(s: State, index: int, a: Alarm, now: nat)
    requires Inv(s, now, true) && 0 <= index < |s.list|
    requires !Creates(Remove(s.list, index), a, now)
    ensures Edit(s, index, a, now) == s <==> BUFFER < s.list[index].epoch - now <= HORIZON
  {
    var replaced := s.list[index];
    ReinsertRestores(s.list, index);
    if Acceptable(replaced, now) {
      Spread(s.list, 0, index);
    } else {
      assert |Edit(s, index, a, now).list| == |s.list| - 1;
    }
  }

  /** A refused edit can lose the alarm: three seconds before its time, the only alarm is edited to one
      that is too near. */
  lemma EditLosesExample()
    ensures var w := Init([At(106)], 100);
            var es := [Passed(3), Edited(0, At(104))];
            && CanHappen(w, es) && Run(w, es[..1]).s.list == [At(106)] && Run(w, es).s == State([], None)
  {
    var w, es := Init([At(106)], 100), [Passed(3), Edited(0, At(104))];
    EditLoses();
    RunTwo(w, es[0], es[1]);
    assert es[..1] == [Passed(3)] && es[..1][..0] == [];
  }

  lemma EditLoses()
    ensures Init([At(106)], 100) == World(State([At(106)], Some(106)), 100, 0, [])
    ensures Edit(State([At(106)], Some(106)), 0, At(104), 103) == State([], None)
  {
    assert Discard([At(106)], 100) == [At(106)];
    assert Remove([At(106)], 0) == [];
  }
}
