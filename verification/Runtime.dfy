/** The work-window scheduler of components/runtime_manager (runtime_manager.c,
    runtime_worker_pool.c, runtime_watchdog.c) together with the work tick that opens windows
    (tick_manager.c), as a timed transition system. Times are in microseconds. Each API call, timer
    callback and worker phase is one step; a timer goes off exactly at its deadline. */
module Runtime {
  import opened Basics
  import opened Seqs
  import opened Lanes

  const UI_WINDOW: nat := 700000
  const BACKGROUND_WINDOW: nat := 160000
  const GRACE_PERIOD: nat := 200000
  const DEBOUNCE: nat := 10000
  const TICK: nat := 1025000
  const MAX_HOOKS: nat := 4
  const POOL: nat := 6
  const USER_WORKERS: nat := 2

  datatype Mode = Sleep | UiActive | BackgroundActive | Grace

  /** `limit` is the length of the window last opened. */
  datatype Sched = Sched(
    mode: Mode, uiNext: bool, now: nat,
    windowStart: nat, limit: nat, graceStart: nat,
    window: Option<nat>, grace: Option<nat>, settle: Option<nat>,
    user: Lane, system: Lane, hooks: seq<int>,
    workers: seq<Option<nat>>, active: int,
    lastTick: Option<nat>, nextTick: Option<nat>)

  function AllIdle(n: nat): (ws: seq<Option<nat>>)
    ensures |ws| == n && forall i :: 0 <= i < n ==> ws[i] == None
  {
    seq(n, _ => None)
  }

  function Start(now: nat): Sched
  {
    Sched(Sleep, true, now, 0, 0, 0, None, None, None, EMPTY, EMPTY, [], AllIdle(POOL), 0, None, None)
  }

  predicate Awake(s: Sched) { s.mode != Sleep }

  predicate Windowed(s: Sched) { s.mode == UiActive || s.mode == BackgroundActive }

  /** esp_timer_start_once refuses a timer that is already running. */
  function StartOnce(t: Option<nat>, due: nat): Option<nat> { if t.Some? then t else Some(due) }

  /** worker_pool_has_work. */
  predicate HasWork(s: Sched) { s.active > 0 || s.system.queue != [] || s.user.queue != [] }

  // ----- The state machine -----

  /** The moment the current phase ends. */
  function PhaseEnd(s: Sched): nat
  {
    if s.mode == Grace then s.graceStart + GRACE_PERIOD else s.windowStart + s.limit
  }

  /** runtime_manager_evaluate_early_curfew. */
  function Evaluate(s: Sched): Sched
  {
    if s.mode == Sleep || HasWork(s) || s.settle.Some? then s
    else
      var remaining := PhaseEnd(s) - s.now;
      if remaining > 0 then s.(settle := Some(s.now + Min(remaining, DEBOUNCE))) else s
  }

  /** set_runtime_state(SLEEP): timers off, held-back work released, workers killed and suspended. */
  function ToSleep(s: Sched): Sched
  {
    if s.mode == Sleep then s
    else s.(window := None, grace := None, settle := None, mode := Sleep,
            user := Drain(s.user), system := Drain(s.system),
            workers := AllIdle(|s.workers|), active := s.active - Busy(s.workers))
  }

  /** How many workers hold an item. */
  function Busy(ws: seq<Option<nat>>): nat
  {
    if ws == [] then 0 else (if ws[0].Some? then 1 else 0) + Busy(ws[1..])
  }

  /** runtime_manager_begin_curfew_unsafe. */
  function BeginCurfew(s: Sched): Sched
  {
    var t := s.(window := None, settle := None);
    if s.hooks == [] && !HasWork(s) then ToSleep(t)
    else t.(mode := Grace, grace := StartOnce(s.grace, s.now + GRACE_PERIOD), graceStart := s.now,
            system := AcceptMany(s.system, |s.hooks|))
  }

  function Limit(ui: bool): nat { if ui then UI_WINDOW else BACKGROUND_WINDOW }

  /** set_runtime_state to an active state, as the work tick asks. */
  function Activate(s: Sched): Sched
  {
    if s.mode != Sleep then s else Evaluate(Armed(s))
  }

  /** The window opens and its timer starts. */
  function Armed(s: Sched): Sched
  {
    var limit := Limit(s.uiNext);
    s.(mode := if s.uiNext then UiActive else BackgroundActive, windowStart := s.now, limit := limit,
       window := StartOnce(s.window, s.now + limit))
  }

  // ----- Events -----

  datatype Event =
    | Pass(until: nat)
    | WorkTick
    | WindowExpires
    | GraceExpires
    | SettlementExpires
    | ScheduleUser
    | ScheduleSystem
    | WorkerTakes(i: nat)
    | WorkerFinishes(i: nat)
    | WatchdogKills(i: nat)
    | RegisterHook(h: int)
    | UnregisterHook(h: int)
    | SetActiveState(ui: bool)
    | StartTicks
    | StopTicks
    | ShiftTick(delta: nat)

  function LaneOf(s: Sched, i: nat): Lane { if i < USER_WORKERS then s.user else s.system }

  /** When a step can happen. Time stops at every deadline until it has been served; suspended workers
      neither take nor finish work; only user workers have a watchdog. A shift of the tick lies within
      one interval, as sync_bt_with_work_window sees to. */
  predicate Possible(s: Sched, e: Event)
  {
    match e
    case Pass(until) =>
      && s.now <= until
      && (s.window.Some? ==> until <= s.window.value) && (s.grace.Some? ==> until <= s.grace.value)
      && (s.settle.Some? ==> until <= s.settle.value) && (s.nextTick.Some? ==> until <= s.nextTick.value)
    case WorkTick => s.nextTick == Some(s.now)
    case WindowExpires => s.window == Some(s.now)
    case GraceExpires => s.grace == Some(s.now)
    case SettlementExpires => s.settle == Some(s.now)
    case WorkerTakes(i) => i < |s.workers| && s.workers[i] == None && s.mode != Sleep && LaneOf(s, i).queue != []
    case WorkerFinishes(i) => i < |s.workers| && s.workers[i].Some? && s.mode != Sleep
    case WatchdogKills(i) => i < |s.workers| && i < USER_WORKERS && s.workers[i].Some? && s.mode != Sleep
    case ShiftTick(delta) => 0 < delta <= TICK
    case _ => true
  }

  function Unregistered(hooks: seq<int>, h: int): seq<int>
  {
    if hooks == [] then [] else if hooks[0] == h then hooks[1..] else [hooks[0]] + Unregistered(hooks[1..], h)
  }

  function Ticked(s: Sched): Sched { Activate(Recorded(s)) }

  function Recorded(s: Sched): Sched { s.(lastTick := Some(s.now), nextTick := Some(s.now + TICK)) }

  function WindowExpired(s: Sched): Sched
  {
    var t := s.(window := None);
    if Windowed(s) then BeginCurfew(t) else t
  }

  function GraceExpired(s: Sched): Sched
  {
    var t := s.(grace := None);
    if s.mode == Grace then ToSleep(t.(user := Clear(s.user))) else t
  }

  function SettlementExpired(s: Sched): Sched
  {
    var t := s.(settle := None);
    if HasWork(s) || s.mode == Sleep then t else if Windowed(s) then BeginCurfew(t) else ToSleep(t)
  }

  function UserScheduled(s: Sched): Sched { s.(user := if s.mode == Grace then HoldBack(s.user) else Accept(s.user)) }

  function SystemScheduled(s: Sched): Sched { s.(system := if s.mode == Grace then HoldBack(s.system) else Accept(s.system)) }

  /** Worker `i` receives an item and stops the settlement timer. */
  function Taken(s: Sched, i: nat): Sched
    requires i < |s.workers| && LaneOf(s, i).queue != []
  {
    var item := LaneOf(s, i).queue[0];
    var t := s.(workers := s.workers[i := Some(item)], active := s.active + 1, settle := None);
    if i < USER_WORKERS then t.(user := Take(s.user)) else t.(system := Take(s.system))
  }

  function Finished(s: Sched, i: nat): Sched
    requires i < |s.workers|
  {
    var t := Killed(s, i);
    if s.active == 1 then Evaluate(t) else t
  }

  /** Worker `i` lets go of its item. */
  function Killed(s: Sched, i: nat): Sched
    requires i < |s.workers|
  {
    s.(workers := s.workers[i := None], active := s.active - 1)
  }

  function Apply(s: Sched, e: Event): Sched
    requires Possible(s, e)
  {
    match e
    case Pass(until) => s.(now := until)
    case WorkTick => Ticked(s)
    case WindowExpires => WindowExpired(s)
    case GraceExpires => GraceExpired(s)
    case SettlementExpires => SettlementExpired(s)
    case ScheduleUser => UserScheduled(s)
    case ScheduleSystem => SystemScheduled(s)
    case WorkerTakes(i) => Taken(s, i)
    case WorkerFinishes(i) => Finished(s, i)
    case WatchdogKills(i) => Killed(s, i)
    case RegisterHook(h) => HookRegistered(s, h)
    case UnregisterHook(h) => s.(hooks := Unregistered(s.hooks, h))
    case SetActiveState(ui) => s.(uiNext := ui)
    case StartTicks => s.(nextTick := StartOnce(s.nextTick, s.now + TICK))
    case StopTicks => s.(nextTick := None, lastTick := None)
    case ShiftTick(delta) => TickShifted(s, delta)
  }

  function HookRegistered(s: Sched, h: int): Sched { if |s.hooks| < MAX_HOOKS then s.(hooks := s.hooks + [h]) else s }

  function TickShifted(s: Sched, delta: nat): Sched
  {
    if s.lastTick == None then s else s.(nextTick := Some(Max(s.now, s.lastTick.value + TICK + delta)))
  }

  // ----- What every reachable state satisfies -----

  /** Which timers run in which mode, and when they end. */
  ghost predicate Timing(s: Sched)
  {
    match s.mode
    case Sleep => s.window == None && s.grace == None && s.settle == None
    case Grace =>
      && s.window == None && s.grace == Some(s.graceStart + GRACE_PERIOD)
      && s.windowStart <= s.graceStart <= s.windowStart + s.limit && s.graceStart <= s.now
      && (s.limit == UI_WINDOW || s.limit == BACKGROUND_WINDOW)
      && DuePhase(s)
    case _ =>
      && s.window == Some(s.windowStart + s.limit) && s.grace == None && s.windowStart <= s.now
      && s.limit == Limit(s.mode == UiActive)
      && DuePhase(s)
  }

  /** The phase has not outlived its deadline and settlement never outlives the phase. */
  ghost predicate DuePhase(s: Sched)
  {
    s.now <= PhaseEnd(s) && (s.settle.Some? ==> s.now <= s.settle.value <= PhaseEnd(s))
  }

  /** The tick after a window opened is at least one interval away. */
  ghost predicate Ticking(s: Sched)
  {
    && (s.nextTick.Some? ==> s.now <= s.nextTick.value)
    && (s.lastTick.Some? ==> s.lastTick.value <= s.now)
    && (s.lastTick.Some? && s.nextTick.Some? ==> s.lastTick.value + TICK <= s.nextTick.value)
    && (Awake(s) ==> (s.lastTick.Some? ==> s.lastTick.value == s.windowStart)
                     && (s.nextTick.Some? ==> s.windowStart + TICK <= s.nextTick.value))
  }

  /** The counter of active workers counts them; nobody works during sleep. */
  ghost predicate Counted(s: Sched)
  {
    |s.workers| == POOL && s.active == Busy(s.workers) && (s.mode == Sleep ==> s.active == 0)
  }

  /** Work is held back only during the grace period. */
  ghost predicate Stored(s: Sched)
  {
    LaneInv(s.user) && LaneInv(s.system) && (s.mode != Grace ==> s.user.pending == [] && s.system.pending == [])
  }

  /** Settlement is only under way while nobody works. */
  ghost predicate Restful(s: Sched)
  {
    s.settle.Some? ==> s.active == 0
  }

  ghost predicate Inv(s: Sched)
  {
    Timing(s) && Ticking(s) && Counted(s) && Stored(s) && Restful(s)
  }

  lemma {:induction false} BusyUpdate(ws: seq<Option<nat>>, i: nat, w: Option<nat>)
    requires i < |ws|
    ensures Busy(ws[i := w]) == Busy(ws) - (if ws[i].Some? then 1 else 0) + (if w.Some? then 1 else 0)
  {
    var ws' := ws[i := w];
    if i == 0 {
      assert ws'[1..] == ws[1..];
    } else {
      assert ws'[1..] == ws[1..][i - 1 := w];
      BusyUpdate(ws[1..], i - 1, w);
    }
  }

  lemma {:induction false} BusyNone(ws: seq<Option<nat>>)
    requires forall i :: 0 <= i < |ws| ==> ws[i] == None
    ensures Busy(ws) == 0
  {
    if ws != [] {
      BusyNone(ws[1..]);
    }
  }

  lemma StartInv(now: nat)
    ensures Inv(Start(now))
  {
    BusyNone(AllIdle(POOL));
    assert LaneInv(EMPTY);
  }

  lemma EvaluateKeeps(s: Sched)
    requires Inv(s)
    ensures Inv(Evaluate(s))
  {
    hide LaneInv, Busy;
  }

  lemma ToSleepKeeps(s: Sched)
    requires Counted(s) && LaneInv(s.user) && LaneInv(s.system) && Ticking(s) && Awake(s)
    ensures Inv(ToSleep(s)) && ToSleep(s).mode == Sleep
  {
    hide LaneInv, Busy, AllIdle;
    BusyNone(AllIdle(|s.workers|));
    DrainKeeps(s.user);
    DrainKeeps(s.system);
    assert Drain(s.user).pending == [] && Drain(s.system).pending == [];
  }

  /** Ending a window, on time or early. */
  lemma BeginCurfewKeeps(s: Sched)
    requires Windowed(s) && Ticking(s) && Counted(s) && Stored(s) && s.grace == None
    requires s.windowStart <= s.now <= s.windowStart + s.limit && (s.limit == UI_WINDOW || s.limit == BACKGROUND_WINDOW)
    ensures Inv(BeginCurfew(s))
  {
    hide LaneInv, Busy, AcceptMany, ToSleep;
    var t := s.(window := None, settle := None);
    if s.hooks == [] && !HasWork(s) {
      ToSleepKeeps(t);
    } else {
      AcceptManyKeeps(s.system, |s.hooks|);
    }
  }

  lemma ActivateKeeps(s: Sched)
    requires Timing(s) && Counted(s) && Stored(s) && s.mode == Sleep
    requires s.lastTick == Some(s.now) && s.nextTick == Some(s.now + TICK)
    ensures Inv(Activate(s)) && Awake(Activate(s))
  {
    hide LaneInv, Busy;
    EvaluateKeeps(Armed(s));
  }

  /** A tick never comes while a window or its grace period lasts. */
  lemma TickFindsSleep(s: Sched)
    requires Inv(s) && s.nextTick == Some(s.now)
    ensures s.mode == Sleep
  {
    hide LaneInv, Busy;
  }

  /** An awake period lasts at most 900 ms, or 360 ms in the background. */
  lemma AwakeIsShort(s: Sched)
    requires Inv(s) && Awake(s)
    ensures s.windowStart <= s.now <= s.windowStart + s.limit + GRACE_PERIOD
    ensures s.limit + GRACE_PERIOD == 900000 || s.limit + GRACE_PERIOD == 360000
  {
    hide LaneInv, Busy;
  }

  lemma TickKeeps(s: Sched)
    requires Inv(s) && Possible(s, WorkTick)
    ensures Inv(Apply(s, WorkTick)) && s.mode == Sleep && Awake(Apply(s, WorkTick))
  {
    hide LaneInv, Busy;
    TickFindsSleep(s);
    ActivateKeeps(s.(lastTick := Some(s.now), nextTick := Some(s.now + TICK)));
  }

  lemma ExpiryKeeps(s: Sched, e: Event)
    requires Inv(s) && Possible(s, e) && (e.WindowExpires? || e.GraceExpires? || e.SettlementExpires?)
    ensures Inv(Apply(s, e))
  {
    hide Busy, ToSleep, BeginCurfew, Drain, LaneInv;
    match e
    case WindowExpires =>
      BeginCurfewKeeps(s.(window := None));
    case GraceExpires =>
      GraceExpiryKeeps(s);
    case SettlementExpires =>
      if !HasWork(s) {
        if Windowed(s) {
          BeginCurfewKeeps(s.(settle := None));
        } else {
          ToSleepKeeps(s.(settle := None));
        }
      }
  }

  lemma GraceExpiryKeeps(s: Sched)
    requires Inv(s) && Possible(s, GraceExpires)
    ensures Inv(Apply(s, GraceExpires)) && Apply(s, GraceExpires).mode == Sleep
    ensures Apply(s, GraceExpires).user == Drain(Clear(s.user)) && Apply(s, GraceExpires).system == Drain(s.system)
  {
    hide Busy, Drain, Clear, LaneInv;
    BusyNone(AllIdle(|s.workers|));
    ClearDrainKeeps(s.user);
    DrainKeeps(s.system);
    DrainEmpties(s.system);
    DrainEmpties(Clear(s.user));
  }

  lemma DrainEmpties(l: Lane)
    ensures Drain(l).pending == []
  {
  }

  lemma TakesKeeps(s: Sched, i: nat)
    requires Inv(s) && Possible(s, WorkerTakes(i))
    ensures Inv(Apply(s, WorkerTakes(i)))
  {
    hide Busy, LaneInv;
    BusyUpdate(s.workers, i, Some(LaneOf(s, i).queue[0]));
    TakeKeeps(LaneOf(s, i));
    assert Take(LaneOf(s, i)).pending == LaneOf(s, i).pending;
    hide Take;
  }

  lemma FinishesKeeps(s: Sched, i: nat)
    requires Inv(s) && Possible(s, WorkerFinishes(i))
    ensures Inv(Apply(s, WorkerFinishes(i)))
  {
    hide Busy, LaneInv, Evaluate;
    BusyUpdate(s.workers, i, None);
    var t := s.(workers := s.workers[i := None], active := s.active - 1);
    if s.active == 1 {
      EvaluateKeeps(t);
    }
  }

  lemma KillsKeeps(s: Sched, i: nat)
    requires Inv(s) && Possible(s, WatchdogKills(i))
    ensures Inv(Apply(s, WatchdogKills(i)))
  {
    hide Busy, LaneInv;
    BusyUpdate(s.workers, i, None);
  }

  lemma CallKeeps(s: Sched, e: Event)
    requires Inv(s) && Possible(s, e) && (e.ScheduleUser? || e.ScheduleSystem?)
    ensures Inv(Apply(s, e))
  {
    hide Busy, LaneInv;
    var l := if e.ScheduleUser? then s.user else s.system;
    if s.mode == Grace {
      HoldBackKeeps(l);
    } else {
      AcceptKeeps(l);
    }
  }

  /** Steps that only move time, ticks or hooks. */
  lemma QuietKeeps(s: Sched, e: Event)
    requires Inv(s) && Possible(s, e)
    requires e.Pass? || e.RegisterHook? || e.UnregisterHook? || e.SetActiveState? || e.StartTicks? || e.StopTicks? || e.ShiftTick?
    ensures Inv(Apply(s, e))
  {
    hide Busy, LaneInv, ToSleep, BeginCurfew, Evaluate, Activate;
  }

  lemma StepKeeps(s: Sched, e: Event)
    requires Inv(s) && Possible(s, e)
    ensures Inv(Apply(s, e))
  {
    hide Inv, Apply;
    match e
    case WorkTick => TickKeeps(s);
    case WindowExpires => ExpiryKeeps(s, e);
    case GraceExpires => ExpiryKeeps(s, e);
    case SettlementExpires => ExpiryKeeps(s, e);
    case ScheduleUser => CallKeeps(s, e);
    case ScheduleSystem => CallKeeps(s, e);
    case WorkerTakes(i) => TakesKeeps(s, i);
    case WorkerFinishes(i) => FinishesKeeps(s, i);
    case WatchdogKills(i) => KillsKeeps(s, i);
    case _ => QuietKeeps(s, e);
  }

  // ----- Whole executions -----

  /** The states `ss` that the events `es` lead through. */
  ghost predicate Execution(ss: seq<Sched>, es: seq<Event>)
  {
    && |ss| == |es| + 1 && ss[0] == Start(ss[0].now)
    && forall i :: 0 <= i < |es| ==> Possible(ss[i], es[i]) && ss[i + 1] == Apply(ss[i], es[i])
  }

  lemma {:induction false} Reachable(ss: seq<Sched>, es: seq<Event>, i: nat)
    requires Execution(ss, es) && i < |ss|
    ensures Inv(ss[i])
  {
    hide Inv;
    if i == 0 {
      StartInv(ss[0].now);
    } else {
      Reachable(ss, es, i - 1);
      StepKeeps(ss[i - 1], es[i - 1]);
    }
  }

  /** In every execution: a sleeping machine has no timer running; an awake one has exactly the
      timer of its phase, and settlement within it; no awake period outlasts 900 ms (360 ms in the
      background); and so every work tick finds the machine asleep and wakes it. */
  lemma WindowsAreBounded(ss: seq<Sched>, es: seq<Event>, i: nat)
    requires Execution(ss, es) && i < |ss|
    ensures var s := ss[i];
            && (s.mode == Sleep ==> s.window == None && s.grace == None && s.settle == None)
            && (Windowed(s) ==> s.window == Some(s.windowStart + Limit(s.mode == UiActive)) && s.grace == None)
            && (s.mode == Grace ==> s.window == None && s.grace.Some?)
            && (s.settle.Some? ==> Awake(s) && s.settle.value <= (if Windowed(s) then s.window.value else s.grace.value))
            && (Awake(s) ==> s.now - s.windowStart <= (if s.limit == UI_WINDOW then 900000 else 360000))
    ensures i < |es| && es[i].WorkTick? ==> ss[i].mode == Sleep && Awake(ss[i + 1])
  {
    Reachable(ss, es, i);
    var s := ss[i];
    hide LaneInv, Busy, Apply;
    if Awake(s) {
      AwakeIsShort(s);
    }
    if i < |es| && es[i].WorkTick? {
      TickKeeps(s);
    }
  }

  // ----- Idle machines -----

  /** The last worker was killed by its watchdog, and since then none has taken an item and no window
      has opened: the one way work ends without the idle check. */
  ghost predicate Stranded(ss: seq<Sched>, es: seq<Event>, i: nat)
    requires |ss| == |es| + 1 && i < |ss|
  {
    i > 0 && StrandedBy(ss[i - 1], es[i - 1], Stranded(ss, es, i - 1))
  }

  predicate StrandedBy(s: Sched, e: Event, before: bool)
  {
    match e
    case WatchdogKills(_) => s.active == 1
    case WorkerTakes(_) => false
    case WorkTick => false
    case _ => before
  }

  /** Awake without work, and the phase not yet over. */
  predicate Idling(s: Sched) { Awake(s) && !HasWork(s) && s.now < PhaseEnd(s) }

  ghost predicate Settling(s: Sched, stranded: bool)
  {
    (stranded ==> s.active == 0 && s.settle == None) && (Idling(s) && !stranded ==> s.settle.Some?)
  }

  lemma CurfewSettles(s: Sched)
    requires Stored(s) && Windowed(s)
    ensures BeginCurfew(s).settle == None && (Awake(BeginCurfew(s)) ==> HasWork(BeginCurfew(s)))
  {
    hide LaneInv, AcceptMany, Busy, Drain;
    AcceptManyKeeps(s.system, |s.hooks|);
  }

  lemma WorkerSettles(s: Sched, e: Event, stranded: bool)
    requires Inv(s) && Possible(s, e) && Settling(s, stranded)
    requires e.WorkerTakes? || e.WorkerFinishes? || e.WatchdogKills?
    ensures Settling(Apply(s, e), StrandedBy(s, e, stranded))
  {
    hide LaneInv, Busy, Timing, Ticking, Stored;
    if !e.WorkerTakes? {
      BusyUpdate(s.workers, e.i, None);
    } else {
      BusyUpdate(s.workers, e.i, Some(0));
    }
  }

  lemma CallSettles(s: Sched, e: Event, stranded: bool)
    requires Settling(s, stranded) && (e.ScheduleUser? || e.ScheduleSystem?)
    ensures Settling(Apply(s, e), StrandedBy(s, e, stranded))
  {
  }

  lemma ExpirySettles(s: Sched, e: Event, stranded: bool)
    requires Inv(s) && Possible(s, e) && Settling(s, stranded)
    requires e.WindowExpires? || e.GraceExpires? || e.SettlementExpires? || e.WorkTick?
    ensures Settling(Apply(s, e), StrandedBy(s, e, stranded))
  {
    hide LaneInv, Busy, Drain, Clear, BeginCurfew;
    match e
    case WindowExpires =>
      CurfewSettles(s.(window := None));
      assert stranded ==> BeginCurfew(s.(window := None)).active == 0 by { CurfewStaysIdle(s.(window := None)); }
    case SettlementExpires =>
      if Windowed(s) {
        CurfewSettles(s.(settle := None));
      }
    case GraceExpires =>
      assert stranded ==> Busy(s.workers) == 0;
    case WorkTick => TickFindsSleep(s);
  }

  lemma CurfewStaysIdle(s: Sched)
    requires Counted(s)
    ensures s.active == 0 ==> BeginCurfew(s).active == 0
  {
    hide Busy, Drain, AcceptMany;
  }

  lemma SettlingStep(s: Sched, e: Event, stranded: bool)
    requires Inv(s) && Possible(s, e) && Settling(s, stranded)
    ensures Settling(Apply(s, e), StrandedBy(s, e, stranded))
  {
    hide Inv, Apply, Settling, StrandedBy, Possible;
    match e
    case WorkerTakes(_) => WorkerSettles(s, e, stranded);
    case WorkerFinishes(_) => WorkerSettles(s, e, stranded);
    case WatchdogKills(_) => WorkerSettles(s, e, stranded);
    case ScheduleUser => CallSettles(s, e, stranded);
    case ScheduleSystem => CallSettles(s, e, stranded);
    case WindowExpires => ExpirySettles(s, e, stranded);
    case GraceExpires => ExpirySettles(s, e, stranded);
    case SettlementExpires => ExpirySettles(s, e, stranded);
    case WorkTick => ExpirySettles(s, e, stranded);
    case _ => OtherSettles(s, e, stranded);
  }

  lemma OtherSettles(s: Sched, e: Event, stranded: bool)
    requires Settling(s, stranded) && Possible(s, e)
    requires e.Pass? || e.RegisterHook? || e.UnregisterHook? || e.SetActiveState? || e.StartTicks? || e.StopTicks? || e.ShiftTick?
    ensures Settling(Apply(s, e), StrandedBy(s, e, stranded))
  {
    hide ToSleep, BeginCurfew, Evaluate, Activate, Busy;
  }

  lemma {:induction false} SettlingThroughout(ss: seq<Sched>, es: seq<Event>, i: nat)
    requires Execution(ss, es) && i < |ss|
    ensures Settling(ss[i], Stranded(ss, es, i))
  {
    hide Inv, Apply, StrandedBy;
    if i > 0 {
      SettlingThroughout(ss, es, i - 1);
      Reachable(ss, es, i - 1);
      SettlingStep(ss[i - 1], es[i - 1], Stranded(ss, es, i - 1));
    }
  }

  /** In every execution the counter of active workers is right, and an awake machine without work,
      before the end of its phase, has its settlement timer running if and only if it is not stranded. */
  lemma IdleSettlesIff(ss: seq<Sched>, es: seq<Event>, i: nat)
    requires Execution(ss, es) && i < |ss|
    ensures ss[i].active == Busy(ss[i].workers)
    ensures Idling(ss[i]) ==> (ss[i].settle.Some? <==> !Stranded(ss, es, i))
  {
    hide Apply;
    Reachable(ss, es, i);
    SettlingThroughout(ss, es, i);
  }

  /** An execution goes on with any step that is possible. */
  lemma Grown(ss: seq<Sched>, es: seq<Event>, e: Event) returns (ss': seq<Sched>, es': seq<Event>)
    requires Execution(ss, es) && Possible(ss[|es|], e)
    ensures Execution(ss', es') && es' == es + [e] && ss'[..|ss|] == ss && ss'[|es'|] == Apply(ss[|es|], e)
    ensures ss'[|es|] == ss[|es|]
  {
    hide Apply, Possible;
    ss', es' := ss + [Apply(ss[|es|], e)], es + [e];
    forall i | 0 <= i < |es'|
      ensures Possible(ss'[i], es'[i]) && ss'[i + 1] == Apply(ss'[i], es'[i])
    {
      assert i < |es| ==> ss'[i] == ss[i] && ss'[i + 1] == ss[i + 1] && es'[i] == es[i];
    }
  }

  /** The state at the first tick with one item of user work waiting, and in the window it opens. */
  function Waiting(): Sched { Start(0).(nextTick := Some(TICK), user := Lane([0], [], 1, [], []), now := TICK) }

  function Opened(): Sched
  {
    Waiting().(mode := UiActive, windowStart := TICK, limit := UI_WINDOW, window := Some(TICK + UI_WINDOW),
               lastTick := Some(TICK), nextTick := Some(2 * TICK))
  }

  lemma WaitingReached() returns (ss: seq<Sched>, es: seq<Event>)
    ensures Execution(ss, es) && ss[|es|] == Waiting()
  {
    ss, es := Grown([Start(0)], [], StartTicks);
    ss, es := Grown(ss, es, ScheduleUser);
    ss, es := Grown(ss, es, Pass(TICK));
  }

  lemma WaitingOpens()
    ensures Possible(Waiting(), WorkTick) && Apply(Waiting(), WorkTick) == Opened()
  {
  }

  lemma OpenedStrands()
    ensures Possible(Opened(), WorkerTakes(0))
    ensures var t := Apply(Opened(), WorkerTakes(0));
            Possible(t, WatchdogKills(0)) && t.active == 1 && Idling(Apply(t, WatchdogKills(0)))
  {
  }

  /** A machine can be stranded: the only item is killed in the first window. */
  lemma StrandedExample() returns (ss: seq<Sched>, es: seq<Event>)
    ensures Execution(ss, es) && Stranded(ss, es, |es|) && Idling(ss[|es|])
  {
    hide Execution, Apply, Possible, Waiting, Opened, Idling;
    ss, es := WaitingReached();
    WaitingOpens();
    OpenedStrands();
    ss, es := Grown(ss, es, WorkTick);
    ss, es := Grown(ss, es, WorkerTakes(0));
    ss, es := Grown(ss, es, WatchdogKills(0));
  }

  // ----- No work is lost unaccountably -----

  /** Each accepted item is in exactly one of: taken, dropped, queued, held back; and the items not
      dropped are in the order of acceptance. */
  lemma WorkIsAccounted(ss: seq<Sched>, es: seq<Event>, i: nat, user: bool)
    requires Execution(ss, es) && i < |ss|
    ensures var l := if user then ss[i].user else ss[i].system;
            OnePlaceEach(l) && Ordered(l.taken + l.queue + l.pending, l.accepted) && (l.pending != [] ==> ss[i].mode == Grace)
  {
    hide Apply;
    Reachable(ss, es, i);
    LaneAccounted(if user then ss[i].user else ss[i].system);
  }

  lemma SmallDrainDropsNothing(l: Lane)
    requires LaneInv(l) && |l.queue| + |l.pending| <= MAX_WORK
    ensures Drain(l).dropped == l.dropped
  {
    DrainKeeps(l);
  }

  /** Only the end of a grace period drops work: of the user's work what was queued but never what was
      submitted during grace, which is queued next; of the system's only if queue and held-back items
      together exceed ten. */
  lemma DropsOnlyAtGraceEnd(ss: seq<Sched>, es: seq<Event>, i: nat)
    requires Execution(ss, es) && i < |es|
    ensures var s, t := ss[i], ss[i + 1];
            if es[i].GraceExpires? then
              && t.user.dropped == s.user.dropped + s.user.queue && t.user.queue == s.user.pending
              && (t.system.dropped != s.system.dropped <==> |s.system.queue| + |s.system.pending| > MAX_WORK)
              && s.system.dropped <= t.system.dropped
              && t.system.queue + t.system.dropped[|s.system.dropped|..] == s.system.queue + s.system.pending
            else t.user.dropped == s.user.dropped && t.system.dropped == s.system.dropped
  {
    var s, e := ss[i], es[i];
    Reachable(ss, es, i);
    if e.GraceExpires? {
      hide Inv, Apply;
      GraceExpiryKeeps(s);
      StepLanes(s);
    } else {
      QuietStepDropsNothing(s, e);
    }
  }

  lemma StepLanes(s: Sched)
    requires Inv(s)
    ensures Drain(Clear(s.user)).queue == s.user.pending && Drain(Clear(s.user)).dropped == s.user.dropped + s.user.queue
    ensures Drain(s.system).dropped != s.system.dropped <==> |s.system.queue| + |s.system.pending| > MAX_WORK
    ensures s.system.dropped <= Drain(s.system).dropped
    ensures Drain(s.system).queue + Drain(s.system).dropped[|s.system.dropped|..] == s.system.queue + s.system.pending
  {
    hide LaneInv, Drain, Clear;
    ClearDrainKeeps(s.user);
    DrainKeeps(s.system);
  }

  lemma IdleSleepDropsNothing(s: Sched)
    requires LaneInv(s.user) && LaneInv(s.system) && !HasWork(s)
    ensures ToSleep(s).user.dropped == s.user.dropped && ToSleep(s).system.dropped == s.system.dropped
  {
    SmallDrainDropsNothing(s.user);
    SmallDrainDropsNothing(s.system);
    hide Busy, Drain, LaneInv;
  }

  lemma CurfewDropsNothing(s: Sched)
    requires LaneInv(s.user) && LaneInv(s.system)
    ensures BeginCurfew(s).user.dropped == s.user.dropped && BeginCurfew(s).system.dropped == s.system.dropped
  {
    hide LaneInv, ToSleep, AcceptMany;
    AcceptManyKeepsDropped(s.system, |s.hooks|);
    if !HasWork(s) {
      IdleSleepDropsNothing(s.(window := None, settle := None));
    }
  }

  lemma QuietStepDropsNothing(s: Sched, e: Event)
    requires Inv(s) && Possible(s, e) && !e.GraceExpires?
    ensures Apply(s, e).user.dropped == s.user.dropped && Apply(s, e).system.dropped == s.system.dropped
  {
    hide LaneInv, ToSleep, BeginCurfew, Timing, Ticking, Counted, Restful;
    match e
    case WindowExpires => CurfewDropsNothing(s.(window := None));
    case SettlementExpires =>
      CurfewDropsNothing(s.(settle := None));
      if !HasWork(s) {
        IdleSleepDropsNothing(s.(settle := None));
      }
    case _ =>
  }

  lemma {:induction false} AcceptManyKeepsDropped(l: Lane, n: nat)
    ensures AcceptMany(l, n).dropped == l.dropped
  {
    if n > 0 {
      AcceptManyKeepsDropped(l, n - 1);
    }
  }

  // ----- Work submitted during the grace period -----

  /** `t` is `l` with one more item in its main queue, unless that is full. */
  ghost predicate Queued(l: Lane, t: Lane)
  {
    && t.pending == l.pending && t.dropped == l.dropped && t.taken == l.taken
    && (if |l.queue| < 10 then t.accepted == l.accepted + 1 && t.queue == l.queue + [l.accepted]
        else t.accepted == l.accepted && t.queue == l.queue)
  }

  /** `t` is `l` with one more item held back, unless five are. */
  ghost predicate HeldBack(l: Lane, t: Lane)
  {
    && t.queue == l.queue && t.dropped == l.dropped && t.taken == l.taken
    && (if |l.pending| < 5 then t.accepted == l.accepted + 1 && t.pending == l.pending + [l.accepted]
        else t.accepted == l.accepted && t.pending == l.pending)
  }

  /** A schedule call holds the work back exactly in the grace period, and leaves the other class alone. */
  lemma ScheduledWhere(ss: seq<Sched>, es: seq<Event>, i: nat)
    requires Execution(ss, es) && i < |es| && (es[i].ScheduleUser? || es[i].ScheduleSystem?)
    ensures var s, t, user := ss[i], ss[i + 1], es[i].ScheduleUser?;
            var l, l' := if user then s.user else s.system, if user then t.user else t.system;
            && (if s.mode == Grace then HeldBack(l, l') else Queued(l, l'))
            && (if user then t.system == s.system else t.user == s.user)
  {
    assert ss[i + 1] == Apply(ss[i], es[i]);
  }

  /** Through one step of a grace period, what is held back for the user stays held back, or is queued
      when the step ends the period. */
  lemma HeldBackStep(s: Sched, e: Event, id: nat)
    requires Inv(s) && Possible(s, e) && s.mode == Grace && id in s.user.pending
    ensures var t := Apply(s, e); if t.mode == Grace then id in t.user.pending else t.mode == Sleep && id in t.user.queue
  {
    hide LaneInv, Busy, AllIdle, Evaluate;
    match e
    case GraceExpires =>
      ClearDrainOf(s.user);
    case SettlementExpires =>
      if !HasWork(s) {
        DrainOf(s.user);
      }
    case WorkTick => TickFindsSleep(s);
    case WorkerFinishes(_) => EvaluateIsQuiet(Killed(s, e.i));
    case _ =>
  }

  lemma EvaluateIsQuiet(s: Sched)
    ensures Evaluate(s).mode == s.mode && Evaluate(s).user == s.user
  {
  }

  lemma ClearDrainOf(l: Lane)
    requires LaneInv(l)
    ensures Drain(Clear(l)).queue == l.pending
  {
    ClearDrainKeeps(l);
  }

  lemma DrainOf(l: Lane)
    requires LaneInv(l) && l.queue == []
    ensures Drain(l).queue == l.pending
  {
    Empty(l.pending);
  }

  /** User work accepted in a grace period is not lost by the end of it: as long as the period lasts it
      is held back, and when the period ends it is queued for the next window. */
  lemma {:induction false} GraceWorkSurvives(ss: seq<Sched>, es: seq<Event>, i: nat, j: nat)
    requires Execution(ss, es) && i < j < |ss| && es[i].ScheduleUser? && ss[i].mode == Grace
    requires ss[i + 1].user.accepted > ss[i].user.accepted
    requires forall k :: i < k < j ==> ss[k].mode == Grace
    ensures var id, t := ss[i].user.accepted, ss[j];
            && id !in t.user.dropped
            && (if t.mode == Grace then id in t.user.pending else t.mode == Sleep && id in t.user.queue)
    decreases j
  {
    hide Inv, Apply, Possible, LaneInv;
    var id := ss[i].user.accepted;
    if j == i + 1 {
      ScheduledWhere(ss, es, i);
      StillGrace(ss, es, i);
    } else {
      GraceWorkSurvives(ss, es, i, j - 1);
      Reachable(ss, es, j - 1);
      HeldBackStep(ss[j - 1], es[j - 1], id);
    }
    WorkIsAccounted(ss, es, j, true);
    OnePlaceOnly(ss[j].user, id);
  }

  lemma StillGrace(ss: seq<Sched>, es: seq<Event>, i: nat)
    requires Execution(ss, es) && i < |es| && es[i].ScheduleUser?
    ensures ss[i + 1].mode == ss[i].mode
  {
    assert ss[i + 1] == Apply(ss[i], es[i]);
  }

  lemma OnePlaceOnly(l: Lane, id: nat)
    requires OnePlaceEach(l) && (id in l.queue || id in l.pending)
    ensures id !in l.dropped && id !in l.taken
  {
    assert Places(l, id) <= 1;
    if id in l.queue {
      assert multiset(l.queue)[id] >= 1;
    } else {
      assert multiset(l.pending)[id] >= 1;
    }
    assert id in l.dropped ==> multiset(l.dropped)[id] >= 1;
    assert id in l.taken ==> multiset(l.taken)[id] >= 1;
  }

  // ----- Which window opens -----

  /** What was last asked for; the user interface counts as active at first. */
  function Asked(es: seq<Event>): bool
  {
    if es == [] then true
    else if es[|es| - 1].SetActiveState? then es[|es| - 1].ui
    else Asked(es[..|es| - 1])
  }

  lemma {:induction false} AskedIsKept(ss: seq<Sched>, es: seq<Event>, i: nat)
    requires Execution(ss, es) && i <= |es|
    ensures ss[i].uiNext == Asked(es[..i])
  {
    if i > 0 {
      AskedIsKept(ss, es, i - 1);
      assert es[..i][..i - 1] == es[..i - 1];
      assert ss[i] == Apply(ss[i - 1], es[i - 1]);
      AskedStep(ss[i - 1], es[i - 1]);
    }
  }

  lemma AskedStep(s: Sched, e: Event)
    requires Possible(s, e)
    ensures Apply(s, e).uiNext == if e.SetActiveState? then e.ui else s.uiNext
  {
  }

  /** Every work tick opens the window last asked for, 700 ms for the user interface and 160 ms for the
      background, from that moment on. */
  lemma TickOpensWindow(ss: seq<Sched>, es: seq<Event>, i: nat)
    requires Execution(ss, es) && i < |es| && es[i].WorkTick?
    ensures var t, ui := ss[i + 1], Asked(es[..i]);
            && t.mode == (if ui then UiActive else BackgroundActive) && t.windowStart == ss[i].now
            && t.window == Some(ss[i].now + if ui then 700000 else 160000)
            && t.nextTick == Some(ss[i].now + 1025000)
  {
    AskedIsKept(ss, es, i);
    Reachable(ss, es, i);
    assert ss[i + 1] == Apply(ss[i], es[i]);
    hide LaneInv, Busy;
    TickFindsSleep(ss[i]);
    EvaluateKeepsWindow(Armed(Recorded(ss[i])));
    hide Evaluate, Execution;
  }

  lemma EvaluateKeepsWindow(s: Sched)
    ensures var t := Evaluate(s); t == s.(settle := t.settle)
  {
  }

  // ----- How a phase ends -----

  /** A window that ends gives a grace period exactly if there is work or a hook; a settled one exactly if
      there is a hook; a grace period ends in sleep, on time or once settled; and settlement does nothing
      while there is work. */
  lemma PhaseEndsIn(ss: seq<Sched>, es: seq<Event>, i: nat)
    requires Execution(ss, es) && i < |es|
    ensures es[i].WindowExpires? ==> ss[i + 1].mode == if HasWork(ss[i]) || ss[i].hooks != [] then Grace else Sleep
    ensures es[i].GraceExpires? ==> ss[i + 1].mode == Sleep
    ensures es[i].SettlementExpires? ==>
              ss[i + 1].mode == if HasWork(ss[i]) then ss[i].mode
                                else if Windowed(ss[i]) && ss[i].hooks != [] then Grace else Sleep
    ensures ss[i].mode != Grace && ss[i + 1].mode == Grace ==>
              ss[i + 1].grace == Some(ss[i].now + 200000) && ss[i + 1].system.accepted == ss[i].system.accepted + Min(|ss[i].hooks|, 10 - |ss[i].system.queue|)
  {
    Reachable(ss, es, i);
    assert ss[i + 1] == Apply(ss[i], es[i]);
    var s, e := ss[i], es[i];
    CurfewOutcome(s.(window := None));
    CurfewOutcome(s.(settle := None));
    SleepOutcome(s.(settle := None));
    hide LaneInv, Busy, BeginCurfew, Ticking, Counted, Restful, Execution;
    if !(e.WindowExpires? || e.GraceExpires? || e.SettlementExpires?) {
      OtherModes(s, e);
      hide Apply;
    }
  }

  lemma CurfewOutcome(s: Sched)
    requires LaneInv(s.system)
    ensures var t := BeginCurfew(s);
            if HasWork(s) || s.hooks != [] then
              && t.mode == Grace && t.grace == StartOnce(s.grace, s.now + 200000)
              && t.system.accepted == s.system.accepted + Min(|s.hooks|, 10 - |s.system.queue|)
            else t.mode == Sleep
  {
    QueueFits(s.system);
    AcceptManyCounts(s.system, |s.hooks|);
    hide LaneInv, AcceptMany, Drain, Busy, AllIdle;
  }

  lemma SleepOutcome(s: Sched)
    ensures ToSleep(s).mode == Sleep
  {
  }

  lemma QueueFits(l: Lane)
    requires LaneInv(l)
    ensures |l.queue| <= 10
  {
  }

  lemma {:induction false} AcceptManyCounts(l: Lane, n: nat)
    requires |l.queue| <= 10
    ensures var r, k := AcceptMany(l, n), Min(n, 10 - |l.queue|); r.accepted == l.accepted + k && |r.queue| == |l.queue| + k
  {
    if n > 0 {
      AcceptManyCounts(l, n - 1);
    }
  }

  /** No other step starts a grace period. */
  lemma OtherModes(s: Sched, e: Event)
    requires Inv(s) && Possible(s, e) && !e.WindowExpires? && !e.GraceExpires? && !e.SettlementExpires?
    ensures Apply(s, e).mode == Grace ==> s.mode == Grace
  {
    hide LaneInv, Busy;
  }

  /** Settlement is armed for ten milliseconds, or for what is left of the phase if that is less. */
  lemma SettlementArmedFor(ss: seq<Sched>, es: seq<Event>, i: nat)
    requires Execution(ss, es) && i < |es| && ss[i].settle == None && ss[i + 1].settle.Some?
    ensures ss[i + 1].settle == Some(ss[i + 1].now + Min(PhaseEnd(ss[i + 1]) - ss[i + 1].now, 10000))
  {
    Reachable(ss, es, i);
    assert ss[i + 1] == Apply(ss[i], es[i]);
    hide LaneInv, Busy, Drain, AllIdle, AcceptMany, Execution;
    ArmingStep(ss[i], es[i]);
  }

  lemma ArmingStep(s: Sched, e: Event)
    requires Inv(s) && Possible(s, e) && s.settle == None && Apply(s, e).settle.Some?
    ensures var t := Apply(s, e); t.settle == Some(t.now + Min(PhaseEnd(t) - t.now, 10000))
  {
    hide LaneInv, Busy, Drain, AllIdle, AcceptMany, Evaluate;
    match e
    case WorkTick => EvaluateArms(Armed(Recorded(s)));
    case WorkerFinishes(i) => EvaluateArms(Killed(s, i));
    case _ =>
  }

  lemma EvaluateArms(s: Sched)
    requires s.settle == None
    ensures var t := Evaluate(s); t.settle.Some? ==> t.settle == Some(t.now + Min(PhaseEnd(t) - t.now, 10000))
  {
  }

  /** A shift puts the next tick one interval and the shift behind the last, or at once if that is past. */
  lemma ShiftMovesTick(ss: seq<Sched>, es: seq<Event>, i: nat)
    requires Execution(ss, es) && i < |es| && es[i].ShiftTick?
    ensures ss[i + 1].nextTick == if ss[i].lastTick == None then ss[i].nextTick
                                  else Some(Max(ss[i].now, ss[i].lastTick.value + 1025000 + es[i].delta))
  {
    assert ss[i + 1] == Apply(ss[i], es[i]);
  }
}
