/** components/runtime_manager with its static state: each callback and API call as a method, proved
    to be the step of `Runtime` of the same name. `now` is what esp_timer_get_time returns. */
module RuntimeManager {
  import opened Basics
  import opened Seqs
  import opened Lanes
  import opened WorkQueues
  import opened Runtime

  /** What curfew_hook_adapter is submitted as. */
  const HOOK_ADAPTER: int := -1

  class Manager {
    var mode: Mode
    var uiNext: bool
    var windowStart: nat
    var graceStart: nat
    var windowTimer: Option<nat>
    var graceTimer: Option<nat>
    var settleTimer: Option<nat>
    const work: Queues
    const hooks: array<int>
    var hookCount: nat
    const working: array<bool>
    var active: int
    var lastTick: Option<nat>
    var nextTick: Option<nat>
    /** The length of the window last opened, and the number of the item each worker holds. */
    ghost var limit: nat
    ghost var held: seq<Option<nat>>

    ghost predicate Valid()
      reads this, working, work.repr
    {
      && work.Valid() && this !in work.repr && hooks !in work.repr && working !in work.repr
      && hooks.Length == MAX_HOOKS && hookCount <= MAX_HOOKS && working.Length == POOL == |held| && Marked(held)
      && (mode == UiActive || mode == BackgroundActive ==> limit == Limit(mode == UiActive))
    }

    /** A worker's flag is up while it holds an item. */
    ghost predicate Marked(hs: seq<Option<nat>>)
      reads working
    {
      working.Length == |hs| && forall i :: 0 <= i < |hs| ==> working[i] == hs[i].Some?
    }

    ghost function View(now: nat): Sched
      requires hookCount <= hooks.Length
      reads this, hooks, work.user, work.system
    {
      Sched(mode, uiNext, now, windowStart, limit, graceStart, windowTimer, graceTimer, settleTimer,
            work.User(), work.System(), hooks[..hookCount], held, active, lastTick, nextTick)
    }

    constructor (now: nat)
      ensures Valid() && View(now) == Start(now) && fresh(hooks) && fresh(working) && fresh(work.repr)
    {
      hide Queues.Valid;
      mode, uiNext, windowStart, limit, graceStart := Sleep, true, 0, 0, 0;
      windowTimer, graceTimer, settleTimer := None, None, None;
      work := new Queues();
      hooks := new int[MAX_HOOKS];
      hookCount := 0;
      working := new bool[POOL](_ => false);
      held := AllIdle(POOL);
      active, lastTick, nextTick := 0, None, None;
    }

    /** worker_pool_has_work. */
    predicate HasPendingWork()
      requires work.Valid()
      reads this, work.repr
      ensures HasPendingWork() == (active > 0 || work.System().queue != [] || work.User().queue != [])
    {
      active > 0 || work.Waiting()
    }

    /** runtime_manager_evaluate_early_curfew. */
    method EvaluateEarlyCurfew(now: nat)
      requires Valid()
      modifies this`settleTimer
      ensures Valid() && View(now) == Evaluate(old(View(now)))
    {
      hide Queues.Valid, Marked;
      var idle := !HasPendingWork();
      if mode == UiActive || mode == BackgroundActive {
        if idle && settleTimer == None {
          var most := if mode == UiActive then UI_WINDOW else BACKGROUND_WINDOW;
          var remaining := most - (now - windowStart);
          if remaining > 0 {
            settleTimer := Some(now + if remaining < DEBOUNCE then remaining else DEBOUNCE);
          }
        }
      } else if mode == Grace {
        if idle && settleTimer == None {
          var remaining := GRACE_PERIOD - (now - graceStart);
          if remaining > 0 {
            settleTimer := Some(now + if remaining < DEBOUNCE then remaining else DEBOUNCE);
          }
        }
      }
    }

    /** watchdog_force_all_mandatory_abort: every worker with an item is replaced. */
    method AbortAll()
      requires Marked(held) && working.Length == POOL
      modifies working, this`active, this`held
      ensures Marked(held) && held == AllIdle(POOL) && active == old(active) - Busy(old(held))
    {
      ghost var hs := held;
      var i := 0;
      assert hs[0..] == hs;
      while i < POOL
        invariant i <= POOL && |held| == POOL && Marked(held)
        invariant forall k :: 0 <= k < i ==> held[k] == None
        invariant held[i..] == hs[i..] && active == old(active) - (Busy(hs) - Busy(hs[i..]))
      {
        assert hs[i..][0] == held[i..][0] && hs[i..][1..] == hs[i + 1..];
        if working[i] {
          working[i] := false;
          held := held[i := None];
          active := active - 1;
        }
        assert held[i + 1..] == hs[i + 1..];
        i := i + 1;
      }
      assert held == AllIdle(POOL);
    }

    /** set_runtime_state(RUNTIME_STATE_SLEEP). */
    method SetSleep(ghost now: nat)
      requires Valid()
      modifies this, working, work.repr
      ensures Valid() && View(now) == ToSleep(old(View(now)))
    {
      hide Drain, Busy, AllIdle, Marked, Queues.Valid;
      if mode == Sleep {
        return;
      }
      StopTimers(now);
      hide Manager.View, Manager.Valid;
      Quiesce(now);
    }

    method StopTimers(ghost now: nat)
      requires Valid()
      modifies this`windowTimer, this`graceTimer, this`settleTimer, this`mode
      ensures Valid() && View(now) == old(View(now)).(window := None, grace := None, settle := None, mode := Sleep)
    {
      hide Marked, Queues.Valid;
      windowTimer, graceTimer, settleTimer := None, None, None;
      mode := Sleep;
    }

    /** Pending work is released and the workers are stopped. */
    method Quiesce(ghost now: nat)
      requires Valid()
      modifies this`active, this`held, working, work.repr
      ensures Valid()
      ensures var s := old(View(now));
              View(now) == s.(user := Drain(s.user), system := Drain(s.system),
                              workers := AllIdle(|s.workers|), active := s.active - Busy(s.workers))
    {
      hide Drain, Busy, AllIdle, Marked, Queues.Valid;
      work.DrainBoth();
      AbortAll();
    }

    /** runtime_manager_begin_curfew_unsafe. */
    method BeginCurfewUnsafe(now: nat)
      requires Valid()
      modifies this, working, work.repr
      ensures Valid() && View(now) == BeginCurfew(old(View(now)))
    {
      hide Marked, Queues.Valid, ToSleep, AcceptMany;
      var nothing := hookCount == 0 && !HasPendingWork();
      assert nothing <==> View(now).hooks == [] && !HasWork(View(now));
      StopWindow(now);
      hide Manager.View, Manager.Valid;
      if nothing {
        SetSleep(now);
      } else {
        EnterGrace(now);
        SubmitHooks(now);
      }
    }

    method StopWindow(ghost now: nat)
      requires Valid()
      modifies this`windowTimer, this`settleTimer
      ensures Valid() && View(now) == old(View(now)).(window := None, settle := None)
    {
      hide Marked, Queues.Valid;
      windowTimer, settleTimer := None, None;
    }

    method EnterGrace(now: nat)
      requires Valid()
      modifies this`mode, this`graceTimer, this`graceStart
      ensures Valid()
      ensures var s := old(View(now)); View(now) == s.(mode := Grace, grace := StartOnce(s.grace, now + GRACE_PERIOD), graceStart := now)
    {
      hide Marked, Queues.Valid;
      mode := Grace;
      graceTimer := StartOnce(graceTimer, now + GRACE_PERIOD);
      graceStart := now;
    }

    /** The hooks go to the system queue as work, in order, as far as there is room. */
    method SubmitHooks(ghost now: nat)
      requires Valid()
      modifies work.repr
      ensures Valid()
      ensures var s := old(View(now)); View(now) == s.(system := AcceptMany(s.system, |s.hooks|))
      ensures Carries(work.system.items, old(work.system.items), hooks[..hookCount])
    {
      hide Marked, Queues.Valid;
      ghost var before, items := work.System(), work.system.items;
      var i := 0;
      while i < hookCount
        invariant i <= hookCount && Valid() && hooks[..] == old(hooks[..])
        invariant work.System() == AcceptMany(before, i) && work.User() == old(work.User())
        invariant Carries(work.system.items, items, hooks[..i])
        invariant |work.system.items| == |items| + i || |work.System().queue| >= MAX_WORK
      {
        ghost var was := work.system.items;
        var ok := work.SendSystem(Work(HOOK_ADAPTER, hooks[i]), false);
        CarriesOne(was, work.system.items, items, hooks[..i], hooks[i]);
        assert hooks[..i + 1] == hooks[..i] + [hooks[i]];
        i := i + 1;
      }
    }

    /** tick_event_cb for the work tick, and the window it opens (start_work_cb). */
    method WorkTickEvent(now: nat)
      requires Valid()
      modifies this, working, work.repr
      ensures Valid() && View(now) == Ticked(old(View(now)))
    {
      hide Activate, Recorded, Manager.View, Manager.Valid;
      TickArrives(now);
      OpenWindow(now);
    }

    method TickArrives(now: nat)
      requires Valid()
      modifies this`lastTick, this`nextTick
      ensures Valid() && View(now) == Recorded(old(View(now)))
    {
      hide Marked, Queues.Valid;
      lastTick, nextTick := Some(now), Some(now + TICK);
    }

    /** set_runtime_state to the active state asked for. */
    method OpenWindow(now: nat)
      requires Valid()
      modifies this, working, work.repr
      ensures Valid() && View(now) == Activate(old(View(now)))
    {
      assert View(now).mode == mode;
      hide Manager.View, Manager.Valid, Evaluate, Armed;
      if mode == Sleep {
        ArmWindow(now);
        EvaluateEarlyCurfew(now);
      }
    }

    method ArmWindow(now: nat)
      requires Valid()
      modifies this`mode, this`windowStart, this`limit, this`windowTimer
      ensures Valid() && View(now) == Armed(old(View(now)))
    {
      hide Marked, Queues.Valid;
      mode := if uiNext then UiActive else BackgroundActive;
      windowStart := now;
      var duration := if mode == UiActive then UI_WINDOW else BACKGROUND_WINDOW;
      limit := duration;
      windowTimer := StartOnce(windowTimer, now + duration);
    }

    /** work_window_expiry_cb. */
    method WindowExpiry(now: nat)
      requires Valid()
      modifies this, working, work.repr
      ensures Valid() && View(now) == WindowExpired(old(View(now)))
    {
      hide BeginCurfew, Marked, Queues.Valid;
      windowTimer := None;
      if mode == BackgroundActive || mode == UiActive {
        hide Manager.View, Manager.Valid;
        BeginCurfewUnsafe(now);
      }
    }

    /** grace_period_expiry_cb. */
    method GraceExpiry(now: nat)
      requires Valid()
      modifies this, working, work.repr
      ensures Valid() && View(now) == GraceExpired(old(View(now)))
    {
      hide ToSleep, Clear, Marked, Queues.Valid;
      graceTimer := None;
      if mode == Grace {
        work.ResetUser();
        hide Manager.View, Manager.Valid;
        SetSleep(now);
      }
    }

    /** curfew_settlement_expiry_cb. */
    method SettlementExpiry(now: nat)
      requires Valid()
      modifies this, working, work.repr
      ensures Valid() && View(now) == SettlementExpired(old(View(now)))
    {
      hide ToSleep, BeginCurfew, Marked, Queues.Valid;
      var idle := !HasPendingWork();
      settleTimer := None;
      var state := mode;
      hide Manager.View, Manager.Valid;
      if state == BackgroundActive || state == UiActive {
        if idle {
          BeginCurfewUnsafe(now);
        }
      } else if state == Grace {
        if idle {
          SetSleep(now);
        }
      }
    }

    /** schedule_user_work: held back during the grace period. */
    method ScheduleUserWork(w: Work, ghost now: nat) returns (ok: bool)
      requires Valid()
      modifies work.repr
      ensures Valid() && View(now) == UserScheduled(old(View(now)))
      ensures work.user.items == old(work.user.items) + (if ok then [w] else [])
    {
      hide Marked, Queues.Valid, Accept, HoldBack;
      ok := work.SendUser(w, mode == Grace);
    }

    /** schedule_system_work. */
    method ScheduleSystemWork(w: Work, ghost now: nat) returns (ok: bool)
      requires Valid()
      modifies work.repr
      ensures Valid() && View(now) == SystemScheduled(old(View(now)))
      ensures work.system.items == old(work.system.items) + (if ok then [w] else [])
    {
      hide Marked, Queues.Valid, Accept, HoldBack;
      ok := work.SendSystem(w, mode == Grace);
    }

    /** The first half of the worker loop: an item is received, the worker counted and the settlement
        timer stopped. */
    method WorkerTake(i: nat, ghost now: nat) returns (w: Work)
      requires Valid() && i < POOL && !working[i] && LaneOf(View(now), i).queue != []
      modifies this`active, this`settleTimer, this`held, working, work.repr
      ensures Valid() && View(now) == Taken(old(View(now)), i)
      ensures var items := if i < USER_WORKERS then work.user.items else work.system.items;
              var id := LaneOf(old(View(now)), i).queue[0];
              id < |items| && w == items[id]
    {
      hide Queues.Valid, Take, Marked;
      ghost var id := LaneOf(View(now), i).queue[0];
      w := work.Receive(i < USER_WORKERS);
      CountIn(i, id, now);
    }

    method CountIn(i: nat, ghost id: nat, ghost now: nat)
      requires Valid() && i < POOL
      modifies this`active, this`settleTimer, this`held, working
      ensures Valid()
      ensures var s := old(View(now)); View(now) == s.(workers := s.workers[i := Some(id)], active := s.active + 1, settle := None)
    {
      hide Queues.Valid, Marked;
      active := active + 1;
      settleTimer := None;
      Mark(i, true, Some(id));
    }

    method Mark(i: nat, busy: bool, ghost id: Option<nat>)
      requires Marked(held) && i < working.Length && busy == id.Some?
      modifies working, this`held
      ensures Marked(held) && held == old(held)[i := id]
    {
      working[i] := busy;
      held := held[i := id];
    }

    /** The second half: the last worker to finish evaluates the curfew. */
    method WorkerFinish(i: nat, now: nat)
      requires Valid() && i < POOL
      modifies this, working
      ensures Valid() && View(now) == Finished(old(View(now)), i)
    {
      hide Evaluate, Killed;
      var last := active == 1;
      assert last <==> View(now).active == 1;
      hide Manager.View, Manager.Valid;
      Release(i, now);
      if last {
        EvaluateEarlyCurfew(now);
      }
    }

    method Release(i: nat, ghost now: nat)
      requires Valid() && i < POOL
      modifies this`active, this`held, working
      ensures Valid() && View(now) == Killed(old(View(now)), i)
    {
      hide Queues.Valid, Marked;
      active := active - 1;
      Mark(i, false, None);
    }

    /** worker_hard_abort_cb: the worker is replaced and nothing is evaluated. */
    method WatchdogKill(i: nat, ghost now: nat)
      requires Valid() && i < POOL
      modifies this`active, this`held, working
      ensures Valid() && View(now) == Killed(old(View(now)), i)
    {
      Release(i, now);
    }

    /** runtime_manager_register_hook. */
    method RegisterCurfewHook(h: int, ghost now: nat) returns (ok: bool)
      requires Valid()
      modifies hooks, this`hookCount
      ensures Valid() && View(now) == HookRegistered(old(View(now)), h) && (ok <==> old(hookCount) < MAX_HOOKS)
    {
      hide Marked, Queues.Valid;
      if hookCount >= MAX_HOOKS {
        return false;
      }
      hooks[hookCount] := h;
      hookCount := hookCount + 1;
      ok := true;
    }

    /** runtime_manager_unregister_hook. */
    method UnregisterCurfewHook(h: int, ghost now: nat) returns (found: bool)
      requires Valid()
      modifies hooks, this`hookCount
      ensures Valid() && View(now) == old(View(now)).(hooks := Unregistered(old(View(now)).hooks, h))
      ensures found <==> h in old(hooks[..hookCount])
    {
      hide Marked, Queues.Valid, Unregistered;
      found := ShiftOut(h);
    }

    /** From the first match on, each entry takes its successor's place. */
    method ShiftOut(h: int) returns (found: bool)
      requires hookCount <= hooks.Length
      modifies hooks, this`hookCount
      ensures hookCount <= old(hookCount) && hooks[..hookCount] == Unregistered(old(hooks[..hookCount]), h)
      ensures found <==> h in old(hooks[..hookCount])
    {
      found := false;
      ghost var list := hooks[..hookCount];
      ghost var first := 0;
      var i := 0;
      while i < hookCount
        invariant i <= hookCount && |list| == hookCount
        invariant if found then first < i && list[first] == h else first == i
        invariant forall k :: 0 <= k < first ==> list[k] != h && hooks[k] == list[k]
        invariant forall k :: first <= k < i ==> k + 1 < hookCount ==> hooks[k] == list[k + 1]
        invariant forall k :: i <= k < hookCount ==> hooks[k] == list[k]
      {
        if hooks[i] == h && !found {
          found := true;
        } else if !found {
          first := i + 1;
        }
        if found && i != hookCount - 1 {
          hooks[i] := hooks[i + 1];
        }
        i := i + 1;
      }
      FirstRemoved(list, h, first);
      if found {
        hookCount := hookCount - 1;
      }
      assert hooks[..hookCount] == Unregistered(list, h);
    }

    /** runtime_manager_set_active_state. */
    method SetActive(ui: bool, ghost now: nat)
      requires Valid()
      modifies this`uiNext
      ensures Valid() && View(now) == old(View(now)).(uiNext := ui)
    {
      hide Marked, Queues.Valid;
      uiNext := ui;
    }

    /** tick_manager_generate_tick and tick_manager_stop_tick for the work tick. */
    method GenerateTicks(now: nat)
      requires Valid()
      modifies this`nextTick
      ensures Valid() && View(now) == old(View(now)).(nextTick := StartOnce(old(nextTick), now + TICK))
    {
      hide Marked, Queues.Valid;
      nextTick := StartOnce(nextTick, now + TICK);
    }

    method StopWorkTicks(ghost now: nat)
      requires Valid()
      modifies this`nextTick, this`lastTick
      ensures Valid() && View(now) == old(View(now)).(nextTick := None, lastTick := None)
    {
      hide Marked, Queues.Valid;
      nextTick, lastTick := None, None;
    }

    /** tick_manager_shift_work_tick. */
    method ShiftWorkTick(delta: nat, now: nat) returns (ok: bool)
      requires Valid()
      modifies this`nextTick
      ensures Valid() && View(now) == TickShifted(old(View(now)), delta) && (ok <==> lastTick.Some?)
    {
      hide Marked, Queues.Valid;
      if lastTick == None {
        return false;
      }
      var at := lastTick.value + TICK + delta;
      nextTick := Some(if now > at then now else at);
      ok := true;
    }
  }

  /** What was added to `before` is work for the first hooks, in order. */
  ghost predicate Carries(items: seq<Work>, before: seq<Work>, hooks: seq<int>)
  {
    && before <= items && |items| <= |before| + |hooks|
    && forall k :: |before| <= k < |items| ==> items[k] == Work(HOOK_ADAPTER, hooks[k - |before|])
  }

  lemma CarriesOne(was: seq<Work>, items: seq<Work>, before: seq<Work>, hooks: seq<int>, h: int)
    requires Carries(was, before, hooks)
    requires items == was || (items == was + [Work(HOOK_ADAPTER, h)] && |was| == |before| + |hooks|)
    ensures Carries(items, before, hooks + [h])
  {
  }

  // ----- The manager driven by its environment -----

  /** The call or callback an event stands for; `w` is the work of a schedule call. */
  method Dispatch(m: Manager, e: Event, w: Work, now: nat) returns (later: nat)
    requires m.Valid() && Possible(m.View(now), e)
    modifies m, m.hooks, m.working, m.work.repr
    ensures m.Valid() && m.View(later) == Apply(old(m.View(now)), e)
  {
    hide Ticked, WindowExpired, GraceExpired, SettlementExpired, UserScheduled, SystemScheduled, Taken, Finished, Killed,
         HookRegistered, TickShifted, Unregistered, Queues.Valid;
    later := now;
    match e {
      case Pass(until) => later := until;
      case WorkTick => m.WorkTickEvent(now);
      case WindowExpires => m.WindowExpiry(now);
      case GraceExpires => m.GraceExpiry(now);
      case SettlementExpires => m.SettlementExpiry(now);
      case ScheduleUser => var ok := m.ScheduleUserWork(w, now);
      case ScheduleSystem => var ok := m.ScheduleSystemWork(w, now);
      case WorkerTakes(i) => var item := m.WorkerTake(i, now);
      case WorkerFinishes(i) => m.WorkerFinish(i, now);
      case WatchdogKills(i) => m.WatchdogKill(i, now);
      case RegisterHook(h) => var ok := m.RegisterCurfewHook(h, now);
      case UnregisterHook(h) => var found := m.UnregisterCurfewHook(h, now);
      case SetActiveState(ui) => m.SetActive(ui, now);
      case StartTicks => m.GenerateTicks(now);
      case StopTicks => m.StopWorkTicks(now);
      case ShiftTick(delta) => var ok := m.ShiftWorkTick(delta, now);
    }
  }

  /** A manager driven from start-up through any events that can happen, in whatever order: it passes
      through the states of the execution, its timers are those of its mode, it is never awake for more
      than 900 ms, and every item it accepted is in exactly one place. */
  method Drive(start: nat, es: seq<Event>, works: seq<Work>, ghost ss: seq<Sched>) returns (m: Manager, now: nat)
    requires |works| == |es| && Execution(ss, es) && ss[0].now == start
    ensures m.Valid() && m.View(now) == ss[|es|]
    ensures Promised(m.View(now)) && (Idling(m.View(now)) ==> (m.settleTimer.Some? <==> !Stranded(ss, es, |es|)))
  {
    m := new Manager(start);
    now := start;
    var i := 0;
    while i < |es|
      invariant i <= |es| && m.Valid() && m.View(now) == ss[i]
      invariant fresh(m) && fresh(m.hooks) && fresh(m.working) && fresh(m.work.repr)
    {
      hide Apply, Possible;
      now := Dispatch(m, es[i], works[i], now);
      i := i + 1;
    }
    FinalState(ss, es);
    IdleSettlesIff(ss, es, |es|);
  }

  /** What holds of the manager at any time. */
  ghost predicate Promised(s: Sched)
  {
    && (s.mode == Sleep ==> s.window == None && s.grace == None && s.settle == None && s.active == 0)
    && (s.mode == Grace ==> s.window == None && s.grace.Some?)
    && (Windowed(s) ==> s.window.Some? && s.grace == None)
    && (Awake(s) ==> s.now - s.windowStart <= 900000)
    && s.active == Busy(s.workers)
    && OnePlaceEach(s.user) && OnePlaceEach(s.system)
  }

  lemma FinalState(ss: seq<Sched>, es: seq<Event>)
    requires Execution(ss, es)
    ensures Promised(ss[|es|])
  {
    Reachable(ss, es, |es|);
    var s := ss[|es|];
    hide Execution, LaneInv, Busy, OnePlaceEach;
    LaneAccounted(s.user);
    LaneAccounted(s.system);
    if Awake(s) {
      AwakeIsShort(s);
    }
  }

  /** Element by element, what removing the first occurrence leaves. */
  lemma {:induction false} FirstRemoved(list: seq<int>, h: int, first: nat)
    requires first <= |list| && (forall k :: 0 <= k < first ==> list[k] != h) && (first < |list| ==> list[first] == h)
    ensures var r := Unregistered(list, h);
            && |r| == (if first < |list| then |list| - 1 else |list|)
            && (forall k :: 0 <= k < first ==> r[k] == list[k])
            && (forall k :: first <= k < |r| ==> r[k] == list[k + 1])
  {
    if list != [] && first > 0 {
      FirstRemoved(list[1..], h, first - 1);
    }
  }
}
