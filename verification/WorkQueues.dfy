/** The two FreeRTOS queues of one class of work in components/runtime_manager, as ring buffers that
    refuse what does not fit. Each item keeps, in ghost state, the number under which it was accepted;
    seen through these numbers the queues are a lane. */
module WorkQueues {
  import opened RingBuffer
  import opened Lanes
  import opened Seqs

  datatype Work = Work(handler: int, arg: int)

  /** The stored items are those accepted under the given numbers. */
  ghost predicate Stands(contents: seq<Work>, ids: seq<nat>, items: seq<Work>)
  {
    |contents| == |ids| && forall k :: 0 <= k < |ids| ==> ids[k] < |items| && contents[k] == items[ids[k]]
  }

  lemma StandsLength(contents: seq<Work>, ids: seq<nat>, items: seq<Work>)
    requires Stands(contents, ids, items)
    ensures |contents| == |ids|
  {
  }

  lemma StandsTail(w: Work, rest: seq<Work>, contents: seq<Work>, ids: seq<nat>, items: seq<Work>)
    requires Stands(contents, ids, items) && [w] + rest == contents && ids != []
    ensures Stands(rest, ids[1..], items) && ids[0] < |items| && w == items[ids[0]]
  {
    assert forall k :: 0 <= k < |rest| ==> rest[k] == contents[k + 1];
  }

  class WorkLane {
    const queue: Ring<Work>
    const pending: Ring<Work>
    ghost var items: seq<Work>
    ghost var queueIds: seq<nat>
    ghost var pendingIds: seq<nat>
    ghost var taken: seq<nat>
    ghost var dropped: seq<nat>

    ghost const repr: set<object>

    ghost predicate Valid()
      reads this, repr
    {
      && repr == {queue, queue.storage, pending, pending.storage} && this !in repr
      && queue.Valid() && pending.Valid() && queue != pending && queue.storage != pending.storage
      && queue.storage.Length == MAX_WORK && pending.storage.Length == MAX_PENDING
      && queue.policy == DropNewest && pending.policy == DropNewest
      && Stands(queue.Contents(), queueIds, items) && Stands(pending.Contents(), pendingIds, items)
    }

    ghost function View(): Lane
      reads this
    {
      Lane(queueIds, pendingIds, |items|, taken, dropped)
    }

    constructor ()
      ensures Valid() && View() == EMPTY && fresh(repr)
    {
      var q := new Ring(MAX_WORK, DropNewest);
      var p := new Ring(MAX_PENDING, DropNewest);
      queue, pending := q, p;
      repr := {q, q.storage, p, p.storage};
      items, queueIds, pendingIds, taken, dropped := [], [], [], [], [];
    }

    /** xQueueSend to the queue the workers take from. */
    method Send(w: Work) returns (ok: bool)
      requires Valid()
      modifies this, repr
      ensures Valid() && View() == Accept(old(View()))
      ensures items == if ok then old(items) + [w] else old(items)
    {
      hide Ring.Contents;
      ok := queue.Push(w);
      if ok {
        queueIds := queueIds + [|items|];
        items := items + [w];
      }
    }

    /** xQueueSend to the queue of work held back. */
    method SendPending(w: Work) returns (ok: bool)
      requires Valid()
      modifies this, repr
      ensures Valid() && View() == HoldBack(old(View()))
      ensures items == if ok then old(items) + [w] else old(items)
    {
      hide Ring.Contents;
      ok := pending.Push(w);
      if ok {
        pendingIds := pendingIds + [|items|];
        items := items + [w];
      }
    }

    /** xQueueReceive by a worker: it gets the item accepted under the number at the front. */
    method Receive() returns (w: Work)
      requires Valid() && View().queue != []
      modifies this, repr
      ensures Valid() && View() == Take(old(View()))
      ensures old(queueIds)[0] < |items| && w == items[old(queueIds)[0]] && items == old(items)
    {
      hide Stands, Ring.Contents;
      ghost var before := queue.Contents();
      StandsLength(before, queueIds, items);
      var ok;
      ok, w := queue.Pop();
      StandsTail(w, queue.Contents(), before, queueIds, items);
      taken := taken + [queueIds[0]];
      queueIds := queueIds[1..];
    }

    /** xQueueReset. */
    method Reset()
      requires Valid()
      modifies this, repr
      ensures Valid() && View() == Lanes.Clear(old(View())) && items == old(items)
    {
      queue.Clear();
      dropped := dropped + queueIds;
      queueIds := [];
    }

    /** xQueueReceive from the queue of work held back. */
    method ReceivePending() returns (ok: bool, w: Work)
      requires Valid()
      modifies this, repr
      ensures Valid() && items == old(items) && ok == (old(pendingIds) != [])
      ensures if ok then old(pendingIds)[0] < |items| && w == items[old(pendingIds)[0]] && pendingIds == old(pendingIds)[1..]
              else pendingIds == []
      ensures View() == old(View()).(pending := pendingIds) && |queueIds| <= MAX_WORK
    {
      hide Stands, Ring.Contents;
      ghost var before := pending.Contents();
      StandsLength(before, pendingIds, items);
      StandsLength(queue.Contents(), queueIds, items);
      ok, w := pending.Pop();
      if ok {
        StandsTail(w, pending.Contents(), before, pendingIds, items);
        pendingIds := pendingIds[1..];
      }
    }

    /** xQueueSend of an item that was held back. */
    method Resend(w: Work, ghost id: nat)
      requires Valid() && id < |items| && items[id] == w
      modifies this, repr
      ensures Valid() && items == old(items)
      ensures var l := old(View());
              View() == if |l.queue| < MAX_WORK then l.(queue := l.queue + [id]) else l.(dropped := l.dropped + [id])
      ensures |View().queue| <= MAX_WORK
    {
      hide Ring.Contents;
      var sent := queue.Push(w);
      if sent {
        queueIds := queueIds + [id];
      } else {
        dropped := dropped + [id];
      }
    }

    /** One turn of drain_pending_queue. */
    method MoveOne() returns (more: bool)
      requires Valid()
      modifies this, repr
      ensures Valid() && items == old(items) && Drain(View()) == Drain(old(View())) && |View().queue| <= MAX_WORK
      ensures if more then |View().pending| < |old(View()).pending| else View().pending == [] && View() == old(View())
    {
      hide WorkLane.Valid, Drain;
      ghost var before := View();
      var w;
      more, w := ReceivePending();
      if more {
        Resend(w, before.pending[0]);
        DrainOne(before, View());
      }
    }

    /** drain_pending_queue. */
    method DrainAll()
      requires Valid()
      modifies this, repr
      ensures Valid() && items == old(items) && View() == Drain(old(View()))
    {
      hide WorkLane.Valid, Drain;
      var more := true;
      while more
        invariant Valid() && items == old(items) && Drain(View()) == Drain(old(View()))
        invariant !more ==> View().pending == [] && |View().queue| <= MAX_WORK
        decreases more, |View().pending|
      {
        more := MoveOne();
      }
      NothingToDrain(View());
    }
  }

  /** All four queues. */
  class Queues {
    const user: WorkLane
    const system: WorkLane
    ghost const repr: set<object>

    ghost predicate Valid()
      reads repr
    {
      && repr == {user, system} + user.repr + system.repr && {user} + user.repr !! {system} + system.repr
      && user.Valid() && system.Valid()
    }

    ghost function User(): Lane
      reads user
    {
      user.View()
    }

    ghost function System(): Lane
      reads system
    {
      system.View()
    }

    constructor ()
      ensures Valid() && User() == EMPTY && System() == EMPTY && fresh(repr)
    {
      hide WorkLane.Valid;
      var u := new WorkLane();
      var s := new WorkLane();
      user, system := u, s;
      repr := {u, s} + u.repr + s.repr;
    }

    /** worker_pool_has_work, as far as the queues go. */
    predicate Waiting()
      requires Valid()
      reads repr
      ensures Waiting() == (System().queue != [] || User().queue != [])
    {
      system.queue.count > 0 || user.queue.count > 0
    }

    /** xQueueSend of user work, to the pending queue if it is to be held back. */
    method SendUser(w: Work, hold: bool) returns (ok: bool)
      requires Valid()
      modifies repr
      ensures Valid() && System() == old(System())
      ensures User() == if hold then HoldBack(old(User())) else Accept(old(User()))
      ensures ok == (User().accepted > old(User()).accepted) && user.items == old(user.items) + (if ok then [w] else [])
    {
      hide WorkLane.Valid;
      if hold {
        ok := user.SendPending(w);
      } else {
        ok := user.Send(w);
      }
    }

    method SendSystem(w: Work, hold: bool) returns (ok: bool)
      requires Valid()
      modifies repr
      ensures Valid() && User() == old(User())
      ensures System() == if hold then HoldBack(old(System())) else Accept(old(System()))
      ensures ok == (System().accepted > old(System()).accepted) && system.items == old(system.items) + (if ok then [w] else [])
    {
      hide WorkLane.Valid;
      if hold {
        ok := system.SendPending(w);
      } else {
        ok := system.Send(w);
      }
    }

    /** xQueueReceive by a worker of either class. */
    method Receive(fromUser: bool) returns (w: Work)
      requires Valid() && (if fromUser then User() else System()).queue != []
      modifies repr
      ensures Valid()
      ensures User() == if fromUser then Take(old(User())) else old(User())
      ensures System() == if fromUser then old(System()) else Take(old(System()))
      ensures var lane := if fromUser then user else system;
              var id := if fromUser then old(User()).queue[0] else old(System()).queue[0];
              id < |lane.items| && w == lane.items[id]
    {
      hide WorkLane.Valid;
      if fromUser {
        w := user.Receive();
      } else {
        w := system.Receive();
      }
    }

    /** xQueueReset of the user queue. */
    method ResetUser()
      requires Valid()
      modifies repr
      ensures Valid() && User() == Lanes.Clear(old(User())) && System() == old(System())
    {
      hide WorkLane.Valid;
      user.Reset();
    }

    method DrainBoth()
      requires Valid()
      modifies repr
      ensures Valid() && User() == Drain(old(User())) && System() == Drain(old(System()))
    {
      hide WorkLane.Valid;
      user.DrainAll();
      system.DrainAll();
    }
  }

  /** Moving or losing the first item held back leaves the outcome of the drain alone. */
  lemma DrainOne(l: Lane, r: Lane)
    requires |l.queue| <= MAX_WORK && l.pending != [] && r.pending == l.pending[1..] && r.accepted == l.accepted && r.taken == l.taken
    requires if |l.queue| < MAX_WORK then r.queue == l.queue + [l.pending[0]] && r.dropped == l.dropped
             else r.queue == l.queue && r.dropped == l.dropped + [l.pending[0]]
    ensures Drain(r) == Drain(l)
  {
    assert l.pending == [l.pending[0]] + r.pending;
    if |l.queue| < MAX_WORK {
      Assoc(l.queue, [l.pending[0]], r.pending);
    } else {
      Split(l.queue, l.pending);
      Split(l.queue, r.pending);
      Assoc(l.dropped, [l.pending[0]], r.pending);
    }
  }

  lemma NothingToDrain(r: Lane)
    requires r.pending == [] && |r.queue| <= MAX_WORK
    ensures Drain(r) == r
  {
    Empty(r.queue);
    Empty(r.dropped);
    assert r.queue[|r.queue|..] == [] && r.queue[..|r.queue|] == r.queue;
  }
}
