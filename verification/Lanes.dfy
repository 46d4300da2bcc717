/** One class of work in components/runtime_manager: a bounded queue the workers take from, and a
    bounded queue that holds back what is submitted during the grace period. Items are numbered in
    the order of acceptance, and the lane remembers what became of each. */
module Lanes {
  import opened Seqs

  const MAX_WORK: nat := 10
  const MAX_PENDING: nat := 5

  datatype Lane = Lane(queue: seq<nat>, pending: seq<nat>, accepted: nat, taken: seq<nat>, dropped: seq<nat>)

  const EMPTY := Lane([], [], 0, [], [])

  /** xQueueSend to the main queue. */
  function Accept(l: Lane): Lane
  {
    if |l.queue| < MAX_WORK then l.(queue := l.queue + [l.accepted], accepted := l.accepted + 1) else l
  }

  /** xQueueSend to the pending queue. */
  function HoldBack(l: Lane): Lane
  {
    if |l.pending| < MAX_PENDING then l.(pending := l.pending + [l.accepted], accepted := l.accepted + 1) else l
  }

  /** `n` items accepted one after the other. */
  function AcceptMany(l: Lane, n: nat): Lane { if n == 0 then l else Accept(AcceptMany(l, n - 1)) }

  function Take(l: Lane): Lane
    requires l.queue != []
  {
    l.(queue := l.queue[1..], taken := l.taken + [l.queue[0]])
  }

  /** xQueueReset of the main queue. */
  function Clear(l: Lane): Lane { l.(queue := [], dropped := l.dropped + l.queue) }

  /** drain_pending_queue: what no longer fits is lost. */
  function Drain(l: Lane): Lane
  {
    var all := l.queue + l.pending;
    var k := if |all| < MAX_WORK then |all| else MAX_WORK;
    l.(queue := all[..k], pending := [], dropped := l.dropped + all[k..])
  }

  /** Every accepted item is in exactly one place, and what was taken, is queued and is held back
      stands in the order of acceptance. */
  ghost predicate LaneInv(l: Lane)
  {
    && |l.queue| <= MAX_WORK && |l.pending| <= MAX_PENDING
    && multiset(l.taken) + multiset(l.dropped) + multiset(l.queue) + multiset(l.pending) == AllIds(l.accepted)
    && Ordered(l.taken + l.queue + l.pending, l.accepted)
  }

  /** In how many places the item numbered `id` is. */
  ghost function Places(l: Lane, id: nat): nat
  {
    multiset(l.taken)[id] + multiset(l.dropped)[id] + multiset(l.queue)[id] + multiset(l.pending)[id]
  }

  /** Every accepted item, and no other, is in one place. */
  ghost predicate OnePlaceEach(l: Lane)
  {
    forall id: nat :: Places(l, id) == if id < l.accepted then 1 else 0
  }

  lemma LaneAccounted(l: Lane)
    requires LaneInv(l)
    ensures OnePlaceEach(l)
  {
    forall id: nat
      ensures Places(l, id) == if id < l.accepted then 1 else 0
    {
      AllIdsOnce(l.accepted, id);
      assert (multiset(l.taken) + multiset(l.dropped) + multiset(l.queue) + multiset(l.pending))[id] == AllIds(l.accepted)[id];
    }
  }

  lemma AcceptKeeps(l: Lane)
    requires LaneInv(l) && l.pending == []
    ensures LaneInv(Accept(l))
  {
    if |l.queue| < MAX_WORK {
      AcceptOrdered(l);
      AcceptCounted(l);
      hide Ordered, AllIds;
    }
  }

  lemma AcceptOrdered(l: Lane)
    requires LaneInv(l) && l.pending == [] && |l.queue| < MAX_WORK
    ensures var r := Accept(l); Ordered(r.taken + r.queue + r.pending, r.accepted)
  {
    hide AllIds, Ordered;
    var s := l.taken + l.queue;
    Empty(s);
    OrderedSnoc(s, l.accepted);
    Assoc(l.taken, l.queue, [l.accepted]);
    Empty(s + [l.accepted]);
  }

  lemma AcceptCounted(l: Lane)
    requires LaneInv(l) && |l.queue| < MAX_WORK
    ensures var r := Accept(l);
            multiset(r.taken) + multiset(r.dropped) + multiset(r.queue) + multiset(r.pending) == AllIds(r.accepted)
  {
    hide Ordered, AllIds;
    AllIdsNext(l.accepted);
    AddOne(multiset(l.taken), multiset(l.dropped), multiset(l.queue), multiset(l.pending), l.accepted);
    assert multiset(l.queue + [l.accepted]) == multiset(l.queue) + multiset{l.accepted};
  }

  lemma AddOne(t: multiset<nat>, d: multiset<nat>, q: multiset<nat>, p: multiset<nat>, x: nat)
    ensures t + d + (q + multiset{x}) + p == t + d + q + p + multiset{x}
  {
  }

  lemma {:induction false} AcceptManyKeeps(l: Lane, n: nat)
    requires LaneInv(l) && l.pending == []
    ensures LaneInv(AcceptMany(l, n)) && AcceptMany(l, n).pending == []
    ensures n > 0 ==> AcceptMany(l, n).queue != []
    ensures l.queue <= AcceptMany(l, n).queue && AcceptMany(l, n).dropped == l.dropped
  {
    hide LaneInv;
    if n > 0 {
      AcceptManyKeeps(l, n - 1);
      AcceptKeeps(AcceptMany(l, n - 1));
    }
  }

  lemma HoldBackKeeps(l: Lane)
    requires LaneInv(l)
    ensures LaneInv(HoldBack(l))
  {
    if |l.pending| < MAX_PENDING {
      OrderedSnoc(l.taken + l.queue + l.pending, l.accepted);
      Assoc(l.taken + l.queue, l.pending, [l.accepted]);
    }
  }

  lemma TakeKeeps(l: Lane)
    requires LaneInv(l) && l.queue != []
    ensures LaneInv(Take(l))
  {
    var t := Take(l);
    assert l.queue == [l.queue[0]] + l.queue[1..];
    assert t.taken + t.queue + t.pending == l.taken + l.queue + l.pending;
  }

  /** A reset followed by a drain keeps everything that was held back and drops only the queue. */
  lemma ClearDrainKeeps(l: Lane)
    requires LaneInv(l)
    ensures LaneInv(Drain(Clear(l)))
    ensures Drain(Clear(l)).queue == l.pending && Drain(Clear(l)).dropped == l.dropped + l.queue
  {
    var all := [] + l.pending;
    Empty(l.pending);
    var d := Drain(Clear(l));
    assert all[|all|..] == [] && all[..|all|] == all;
    Empty(l.dropped + l.queue);
    OrderedWithout(l.taken, l.queue, l.pending, l.accepted);
    Empty(l.taken + l.pending);
  }

  /** A drain drops items only if queue and held-back items together exceed the queue's capacity,
      and then only the latest. */
  lemma DrainKeeps(l: Lane)
    requires LaneInv(l)
    ensures LaneInv(Drain(l))
    ensures Drain(l).dropped != l.dropped <==> |l.queue| + |l.pending| > MAX_WORK
    ensures var d := Drain(l); d.queue + d.dropped[|l.dropped|..] == l.queue + l.pending && l.dropped <= d.dropped
  {
    var all, d := l.queue + l.pending, Drain(l);
    var kept, lost := d.queue, all[|d.queue|..];
    Cut(all, |kept|);
    assert all[..|kept|] == kept && d.dropped == l.dropped + lost;
    Split(l.dropped, lost);
    hide Ordered, AllIds;
    Assoc(l.taken, l.queue, l.pending);
    Assoc(l.taken, kept, lost);
    OrderedWithout(l.taken, kept, lost, l.accepted);
    Empty(l.taken + kept);
    assert multiset(l.queue) + multiset(l.pending) == multiset(kept) + multiset(lost) by {
      assert multiset(all) == multiset(kept + lost);
    }
    assert multiset(d.dropped) == multiset(l.dropped) + multiset(lost);
    assert Ordered(d.taken + d.queue + d.pending, d.accepted);
    Shuffle(multiset(l.taken), multiset(l.dropped), multiset(l.queue), multiset(l.pending), multiset(kept), multiset(lost));
    assert multiset(d.pending) == multiset{};
  }

  lemma Shuffle(t: multiset<nat>, d: multiset<nat>, q: multiset<nat>, p: multiset<nat>, kept: multiset<nat>, lost: multiset<nat>)
    requires q + p == kept + lost
    ensures t + (d + lost) + kept + multiset{} == t + d + q + p
  {
    assert t + d + q + p == t + d + (q + p);
    assert t + d + (kept + lost) == t + (d + lost) + kept;
  }
}
