/** The bounded FIFO of components/common/src/ring_buffer.c. */
module RingBuffer {

  datatype Overflow = DropNewest | DropOldest

  /** What a push does to the queue as a sequence, oldest element first. */
  function Pushed<T>(q: seq<T>, capacity: nat, policy: Overflow, x: T): seq<T>
  {
    if |q| < capacity then q + [x]
    else if policy == DropNewest || q == [] then q
    else q[1..] + [x]
  }

  class Ring<T(0)> {
    const storage: array<T>
    const policy: Overflow
    var readIdx: nat
    var writeIdx: nat
    var count: nat

    ghost predicate Valid()
      reads this
    {
      && 1 <= storage.Length
      && readIdx < storage.Length && writeIdx < storage.Length && count <= storage.Length
      && writeIdx == if readIdx + count < storage.Length then readIdx + count else readIdx + count - storage.Length
    }

    ghost function Contents(): (q: seq<T>)
      requires Valid()
      reads this, storage
      ensures |q| == count
    {
      if readIdx + count <= storage.Length then storage[readIdx..readIdx + count]
      else storage[readIdx..] + storage[..readIdx + count - storage.Length]
    }

    constructor (capacity: nat, overflow: Overflow)
      requires 1 <= capacity
      ensures Valid() && Contents() == [] && storage.Length == capacity && policy == overflow && fresh(storage)
    {
      storage := new T[capacity];
      policy := overflow;
      readIdx, writeIdx, count := 0, 0, 0;
    }

    /** ringbuf_init, which refuses a buffer without room. */
    static method Init(capacity: nat, overflow: Overflow) returns (rb: Ring?<T>)
      ensures rb == null <==> capacity < 1
      ensures rb != null ==> fresh(rb) && fresh(rb.storage) && rb.Valid() && rb.Contents() == []
      ensures rb != null ==> rb.storage.Length == capacity && rb.policy == overflow
    {
      if capacity < 1 {
        return null;
      }
      rb := new Ring(capacity, overflow);
    }

    /** ringbuf_next: wrapping is the only way back to the start. */
    method Next(index: nat) returns (next: nat)
      requires index < storage.Length
      ensures next == if index + 1 < storage.Length then index + 1 else 0
    {
      next := (index + 1) % storage.Length;
    }

    /** Drops the oldest element. */
    method Advance()
      requires Valid() && count > 0
      modifies this
      ensures Valid() && Contents() == old(Contents())[1..] && writeIdx == old(writeIdx)
    {
      readIdx := Next(readIdx);
      count := count - 1;
    }

    method Clear()
      requires Valid()
      modifies this
      ensures Valid() && Contents() == []
    {
      readIdx, writeIdx, count := 0, 0, 0;
    }

    method Pop() returns (ok: bool, x: T)
      requires Valid()
      modifies this
      ensures Valid()
      ensures ok <==> old(Contents()) != []
      ensures ok ==> [x] + Contents() == old(Contents())
      ensures !ok ==> Contents() == []
    {
      if count == 0 {
        x := storage[readIdx];
        return false, x;
      }
      x := storage[readIdx];
      Advance();
      ok := true;
    }

    /** Writes behind the newest element. */
    method Store(x: T)
      requires Valid() && count < storage.Length
      modifies this`writeIdx, this`count, storage
      ensures Valid() && Contents() == old(Contents()) + [x]
    {
      storage[writeIdx] := x;
      writeIdx := Next(writeIdx);
      count := count + 1;
    }

    method Push(x: T) returns (ok: bool)
      requires Valid()
      modifies this, storage
      ensures Valid()
      ensures ok <==> policy == DropOldest || |old(Contents())| < storage.Length
      ensures Contents() == Pushed(old(Contents()), storage.Length, policy, x)
    {
      if count == storage.Length {
        match policy
        case DropNewest =>
          return false;
        case DropOldest =>
          Advance();
      }
      Store(x);
      ok := true;
    }
  }

  // ----- Every interleaving of push, pop and clear on a drop-oldest buffer -----

  datatype Op<T> = Push(x: T) | Pop | Clear

  /** The queue together with everything ever pushed and popped. */
  datatype Log<T> = Log(q: seq<T>, pushed: seq<T>, popped: seq<T>)

  function Step<T>(s: Log<T>, capacity: nat, op: Op<T>): Log<T>
  {
    match op
    case Push(x) => Log(Pushed(s.q, capacity, DropOldest, x), s.pushed + [x], s.popped)
    case Pop => if s.q == [] then s else Log(s.q[1..], s.pushed, s.popped + [s.q[0]])
    case Clear => s.(q := [])
  }

  function Run<T>(capacity: nat, ops: seq<Op<T>>): Log<T>
  {
    if ops == [] then Log([], [], []) else Step(Run(capacity, ops[..|ops| - 1]), capacity, ops[|ops| - 1])
  }

  /** How many of the pushes happened before the last clear. */
  function ClearedBefore<T>(ops: seq<Op<T>>): nat
  {
    if ops == [] then 0
    else if ops[|ops| - 1].Clear? then |Run(1, ops).pushed|
    else ClearedBefore(ops[..|ops| - 1])
  }

  ghost predicate Increasing(idx: seq<nat>)
  {
    forall i, j :: 0 <= i < j < |idx| ==> idx[i] < idx[j]
  }

  /** `idx` says which push each popped value came from, and `head` where the queue starts. */
  ghost predicate Explains<T>(s: Log<T>, capacity: nat, base: nat, head: nat, idx: seq<nat>)
  {
    && base <= head <= |s.pushed| && s.q == s.pushed[head..] && |s.q| <= capacity
    && |idx| == |s.popped| && Increasing(idx)
    && (forall i :: 0 <= i < |idx| ==> idx[i] < head && s.popped[i] == s.pushed[idx[i]])
    && (forall j :: base <= j < head ==> j in idx || j + capacity < |s.pushed|)
  }

  /** The queue is a suffix of what was pushed since the last clear; pops come out in push order,
      each push at most once; and an element of the current suffix leaves unpopped only after
      `capacity` newer ones were pushed. */
  lemma {:induction false} ContentsAreLatestPushes<T>(capacity: nat, ops: seq<Op<T>>) returns (head: nat, idx: seq<nat>)
    requires 1 <= capacity
    ensures Explains(Run(capacity, ops), capacity, ClearedBefore(ops), head, idx)
  {
    if ops == [] {
      head, idx := 0, [];
    } else {
      var before, op := ops[..|ops| - 1], ops[|ops| - 1];
      head, idx := ContentsAreLatestPushes(capacity, before);
      var s := Run(capacity, before);
      match op
      case Push(x) =>
        head := if |s.q| < capacity then head else head + 1;
      case Pop =>
        if s.q != [] {
          var older := idx;
          idx := older + [head];
          assert forall j :: j in older || j == head ==> j in idx;
          head := head + 1;
        }
      case Clear =>
        PushesIgnoreCapacity(capacity, ops);
        head := |s.pushed|;
    }
  }

  lemma {:induction false} PushesIgnoreCapacity<T>(capacity: nat, ops: seq<Op<T>>)
    ensures Run(capacity, ops).pushed == Run(1, ops).pushed
  {
    if ops != [] {
      PushesIgnoreCapacity(capacity, ops[..|ops| - 1]);
    }
  }
}
