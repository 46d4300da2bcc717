/** components/state_manager/src/alarm_manager.c with its array and timer. Every method takes the
    clock reading it would obtain and is proved to do what `Alarms` says. */
module AlarmManager {
  import opened Basics
  import opened Alarms

  class Manager {
    const alarms: array<Alarm>
    var count: nat
    var timer: Option<nat>

    ghost predicate Valid()
      reads this
    {
      alarms.Length == CAPACITY && count <= CAPACITY
    }

    ghost function View(): State
      requires Valid()
      reads this, alarms
    {
      State(alarms[..count], timer)
    }

    constructor ()
      ensures Valid() && View() == State([], None) && fresh(alarms)
    {
      alarms := new Alarm[CAPACITY];
      count, timer := 0, None;
    }

    /** schedule_next_alarm_internal, for a list that is not empty. */
    method ScheduleNext(now: nat)
      requires Valid() && count > 0
      modifies this`timer
      ensures timer == Schedule(alarms[..count], now)
    {
      timer := None;
      var target := alarms[0].epoch;
      timer := if target > now + BUFFER then Some(target) else Some(now + BUFFER);
    }

    /** memmove of everything from `from` on to `to`, dropping what lies between. */
    method Close(to: nat, from: nat)
      requires Valid() && to <= from <= count
      modifies alarms, this`count
      ensures Valid() && alarms[..count] == old(alarms[..count])[..to] + old(alarms[..count])[from..]
    {
      ghost var list := alarms[..count];
      var k, n := from, count;
      while k < n
        invariant from <= k <= n == count
        invariant forall i :: 0 <= i < to ==> alarms[i] == list[i]
        invariant forall i :: to <= i < to + k - from ==> alarms[i] == list[i + from - to]
        invariant forall i :: k <= i < n ==> alarms[i] == list[i]
      {
        alarms[to + (k - from)] := alarms[k];
        k := k + 1;
      }
      count := to + (n - from);
      ClosedUp(alarms[..count], list, to, from);
    }

    method DiscardExpired(now: nat)
      requires Valid()
      modifies alarms, this`count
      ensures Valid() && alarms[..count] == Discard(old(alarms[..count]), now)
    {
      var valid := 0;
      ghost var list := alarms[..count];
      assert list[0..] == list;
      while valid < count && alarms[valid].epoch <= now + BUFFER
        invariant valid <= count && Discard(list, now) == Discard(list[valid..], now)
      {
        assert list[valid..][1..] == list[valid + 1..];
        valid := valid + 1;
      }
      Close(0, valid);
    }

    /** alarm_manager_revalidate. */
    method RevalidateAll(now: nat)
      requires Valid()
      modifies alarms, this
      ensures Valid() && View() == Revalidate(old(View()), now)
    {
      DiscardExpired(now);
      if count > 0 {
        ScheduleNext(now);
      } else {
        timer := None;
      }
    }

    /** alarm_manager_create_alarm. */
    method CreateAlarm(a: Alarm, now: nat) returns (ok: bool)
      requires Valid()
      modifies alarms, this
      ensures Valid() && View() == Create(old(View()), a, now)
      ensures ok <==> Creates(old(View()).list, a, now)
    {
      ok := Accepts(a, now);
      if !ok {
        return;
      }
      hide Creates;
      var kept := if count == CAPACITY then CAPACITY - 1 else count;
      assert alarms[..kept] == Kept(alarms[..count]);
      hide Kept, Insert, Position;
      var p := InsertAt(a, kept);
      count := kept + 1;
      if p == 0 {
        ScheduleNext(now);
      }
    }

    /** The conditions under which an alarm is refused, in the order they are tried. */
    method Accepts(a: Alarm, now: nat) returns (ok: bool)
      requires Valid()
      ensures ok <==> Creates(alarms[..count], a, now)
    {
      if a.epoch <= now || a.epoch - now <= BUFFER {
        return false;
      }
      if a.epoch - now > HORIZON {
        return false;
      }
      var k := 0;
      while k < count
        invariant k <= count && forall i :: 0 <= i < k ==> alarms[i].epoch != a.epoch
      {
        if alarms[k].epoch == a.epoch {
          assert alarms[..count][k].epoch == a.epoch;
          return false;
        }
        k := k + 1;
      }
      ok := !(count == CAPACITY && a.epoch >= alarms[CAPACITY - 1].epoch);
    }

    /** The shifting loop, from the last kept entry down. */
    method InsertAt(a: Alarm, kept: nat) returns (p: nat)
      requires Valid() && kept < CAPACITY
      modifies alarms
      ensures p == Position(old(alarms[..kept]), a) && alarms[..kept + 1] == Insert(old(alarms[..kept]), a)
    {
      ghost var list := alarms[..kept];
      p := kept;
      while p > 0 && alarms[p - 1].epoch > a.epoch
        invariant 0 <= p <= kept
        invariant forall i :: p <= i < kept ==> list[i].epoch > a.epoch
        invariant forall i :: 0 <= i < p ==> alarms[i] == list[i]
        invariant forall i :: p < i <= kept ==> alarms[i] == list[i - 1]
      {
        alarms[p] := alarms[p - 1];
        p := p - 1;
      }
      alarms[p] := a;
      LoopPosition(list, a, p);
      hide Insert, Position;
      InsertedAt(alarms[..kept + 1], list, a, p);
    }

    /** alarm_manager_delete_alarm. */
    method DeleteAlarm(index: int, now: nat) returns (ok: bool)
      requires Valid()
      modifies alarms, this
      ensures Valid() && View() == Delete(old(View()), index, now)
      ensures ok <==> 0 <= index < old(count)
    {
      if index < 0 || index >= count {
        return false;
      }
      Close(index, index + 1);
      if index == 0 {
        if count > 0 {
          ScheduleNext(now);
        } else {
          timer := None;
        }
      }
      ok := true;
    }

    /** alarm_manager_edit_alarm. */
    method EditAlarm(index: int, a: Alarm, now: nat) returns (ok: bool)
      requires Valid()
      modifies alarms, this
      ensures Valid() && View() == Edit(old(View()), index, a, now)
      ensures ok <==> 0 <= index < old(count) && Creates(Remove(old(View()).list, index), a, now)
    {
      if index < 0 || index >= count {
        return false;
      }
      var oldAlarm := alarms[index];
      var deleted := DeleteAlarm(index, now);
      ok := CreateAlarm(a, now);
      if !ok {
        var restored := CreateAlarm(oldAlarm, now);
      }
    }

    /** alarm_fired_cb: the one-shot timer has gone off and is no longer armed. */
    method Fired(now: nat) returns (fired: Option<Alarm>)
      requires Valid()
      modifies alarms, this
      ensures Valid() && View() == Fire(old(View()), now)
      ensures fired == if old(count) == 0 then None else Some(old(alarms[0]))
    {
      timer := None;
      fired := None;
      if count > 0 {
        fired := Some(alarms[0]);
        Close(0, 1);
        if count > 0 {
          ScheduleNext(now);
        }
      }
    }
  }

  /** The place the loop stops at is the one the specification names. */
  lemma {:induction false} LoopPosition(list: seq<Alarm>, a: Alarm, p: nat)
    requires p <= |list| && (p > 0 ==> list[p - 1].epoch <= a.epoch)
    requires forall i :: p <= i < |list| ==> list[i].epoch > a.epoch
    ensures Position(list, a) == p
  {
    if p < |list| {
      LoopPosition(list[..|list| - 1], a, p);
    }
  }

  lemma InsertedAt(r: seq<Alarm>, list: seq<Alarm>, a: Alarm, p: nat)
    requires p == Position(list, a) && |r| == |list| + 1 && r[p] == a
    requires forall i :: 0 <= i < p ==> r[i] == list[i]
    requires forall i :: p < i < |r| ==> r[i] == list[i - 1]
    ensures r == Insert(list, a)
  {
  }

  lemma ClosedUp(a: seq<Alarm>, list: seq<Alarm>, to: nat, from: nat)
    requires to <= from <= |list| && |a| == to + |list| - from
    requires forall i :: 0 <= i < to ==> a[i] == list[i]
    requires forall i :: to <= i < |a| ==> a[i] == list[i + from - to]
    ensures a == list[..to] + list[from..]
  {
  }
}
