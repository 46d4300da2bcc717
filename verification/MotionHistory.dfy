/** The motion history of components/motion_stage1_engine/src/utils.c: a ring of samples read by
    logical index. */
module MotionHistory {
  /** What is kept after inserting `x` behind `xs` when there is room for `size`. */
  function Kept(xs: seq<real>, size: nat): (r: seq<real>)
    ensures |r| == if |xs| <= size then |xs| else size
    ensures forall k :: 0 <= k < |r| ==> r[k] == xs[|xs| - |r| + k]
  {
    if |xs| <= size then xs else xs[|xs| - size..]
  }

  lemma KeptNext(xs: seq<real>, x: real, size: nat)
    requires |xs| <= size && size > 0
    ensures Kept(xs + [x], size) == if |xs| < size then xs + [x] else xs[1..] + [x]
  {
    assert |xs| == size ==> (xs + [x])[1..] == xs[1..] + [x];
  }

  class History {
    const data: array<real>
    var elements: nat
    var readIdx: nat
    var writeIdx: nat

    /** Nothing is ever taken out, so reading starts at 0 until the ring is full; from then on the
        oldest sample is the one written next. */
    ghost predicate Valid()
      reads this
    {
      && 0 < data.Length && elements <= data.Length && readIdx < data.Length && writeIdx < data.Length
      && (if elements < data.Length then readIdx == 0 && writeIdx == elements else readIdx == writeIdx)
    }

    /** The stored samples, oldest first. */
    ghost function Contents(): (xs: seq<real>)
      requires Valid()
      reads this, data
      ensures |xs| == elements
    {
      if elements < data.Length then data[..elements] else data[readIdx..] + data[..readIdx]
    }

    /** ring_buffer_init. */
    constructor (size: nat)
      requires size > 0
      ensures Valid() && Contents() == [] && data.Length == size && fresh(data)
    {
      data := new real[size];
      elements, readIdx, writeIdx := 0, 0, 0;
    }

    /** ring_buffer_insert. The source's own assertion, that a full ring reads where it writes, is the
        `assert` below. */
    method Insert(x: real)
      requires Valid()
      modifies this, data
      ensures Valid()
      ensures Contents() == Kept(old(Contents()) + [x], data.Length)
    {
      hide Kept;
      ghost var was := Contents();
      KeptNext(was, x, data.Length);
      if elements < data.Length {
        elements := elements + 1;
      } else {
        assert readIdx == writeIdx;
        readIdx := if readIdx + 1 >= data.Length then 0 else readIdx + 1;
      }
      data[writeIdx] := x;
      writeIdx := if writeIdx + 1 >= data.Length then 0 else writeIdx + 1;
      assert |was| < data.Length ==> Contents() == was + [x];
      assert |was| == data.Length ==> Contents() == was[1..] + [x];
    }

    /** A window of samples, inserted one by one. */
    method InsertAll(more: seq<real>)
      requires Valid()
      modifies this, data
      ensures Valid() && Contents() == Kept(old(Contents()) + more, data.Length)
    {
      ghost var was := Contents();
      for j := 0 to |more|
        invariant Valid() && Contents() == Inserted(was, more[..j], data.Length)
      {
        Insert(more[j]);
        assert more[..j + 1][..j] == more[..j];
      }
      assert more[..|more|] == more;
      HistoryIsLatest(was, more, data.Length);
    }

    /** ring_buffer_get_element_at_index. */
    function At(idx: nat): (x: real)
      requires Valid() && idx < elements
      reads this, data
      ensures x == Contents()[idx]
    {
      var pos := readIdx + idx;
      data[if pos >= data.Length then pos - data.Length else pos]
    }

    /** The whole history through the logical index. */
    method Read() returns (xs: seq<real>)
      requires Valid()
      ensures xs == Contents()
    {
      xs := [];
      for i := 0 to elements
        invariant xs == Contents()[..i]
      {
        xs := xs + [At(i)];
      }
    }
  }

  /** Inserting one after the other. */
  function Inserted(xs: seq<real>, more: seq<real>, size: nat): seq<real>
  {
    if more == [] then xs else Kept(Inserted(xs, more[..|more| - 1], size) + [more[|more| - 1]], size)
  }

  /** After any number of insertions the history is the last `size` of everything ever inserted. */
  lemma {:induction false} HistoryIsLatest(xs: seq<real>, more: seq<real>, size: nat)
    requires |xs| <= size && size > 0
    ensures Inserted(xs, more, size) == Kept(xs + more, size)
  {
    if more == [] {
      assert xs + more == xs;
    } else {
      var init, z := more[..|more| - 1], more[|more| - 1];
      HistoryIsLatest(xs, init, size);
      assert xs + more == xs + init + [z];
    }
  }

  /** What was dropped earlier does not matter later. */
  lemma KeptTwice(xs: seq<real>, more: seq<real>, size: nat)
    ensures Kept(Kept(xs, size) + more, size) == Kept(xs + more, size)
  {
    if |xs| > size {
      var cut := xs[|xs| - size..];
      assert xs + more == xs[..|xs| - size] + (cut + more);
    }
  }
}
