/** The receiving side of components/ble_manager/src/ble_packet_handler.c as a plain recursive
    parser over the bytes that follow the flag byte. The three-state loop that rewinds its
    index is in `PacketHandler`, proved to compute the same thing. */
module PacketRx {
  import opened Bytes
  import opened BleTypes
  import Seqs

  datatype Rx = Idle | Partial(opcode: byte, reqApp: byte, len: nat, got: seq<byte>)

  /** What may be carried from one packet to the next. */
  predicate ValidRx(rx: Rx)
  {
    rx.Partial? ==> |rx.got| < rx.len <= MAX_PAYLOAD
  }

  datatype Parsed = Parsed(rx: Rx, out: seq<Message>)

  function Emit(m: Message, p: Parsed): Parsed { Parsed(p.rx, [m] + p.out) }

  /** A header may start here: its magic byte, all of it inside the packet, an acceptable length. */
  predicate HeaderAt(bs: seq<byte>)
  {
    |bs| >= 4 && bs[0] == MAGIC && bs[3] <= MAX_PAYLOAD
  }

  function Start(bs: seq<byte>): Rx
    requires HeaderAt(bs)
  {
    Partial(bs[1], bs[2], bs[3], [])
  }

  function Scan(rx: Rx, bs: seq<byte>): (r: Parsed)
    requires rx.Partial? ==> |rx.got| <= rx.len <= MAX_PAYLOAD
    ensures ValidRx(r.rx)
    decreases |bs|, rx.Partial?
  {
    match rx
    case Partial(opcode, reqApp, len, got) =>
      var need := len - |got|;
      if |bs| < need then Parsed(rx.(got := got + bs), [])
      else Emit(Msg(opcode, reqApp, got + bs[..need]), Scan(Idle, bs[need..]))
    case Idle =>
      if HeaderAt(bs) then Scan(Start(bs), bs[4..])
      else if bs == [] || (bs[0] == MAGIC && |bs| < 4) then Parsed(Idle, [])
      else Scan(Idle, bs[1..])
  }

  function Body(pkt: seq<byte>): seq<byte> { if pkt == [] then [] else pkt[1..] }

  /** A packet whose flag is 0 abandons any message in progress; an empty packet changes nothing. */
  predicate Restarts(pkt: seq<byte>) { pkt != [] && pkt[0] == 0 }

  function Receive(rx: Rx, pkt: seq<byte>): (r: Parsed)
    requires ValidRx(rx)
    ensures ValidRx(r.rx)
  {
    if pkt == [] then Parsed(rx, []) else Scan(if Restarts(pkt) then Idle else rx, Body(pkt))
  }

  function ReceiveAll(rx: Rx, pkts: seq<seq<byte>>): (r: Parsed)
    requires ValidRx(rx)
    ensures ValidRx(r.rx)
  {
    if pkts == [] then Parsed(rx, [])
    else
      var before := ReceiveAll(rx, pkts[..|pkts| - 1]);
      var last := Receive(before.rx, pkts[|pkts| - 1]);
      Parsed(last.rx, before.out + last.out)
  }

  lemma {:induction false} ReceiveAllConcat(rx: Rx, a: seq<seq<byte>>, b: seq<seq<byte>>)
    requires ValidRx(rx)
    ensures var first := ReceiveAll(rx, a);
            var second := ReceiveAll(first.rx, b);
            ReceiveAll(rx, a + b) == Parsed(second.rx, first.out + second.out)
  {
    if b == [] {
      assert a + b == a;
    } else {
      var n := |b| - 1;
      assert (a + b)[..|a + b| - 1] == a + b[..n];
      ReceiveAllConcat(rx, a, b[..n]);
    }
  }

  // ----- Where enqueued messages come from, whatever arrives -----

  function WireLen(m: Message): nat { 4 + |m.payload| }

  /** `m` reads off `s` at `k`. */
  ghost predicate At(s: seq<byte>, m: Message, k: nat)
  {
    k + WireLen(m) <= |s| && s[k..k + WireLen(m)] == Wire(m)
  }

  /** The messages lie in `s` at the given places, one after the other, before `end`. */
  ghost predicate Placed(s: seq<byte>, out: seq<Message>, at: seq<nat>, end: nat)
  {
    && |at| == |out| && end <= |s|
    && (forall k :: 0 <= k < |at| ==> At(s, out[k], at[k]) && at[k] + WireLen(out[k]) <= end)
    && (forall k, l :: 0 <= k < l < |at| ==> at[k] + WireLen(out[k]) <= at[l])
  }

  /** `rx` has consumed a header at `p` and everything after it. */
  ghost predicate PendingFrom(s: seq<byte>, rx: Rx, p: nat)
  {
    p <= |s| && (rx.Partial? ==> rx.len < 256 && s[p..] == [MAGIC, rx.opcode, rx.reqApp, rx.len] + rx.got)
  }

  function Shift(at: seq<nat>, d: nat): (r: seq<nat>)
    ensures |r| == |at| && forall i :: 0 <= i < |at| ==> r[i] == at[i] + d
  {
    seq(|at|, i requires 0 <= i < |at| => at[i] + d)
  }

  lemma AtExtends(s: seq<byte>, t: seq<byte>, m: Message, k: nat)
    requires At(s, m, k)
    ensures At(s + t, m, k)
  {
    assert (s + t)[k..k + WireLen(m)] == s[k..k + WireLen(m)];
  }

  lemma AtShifts(s: seq<byte>, t: seq<byte>, m: Message, k: nat)
    requires At(t, m, k)
    ensures At(s + t, m, k + |s|)
  {
    assert (s + t)[k + |s|..k + |s| + WireLen(m)] == t[k..k + WireLen(m)];
  }

  lemma PlacedExtends(s: seq<byte>, t: seq<byte>, out: seq<Message>, at: seq<nat>, end: nat)
    requires Placed(s, out, at, end)
    ensures Placed(s + t, out, at, end)
  {
    forall k | 0 <= k < |at|
      ensures At(s + t, out[k], at[k])
    {
      AtExtends(s, t, out[k], at[k]);
    }
  }

  lemma PlacedShifts(s: seq<byte>, t: seq<byte>, out: seq<Message>, at: seq<nat>, end: nat)
    requires Placed(t, out, at, end)
    ensures Placed(s + t, out, Shift(at, |s|), |s| + end)
  {
    forall k | 0 <= k < |at|
      ensures At(s + t, out[k], at[k] + |s|)
    {
      AtShifts(s, t, out[k], at[k]);
    }
  }

  lemma PlacedJoin(s: seq<byte>, out: seq<Message>, at: seq<nat>, end: nat,
                   out': seq<Message>, at': seq<nat>, end': nat)
    requires Placed(s, out, at, end) && Placed(s, out', at', end')
    requires end <= end' && forall k :: 0 <= k < |at'| ==> end <= at'[k]
    ensures Placed(s, out + out', at + at', end')
  {
    hide At;
  }

  lemma PlacedConcat(s: seq<byte>, out: seq<Message>, at: seq<nat>, end: nat,
                     t: seq<byte>, out': seq<Message>, at': seq<nat>, end': nat)
    requires Placed(s, out, at, end) && Placed(t, out', at', end')
    ensures Placed(s + t, out + out', at + Shift(at', |s|), |s| + end')
  {
    hide At;
    PlacedExtends(s, t, out, at, end);
    PlacedShifts(s, t, out', at', end');
    PlacedJoin(s + t, out, at, end, out', Shift(at', |s|), |s| + end');
  }

  /** A message that fills `s` from `p` to its end. */
  lemma PlacedLast(s: seq<byte>, out: seq<Message>, at: seq<nat>, p: nat, t: seq<byte>, m: Message)
    requires Placed(s, out, at, p) && s[p..] + t == Wire(m)
    ensures Placed(s + t, out + [m], at + [p], |s| + |t|)
  {
    PlacedExtends(s, t, out, at, p);
    assert (s + t)[p..p + WireLen(m)] == s[p..] + t;
    assert At(s + t, m, p);
    PlacedJoin(s + t, out, at, p, [m], [p], |s| + |t|);
  }

  lemma PlacedHead(m: Message, rest: seq<byte>, out: seq<Message>, at: seq<nat>, end: nat)
    requires Placed(rest, out, at, end)
    ensures Placed(Wire(m) + rest, [m] + out, [0] + Shift(at, WireLen(m)), WireLen(m) + end)
  {
    assert Wire(m)[0..WireLen(m)] == Wire(m);
    assert At(Wire(m), m, 0);
    PlacedConcat(Wire(m), [m], [0], WireLen(m), rest, out, at, end);
  }

  lemma PlacedBehind(b: byte, rest: seq<byte>, out: seq<Message>, at: seq<nat>, end: nat)
    requires Placed(rest, out, at, end)
    ensures Placed([b] + rest, out, Shift(at, 1), 1 + end)
  {
    PlacedShifts([b], rest, out, at, end);
  }

  lemma PendingShifts(s: seq<byte>, t: seq<byte>, rx: Rx, p: nat)
    requires PendingFrom(t, rx, p)
    ensures PendingFrom(s + t, rx, |s| + p)
  {
    assert (s + t)[|s| + p..] == t[p..];
  }

  lemma WireOfHeader(bs: seq<byte>)
    requires HeaderAt(bs) && |bs| - 4 >= bs[3]
    ensures var len := bs[3];
            var m := Msg(bs[1], bs[2], [] + bs[4..][..len]);
            Wire(m) + bs[4..][len..] == bs
  {
  }

  /** Within one packet: every message is a stretch of the packet's own bytes. */
  lemma {:induction false} ScanIdleSound(bs: seq<byte>) returns (at: seq<nat>, p: nat)
    ensures Placed(bs, Scan(Idle, bs).out, at, p) && PendingFrom(bs, Scan(Idle, bs).rx, p)
    decreases |bs|
  {
    if HeaderAt(bs) {
      var len := bs[3];
      if |bs| - 4 < len {
        at, p := [], 0;
        assert bs == [MAGIC, bs[1], bs[2], len] + ([] + bs[4..]);
      } else {
        at, p := ScanWholeMessage(bs);
      }
    } else if bs == [] || (bs[0] == MAGIC && |bs| < 4) {
      at, p := [], 0;
    } else {
      var rest := bs[1..];
      var at1, p1 := ScanIdleSound(rest);
      PlacedBehind(bs[0], rest, Scan(Idle, rest).out, at1, p1);
      PendingShifts([bs[0]], rest, Scan(Idle, rest).rx, p1);
      assert [bs[0]] + rest == bs;
      at, p := Shift(at1, 1), 1 + p1;
    }
  }

  lemma ScanWholeMessage(bs: seq<byte>) returns (at: seq<nat>, p: nat)
    requires HeaderAt(bs) && |bs| - 4 >= bs[3]
    ensures Placed(bs, Scan(Idle, bs).out, at, p) && PendingFrom(bs, Scan(Idle, bs).rx, p)
    decreases |bs|, 0
  {
    var len := bs[3];
    var m: Message := Msg(bs[1], bs[2], [] + bs[4..][..len]);
    var rest := bs[4..][len..];
    var r := Scan(Idle, rest);
    var at1, p1 := ScanIdleSound(rest);
    assert Scan(Idle, bs) == Emit(m, r);
    WireOfHeader(bs);
    PlacedHead(m, rest, r.out, at1, p1);
    PendingShifts(Wire(m), rest, r.rx, p1);
    at, p := [0] + Shift(at1, WireLen(m)), WireLen(m) + p1;
  }

  /** The byte stream: all packets without their flag bytes. */
  function Stream(pkts: seq<seq<byte>>): seq<byte>
  {
    if pkts == [] then [] else Stream(pkts[..|pkts| - 1]) + Body(pkts[|pkts| - 1])
  }

  /** Where packet `i` begins in the stream. */
  function Boundary(pkts: seq<seq<byte>>, i: nat): nat
    requires i <= |pkts|
  {
    |Stream(pkts[..i])|
  }

  /** A packet that begins strictly inside the stretch is a continuation, and begins after the
      stretch's four header bytes. */
  ghost predicate Unbroken(pkts: seq<seq<byte>>, start: nat, end: nat)
  {
    forall i :: 0 <= i < |pkts| && start < Boundary(pkts, i) < end ==>
      start + 4 <= Boundary(pkts, i) && !Restarts(pkts[i])
  }

  ghost predicate Sound(pkts: seq<seq<byte>>, r: Parsed, at: seq<nat>, p: nat)
  {
    && Placed(Stream(pkts), r.out, at, p)
    && (forall k :: 0 <= k < |at| ==> Unbroken(pkts, at[k], at[k] + WireLen(r.out[k])))
    && PendingFrom(Stream(pkts), r.rx, p)
    && (r.rx.Partial? ==> Unbroken(pkts, p, |Stream(pkts)| + 1))
  }

  lemma {:induction false} BoundaryBound(pkts: seq<seq<byte>>, i: nat)
    requires i <= |pkts|
    ensures Boundary(pkts, i) <= |Stream(pkts)|
  {
    if i < |pkts| {
      BoundaryBound(pkts[..|pkts| - 1], i);
      assert pkts[..|pkts| - 1][..i] == pkts[..i];
    } else {
      assert pkts[..i] == pkts;
    }
  }

  /** Appending a packet leaves the earlier boundaries alone and adds one at the old end. */
  lemma BoundaryOfPrefix(pkts: seq<seq<byte>>, n: nat)
    requires n + 1 == |pkts|
    ensures forall i :: 0 <= i < n ==> Boundary(pkts, i) == Boundary(pkts[..n], i) <= |Stream(pkts[..n])|
    ensures Boundary(pkts, n) == |Stream(pkts[..n])|
  {
    forall i | 0 <= i < n
      ensures Boundary(pkts, i) == Boundary(pkts[..n], i) <= |Stream(pkts[..n])|
    {
      assert pkts[..n][..i] == pkts[..i];
      BoundaryBound(pkts[..n], i);
    }
  }

  lemma UnbrokenExtends(pkts: seq<seq<byte>>, n: nat, start: nat, end: nat)
    requires n + 1 == |pkts| && Unbroken(pkts[..n], start, end)
    requires end <= |Stream(pkts[..n])| || (start + 4 <= |Stream(pkts[..n])| && !Restarts(pkts[n]))
    ensures Unbroken(pkts, start, end)
  {
    hide Stream;
    BoundaryOfPrefix(pkts, n);
    forall i | 0 <= i < |pkts| && start < Boundary(pkts, i) < end
      ensures start + 4 <= Boundary(pkts, i) && !Restarts(pkts[i])
    {
      if i < n {
        assert Boundary(pkts[..n], i) == Boundary(pkts, i);
      }
    }
  }

  lemma UnbrokenInLast(pkts: seq<seq<byte>>, n: nat, start: nat, end: nat)
    requires n + 1 == |pkts| && |Stream(pkts[..n])| <= start
    ensures Unbroken(pkts, start, end)
  {
    hide Stream;
    BoundaryOfPrefix(pkts, n);
  }

  /** For every packet sequence whatever: each enqueued message is a contiguous stretch of the
      stream that reads as its wire form, its header lies in one packet, the stretch never crosses
      a packet that restarts the stream, and the stretches follow each other in order. A message
      still incomplete is exactly the stretch from its header to the end. */
  lemma {:induction false} ReceivedIsInStream(pkts: seq<seq<byte>>) returns (at: seq<nat>, p: nat)
    ensures Sound(pkts, ReceiveAll(Idle, pkts), at, p)
  {
    if pkts == [] {
      at, p := [], 0;
    } else {
      var n := |pkts| - 1;
      var before := ReceiveAll(Idle, pkts[..n]);
      at, p := ReceivedIsInStream(pkts[..n]);
      if pkts[n] == [] {
        SoundAfterEmpty(pkts, n, before, at, p);
      } else if Restarts(pkts[n]) || before.rx.Idle? {
        at, p := SoundAfterFresh(pkts, n, before, at, p);
      } else {
        at, p := SoundAfterContinuation(pkts, n, before, at, p);
      }
    }
  }

  lemma SoundAfterEmpty(pkts: seq<seq<byte>>, n: nat, before: Parsed, at: seq<nat>, p: nat)
    requires n + 1 == |pkts| && pkts[n] == [] && Sound(pkts[..n], before, at, p)
    ensures Sound(pkts, Parsed(before.rx, before.out + []), at, p)
  {
    assert before.out + [] == before.out;
    assert Stream(pkts) == Stream(pkts[..n]);
    EarlierUnbroken(pkts, n, before, at, p);
  }

  lemma SoundAfterFresh(pkts: seq<seq<byte>>, n: nat, before: Parsed, at0: seq<nat>, p0: nat)
    returns (at: seq<nat>, p: nat)
    requires n + 1 == |pkts| && Sound(pkts[..n], before, at0, p0)
    ensures var r := Scan(Idle, Body(pkts[n])); Sound(pkts, Parsed(r.rx, before.out + r.out), at, p)
  {
    hide Scan, At;
    var s, bs := Stream(pkts[..n]), Body(pkts[n]);
    var at1, p1 := ScanIdleSound(bs);
    var r := Scan(Idle, bs);
    PlacedConcat(s, before.out, at0, p0, bs, r.out, at1, p1);
    PendingShifts(s, bs, r.rx, p1);
    at, p := at0 + Shift(at1, |s|), |s| + p1;
    forall k | 0 <= k < |at|
      ensures Unbroken(pkts, at[k], at[k] + WireLen((before.out + r.out)[k]))
    {
      if k < |at0| {
        UnbrokenExtends(pkts, n, at[k], at[k] + WireLen(before.out[k]));
      } else {
        UnbrokenInLast(pkts, n, at[k], at[k] + WireLen(r.out[k - |at0|]));
      }
    }
    UnbrokenInLast(pkts, n, p, |Stream(pkts)| + 1);
  }

  lemma EarlierUnbroken(pkts: seq<seq<byte>>, n: nat, before: Parsed, at: seq<nat>, p: nat)
    requires n + 1 == |pkts| && Sound(pkts[..n], before, at, p)
    ensures forall k :: 0 <= k < |at| ==> Unbroken(pkts, at[k], at[k] + WireLen(before.out[k]))
    ensures before.rx.Partial? && !Restarts(pkts[n]) ==>
              Unbroken(pkts, p, |Stream(pkts[..n])| + 1) && p + 4 <= |Stream(pkts[..n])|
  {
    forall k | 0 <= k < |at|
      ensures Unbroken(pkts, at[k], at[k] + WireLen(before.out[k]))
    {
      UnbrokenExtends(pkts, n, at[k], at[k] + WireLen(before.out[k]));
    }
    if before.rx.Partial? && !Restarts(pkts[n]) {
      assert |Stream(pkts[..n])[p..]| >= 4;
      UnbrokenExtends(pkts, n, p, |Stream(pkts[..n])| + 1);
    }
  }

  /** No packet begins after the last one does, so a longer stretch is just as unbroken. */
  lemma UnbrokenToAnyEnd(pkts: seq<seq<byte>>, n: nat, start: nat, end: nat)
    requires n + 1 == |pkts| && Unbroken(pkts, start, |Stream(pkts[..n])| + 1)
    ensures Unbroken(pkts, start, end)
  {
    hide Stream;
    BoundaryOfPrefix(pkts, n);
  }

  lemma PendingExtends(s: seq<byte>, t: seq<byte>, rx: Rx, p: nat)
    requires rx.Partial? && PendingFrom(s, rx, p)
    ensures PendingFrom(s + t, rx.(got := rx.got + t), p)
  {
    assert (s + t)[p..] == s[p..] + t;
  }

  lemma PendingCompletes(s: seq<byte>, t: seq<byte>, rx: Rx, p: nat)
    requires ValidRx(rx) && rx.Partial? && PendingFrom(s, rx, p) && |rx.got| + |t| == rx.len
    ensures s[p..] + t == Wire(Msg(rx.opcode, rx.reqApp, rx.got + t))
  {
  }

  lemma SoundAfterContinuation(pkts: seq<seq<byte>>, n: nat, before: Parsed, at0: seq<nat>, p0: nat)
    returns (at: seq<nat>, p: nat)
    requires n + 1 == |pkts| && Sound(pkts[..n], before, at0, p0)
    requires before.rx.Partial? && ValidRx(before.rx) && !Restarts(pkts[n])
    ensures var r := Scan(before.rx, Body(pkts[n])); Sound(pkts, Parsed(r.rx, before.out + r.out), at, p)
  {
    var bs, rx := Body(pkts[n]), before.rx;
    if |bs| < rx.len - |rx.got| {
      at, p := at0, p0;
      SoundWhilePending(pkts, n, before, at0, p0);
      assert before.out + [] == before.out;
    } else {
      var need := rx.len - |rx.got|;
      assert Scan(rx, bs) == Emit(Msg(rx.opcode, rx.reqApp, rx.got + bs[..need]), Scan(Idle, bs[need..]));
      at, p := SoundAfterCompletion(pkts, n, before, at0, p0, need);
    }
  }

  lemma SoundWhilePending(pkts: seq<seq<byte>>, n: nat, before: Parsed, at: seq<nat>, p: nat)
    requires n + 1 == |pkts| && Sound(pkts[..n], before, at, p) && before.rx.Partial? && !Restarts(pkts[n])
    ensures Sound(pkts, Parsed(before.rx.(got := before.rx.got + Body(pkts[n])), before.out), at, p)
  {
    var s, bs := Stream(pkts[..n]), Body(pkts[n]);
    EarlierUnbroken(pkts, n, before, at, p);
    PlacedExtends(s, bs, before.out, at, p);
    PendingExtends(s, bs, before.rx, p);
    UnbrokenToAnyEnd(pkts, n, p, |Stream(pkts)| + 1);
  }

  lemma CompletionPlaced(s: seq<byte>, out: seq<Message>, at: seq<nat>, p: nat, rx: Rx, bs: seq<byte>, need: nat)
    returns (at2: seq<nat>, p2: nat)
    requires Placed(s, out, at, p) && PendingFrom(s, rx, p) && rx.Partial? && ValidRx(rx)
    requires need == rx.len - |rx.got| <= |bs|
    ensures var m, tail := Msg(rx.opcode, rx.reqApp, rx.got + bs[..need]), Scan(Idle, bs[need..]);
            && Placed(s + bs, out + [m] + tail.out, at + [p] + Shift(at2, |s| + need), |s| + need + p2)
            && PendingFrom(s + bs, tail.rx, |s| + need + p2)
  {
    hide Scan, At;
    var m: Message := Msg(rx.opcode, rx.reqApp, rx.got + bs[..need]);
    var s1, rest := s + bs[..need], bs[need..];
    at2, p2 := ScanIdleSound(rest);
    PendingCompletes(s, bs[..need], rx, p);
    PlacedLast(s, out, at, p, bs[..need], m);
    PlacedConcat(s1, out + [m], at + [p], |s1|, rest, Scan(Idle, rest).out, at2, p2);
    PendingShifts(s1, rest, Scan(Idle, rest).rx, p2);
    Seqs.Cut(bs, need);
    Seqs.Assoc(s, bs[..need], rest);
  }

  lemma AllUnbroken(pkts: seq<seq<byte>>, n: nat, before: Parsed, at0: seq<nat>, p0: nat, m: Message,
                    out: seq<Message>, at: seq<nat>)
    requires n + 1 == |pkts| && Sound(pkts[..n], before, at0, p0) && before.rx.Partial? && !Restarts(pkts[n])
    requires |at| == |out| && forall k :: 0 <= k < |at| ==> |Stream(pkts[..n])| <= at[k]
    ensures var out', at' := before.out + [m] + out, at0 + [p0] + at;
            forall k :: 0 <= k < |at'| ==> Unbroken(pkts, at'[k], at'[k] + WireLen(out'[k]))
  {
    hide Stream, Unbroken, At;
    var out', at' := before.out + [m] + out, at0 + [p0] + at;
    EarlierUnbroken(pkts, n, before, at0, p0);
    forall k | 0 <= k < |at'|
      ensures Unbroken(pkts, at'[k], at'[k] + WireLen(out'[k]))
    {
      if k == |at0| {
        UnbrokenToAnyEnd(pkts, n, p0, p0 + WireLen(m));
      } else if k > |at0| {
        UnbrokenInLast(pkts, n, at'[k], at'[k] + WireLen(out'[k]));
      } else {
        assert at'[k] == at0[k] && out'[k] == before.out[k];
      }
    }
  }

  /** The message in progress ends `need` bytes into the packet and parsing goes on behind it. */
  lemma SoundAfterCompletion(pkts: seq<seq<byte>>, n: nat, before: Parsed, at0: seq<nat>, p0: nat, need: nat)
    returns (at: seq<nat>, p: nat)
    requires n + 1 == |pkts| && Sound(pkts[..n], before, at0, p0)
    requires before.rx.Partial? && ValidRx(before.rx) && !Restarts(pkts[n])
    requires need == before.rx.len - |before.rx.got| <= |Body(pkts[n])|
    ensures var bs, rx := Body(pkts[n]), before.rx;
            var r := Emit(Msg(rx.opcode, rx.reqApp, rx.got + bs[..need]), Scan(Idle, bs[need..]));
            Sound(pkts, Parsed(r.rx, before.out + r.out), at, p)
  {
    hide Scan, At;
    var s, bs, rx := Stream(pkts[..n]), Body(pkts[n]), before.rx;
    var m: Message := Msg(rx.opcode, rx.reqApp, rx.got + bs[..need]);
    var tail := Scan(Idle, bs[need..]);
    var out := before.out + [m] + tail.out;
    var at2, p2 := CompletionPlaced(s, before.out, at0, p0, rx, bs, need);
    at, p := at0 + [p0] + Shift(at2, |s| + need), |s| + need + p2;
    Seqs.Assoc(before.out, [m], tail.out);
    AllUnbroken(pkts, n, before, at0, p0, m, tail.out, Shift(at2, |s| + need));
    UnbrokenInLast(pkts, n, p, |Stream(pkts)| + 1);
  }
}
