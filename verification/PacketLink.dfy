/** Fragmenter and parser back to back. */
module PacketLink {
  import opened Bytes
  import opened BleTypes
  import opened RingBuffer
  import Seqs
  import Tx = PacketTx
  import Rx = PacketRx

  /** The receiver state that mirrors a transmitter state. */
  function Mirror(tx: Tx.Tx): (rx: Rx.Rx)
    requires Tx.ValidTx(tx)
    ensures Rx.ValidRx(rx)
  {
    if tx.Idle? || tx.offset == 0 then Rx.Idle
    else Rx.Partial(tx.m.opcode, tx.m.reqApp, |tx.m.payload|, tx.m.payload[..tx.offset])
  }

  /** The receiver after a header and nothing else. */
  function HeaderOnly(m: Message): Rx.Rx { Rx.Partial(m.opcode, m.reqApp, |m.payload|, []) }

  /** The receiver after a whole packet: it has taken a flush header for a started message. */
  function After(r: Tx.Built, mtu: nat): Rx.Rx
    requires Tx.ValidTx(r.tx)
  {
    if Tx.Flushed(r, mtu) then HeaderOnly(r.tx.m) else Mirror(r.tx)
  }

  lemma HeaderScanned(m: Message, e: seq<byte>)
    ensures Rx.Scan(Rx.Idle, Header(m) + e) == Rx.Scan(HeaderOnly(m), e)
  {
    var bs := Header(m) + e;
    assert Rx.HeaderAt(bs) && bs[4..] == e && Rx.Start(bs) == HeaderOnly(m);
  }

  function Reading(m: Message, n: nat): (rx: Rx.Rx)
    requires n <= |m.payload|
  {
    Rx.Partial(m.opcode, m.reqApp, |m.payload|, m.payload[..n])
  }

  /** Reading the rest of a payload completes the message; reading less does not. */
  lemma RestScanned(m: Message, from: nat, e: seq<byte>)
    requires from <= |m.payload|
    ensures Rx.Scan(Reading(m, from), m.payload[from..] + e) == Rx.Emit(m, Rx.Scan(Rx.Idle, e))
  {
    var bs, need := m.payload[from..] + e, |m.payload| - from;
    assert m.payload[..from] + bs[..need] == m.payload && bs[need..] == e;
  }

  lemma PartScanned(m: Message, from: nat, to: nat)
    requires from <= to < |m.payload|
    ensures Rx.Scan(Reading(m, from), m.payload[from..to]) == Rx.Parsed(Reading(m, to), [])
  {
    assert m.payload[..from] + m.payload[from..to] == m.payload[..to];
  }

  /** What is still to be sent of a message, read back. */
  lemma UnsentScanned(tx: Tx.Tx, e: seq<byte>)
    requires tx.Sending? && Tx.ValidTx(tx)
    ensures Rx.Scan(Mirror(tx), Tx.Unsent(tx) + e) == Rx.Emit(tx.m, Rx.Scan(Rx.Idle, e))
  {
    hide Rx.Scan, Rx.Emit;
    var m := tx.m;
    RestScanned(m, tx.offset, e);
    if tx.offset == 0 {
      assert m.payload[0..] == m.payload;
      HeaderScanned(m, m.payload + e);
      assert Wire(m) + e == Header(m) + (m.payload + e);
      assert Reading(m, 0) == HeaderOnly(m);
    }
  }

  /** One turn that fills the packet first. */
  lemma PieceScanned(tx: Tx.Tx, room: nat)
    requires tx.Sending? && Tx.ValidTx(tx) && room > 0 && (tx.offset == 0 ==> room >= 4)
    requires Tx.OffsetAfter(tx, room) < |tx.m.payload|
    ensures Rx.Scan(Mirror(tx), Tx.Piece(tx, room)) == Rx.Parsed(Reading(tx.m, Tx.OffsetAfter(tx, room)), [])
  {
    var m, o := tx.m, Tx.OffsetAfter(tx, room);
    PartScanned(m, tx.offset, o);
    if tx.offset == 0 {
      assert Tx.Piece(tx, room) == Header(m) + m.payload[0..o];
      HeaderScanned(m, m.payload[0..o]);
      assert Reading(m, 0) == HeaderOnly(m);
    } else {
      assert Tx.Piece(tx, room) == m.payload[tx.offset..o];
    }
  }

  /** Parsing what `Fill` appends gives the messages it completes and mirrors where it stops. */
  lemma {:induction false} FillScanned(b: Tx.Built, mtu: nat)
    requires Tx.ValidTx(b.tx) && |b.pkt| < mtu
    ensures var r := Tx.Fill(b, mtu);
            Rx.Scan(Mirror(b.tx), r.pkt[|b.pkt|..]) == Rx.Parsed(After(r, mtu), r.done[|b.done|..])
    decreases mtu - |b.pkt|, |b.q|, 1
  {
    if b.tx.Idle? {
      if b.q != [] {
        FillScanned(b.(tx := Tx.Sending(b.q[0], 0), q := b.q[1..]), mtu);
      }
    } else {
      var room := mtu - |b.pkt|;
      if b.tx.offset != 0 || room >= 4 {
        if Tx.OffsetAfter(b.tx, room) >= |b.tx.m.payload| {
          FillScannedPastMessage(b, mtu);
        } else {
          FillScannedToEnd(b, mtu);
        }
      }
    }
  }

  lemma FillScannedToEnd(b: Tx.Built, mtu: nat)
    requires Tx.ValidTx(b.tx) && |b.pkt| < mtu && b.tx.Sending? && (b.tx.offset == 0 ==> mtu - |b.pkt| >= 4)
    requires Tx.OffsetAfter(b.tx, mtu - |b.pkt|) < |b.tx.m.payload|
    ensures var r := Tx.Fill(b, mtu);
            Rx.Scan(Mirror(b.tx), r.pkt[|b.pkt|..]) == Rx.Parsed(After(r, mtu), r.done[|b.done|..])
  {
    hide Rx.Scan, Tx.Fill, Tx.Piece;
    var room := mtu - |b.pkt|;
    var o := Tx.OffsetAfter(b.tx, room);
    Tx.FillEnds(b, mtu);
    PieceScanned(b.tx, room);
    Seqs.Split(b.pkt, Tx.Piece(b.tx, room));
    assert o == 0 ==> Reading(b.tx.m, o) == HeaderOnly(b.tx.m);
  }

  lemma FillScannedPastMessage(b: Tx.Built, mtu: nat)
    requires Tx.ValidTx(b.tx) && |b.pkt| < mtu && b.tx.Sending? && (b.tx.offset == 0 ==> mtu - |b.pkt| >= 4)
    requires Tx.OffsetAfter(b.tx, mtu - |b.pkt|) >= |b.tx.m.payload|
    ensures var r := Tx.Fill(b, mtu);
            Rx.Scan(Mirror(b.tx), r.pkt[|b.pkt|..]) == Rx.Parsed(After(r, mtu), r.done[|b.done|..])
    decreases mtu - |b.pkt|, |b.q|, 0
  {
    var next := Tx.Built(b.pkt + Tx.Unsent(b.tx), Tx.Idle, b.q, b.done + [b.tx.m]);
    Tx.LastPiece(b.tx, mtu - |b.pkt|);
    var r := Tx.Fill(next, mtu);
    assert r == Tx.Fill(b, mtu);
    PastMessage(b, next, r);
    UnsentScanned(b.tx, r.pkt[|next.pkt|..]);
    if |next.pkt| < mtu {
      FillScanned(next, mtu);
    } else {
      assert r == next;
    }
  }

  lemma PastMessage(b: Tx.Built, next: Tx.Built, r: Tx.Built)
    requires b.tx.Sending? && Tx.ValidTx(b.tx)
    requires next.pkt == b.pkt + Tx.Unsent(b.tx) && next.done == b.done + [b.tx.m]
    requires next.pkt <= r.pkt && next.done <= r.done
    ensures r.pkt[|b.pkt|..] == Tx.Unsent(b.tx) + r.pkt[|next.pkt|..]
    ensures r.done[|b.done|..] == [b.tx.m] + r.done[|next.done|..]
  {
  }

  /** One packet, received by a peer that mirrors the transmitter. */
  lemma PacketReceived(tx: Tx.Tx, q: seq<Message>, mtu: nat)
    requires Tx.ValidTx(tx)
    ensures var r := Tx.Build(tx, q, mtu);
            && (Tx.BuildFlushes(tx, q, mtu) ==> |r.pkt| > 1 && r.tx.Sending? && r.tx.offset == 0 && r.tx.m.payload != [])
            && Rx.Receive(Mirror(tx), r.pkt) ==
                 Rx.Parsed(if Tx.BuildFlushes(tx, q, mtu) then HeaderOnly(r.tx.m) else Mirror(r.tx), r.done)
            && (|r.pkt| <= 1 ==> Mirror(r.tx) == Mirror(tx) && r.done == [])
  {
    var b := Tx.Built([if tx.Sending? then 1 else 0], tx, q, []);
    var r := Tx.Build(tx, q, mtu);
    if mtu >= 2 {
      FillScanned(b, mtu);
      Tx.BuildFlushesIff(tx, q, mtu);
      assert r.done[0..] == r.done;
    } else {
      assert r == b;
    }
  }

  // ----- Whole transmissions -----

  /** The application queues a message, or the stack asks for a packet. */
  datatype Event = Queue(m: Message) | Send(mtu: nat)

  datatype Run = Run(tx: Tx.Tx, q: seq<Message>, pkts: seq<seq<byte>>, done: seq<Message>, flushed: bool)

  /** A packet is handed over only if it holds more than its flag. */
  function SendOne(tx: Tx.Tx, q: seq<Message>, mtu: nat): (r: Run)
    requires Tx.ValidTx(tx)
    ensures Tx.ValidTx(r.tx)
  {
    var b := Tx.Build(tx, q, mtu);
    Run(b.tx, b.q, if |b.pkt| > 1 then [b.pkt] else [], b.done, Tx.BuildFlushes(tx, q, mtu))
  }

  function Transmit(tx: Tx.Tx, q: seq<Message>, evs: seq<Event>): (r: Run)
    requires Tx.ValidTx(tx)
    ensures Tx.ValidTx(r.tx)
    decreases evs
  {
    if evs == [] then Run(tx, q, [], [], false)
    else match evs[0]
      case Queue(m) => Transmit(tx, Pushed(q, FIFO_SIZE, DropOldest, m), evs[1..])
      case Send(mtu) =>
        var one := SendOne(tx, q, mtu);
        var rest := Transmit(one.tx, one.q, evs[1..]);
        Run(rest.tx, rest.q, one.pkts + rest.pkts, one.done + rest.done, one.flushed || rest.flushed)
  }

  lemma ReceiveOne(rx: Rx.Rx, pkt: seq<byte>)
    requires Rx.ValidRx(rx)
    ensures Rx.ReceiveAll(rx, [pkt]) == Rx.Receive(rx, pkt)
  {
    assert [pkt][..0] == [];
    assert Rx.ReceiveAll(rx, []) == Rx.Parsed(rx, []);
    assert [] + Rx.Receive(rx, pkt).out == Rx.Receive(rx, pkt).out;
  }

  lemma OneReceived(tx: Tx.Tx, q: seq<Message>, mtu: nat)
    requires Tx.ValidTx(tx)
    ensures var one := SendOne(tx, q, mtu);
            var p := Rx.ReceiveAll(Mirror(tx), one.pkts);
            p.out == one.done && (if one.flushed then one.tx.Sending? && one.tx.offset == 0 && one.tx.m.payload != []
                                                      && p.rx == HeaderOnly(one.tx.m)
                                  else p.rx == Mirror(one.tx))
  {
    PacketReceived(tx, q, mtu);
    ReceiveOne(Mirror(tx), Tx.Build(tx, q, mtu).pkt);
  }

  /** Round trip: whatever is queued and whatever the MTUs, as long as no header of a non-empty
      message ends flush with its packet, the peer enqueues exactly the completed messages, byte for
      byte and in order, and stays in step. */
  lemma {:induction false} RoundTrip(tx: Tx.Tx, q: seq<Message>, evs: seq<Event>)
    requires Tx.ValidTx(tx) && !Transmit(tx, q, evs).flushed
    ensures var r := Transmit(tx, q, evs);
            Rx.ReceiveAll(Mirror(tx), r.pkts) == Rx.Parsed(Mirror(r.tx), r.done)
    decreases evs
  {
    if evs != [] {
      match evs[0]
      case Queue(m) =>
        RoundTrip(tx, Pushed(q, FIFO_SIZE, DropOldest, m), evs[1..]);
      case Send(mtu) =>
        var one := SendOne(tx, q, mtu);
        var rest := Transmit(one.tx, one.q, evs[1..]);
        RoundTrip(one.tx, one.q, evs[1..]);
        OneReceived(tx, q, mtu);
        Rx.ReceiveAllConcat(Mirror(tx), one.pkts, rest.pkts);
    }
  }

  /** Only packets of at least `least` bytes, and nothing new queued. */
  predicate SendsOnly(evs: seq<Event>, least: nat)
  {
    forall i :: 0 <= i < |evs| ==> evs[i].Send? && evs[i].mtu >= least
  }

  lemma SendOneConserves(tx: Tx.Tx, q: seq<Message>, mtu: nat)
    requires Tx.ValidTx(tx)
    ensures var one := SendOne(tx, q, mtu);
            Tx.Outstanding(tx) + q == one.done + (Tx.Outstanding(one.tx) + one.q)
  {
    hide Tx.Fill;
    var one := SendOne(tx, q, mtu);
    Tx.FillConserves(Tx.Built([if tx.Sending? then 1 else 0], tx, q, []), mtu);
    assert [] + Tx.Outstanding(tx) + q == Tx.Outstanding(tx) + q;
    assert one.done + Tx.Outstanding(one.tx) + one.q == one.done + (Tx.Outstanding(one.tx) + one.q);
  }

  lemma {:induction false} Conservation(tx: Tx.Tx, q: seq<Message>, evs: seq<Event>)
    requires Tx.ValidTx(tx) && SendsOnly(evs, 0)
    ensures var r := Transmit(tx, q, evs);
            Tx.Outstanding(tx) + q == r.done + (Tx.Outstanding(r.tx) + r.q)
    decreases evs
  {
    if evs != [] {
      var one := SendOne(tx, q, evs[0].mtu);
      var rest := Transmit(one.tx, one.q, evs[1..]);
      SendOneConserves(tx, q, evs[0].mtu);
      Conservation(one.tx, one.q, evs[1..]);
      var left := Tx.Outstanding(rest.tx) + rest.q;
      assert one.done + (rest.done + left) == one.done + rest.done + left;
    } else {
      assert [] + (Tx.Outstanding(tx) + q) == Tx.Outstanding(tx) + q;
    }
  }

  /** With MTUs of at least 6 the queue empties after as many packets as there is work. */
  lemma {:induction false} Drains(tx: Tx.Tx, q: seq<Message>, evs: seq<Event>)
    requires Tx.ValidTx(tx) && SendsOnly(evs, 6) && |evs| >= Tx.Work(tx, q)
    ensures var r := Transmit(tx, q, evs); r.tx.Idle? && r.q == [] && r.done == Tx.Outstanding(tx) + q
    decreases evs
  {
    Conservation(tx, q, evs);
    if evs != [] {
      var one := SendOne(tx, q, evs[0].mtu);
      Tx.BuildProgress(tx, q, evs[0].mtu);
      Drains(one.tx, one.q, evs[1..]);
    }
  }

  // ----- What a flush header does -----

  /** The transmitter is about to repeat the header, or has; the receiver takes the whole wire form for
      payload. */
  predicate Derailed(tx: Tx.Tx, rx: Rx.Rx)
  {
    && tx.Sending? && Tx.ValidTx(tx) && tx.m.payload != []
    && rx.Partial? && rx.opcode == tx.m.opcode && rx.reqApp == tx.m.reqApp && rx.len == |tx.m.payload|
    && |rx.got| < rx.len && rx.got == Wire(tx.m)[..if tx.offset == 0 then 0 else 4 + tx.offset]
  }

  /** What the peer makes of `m` after a flush: the start of its wire form for a payload. */
  function Bogus(m: Message): Message { Msg(m.opcode, m.reqApp, Wire(m)[..|m.payload|]) }

  predicate BogusFirst(m: Message, out: seq<Message>) { out != [] && out[0] == Bogus(m) }

  lemma BogusScanned(m: Message, rx: Rx.Rx, piece: seq<byte>, bs: seq<byte>)
    requires rx.Partial? && |rx.got| < rx.len == |m.payload| <= |rx.got| + |bs| && piece <= bs
    requires rx.got + piece <= Wire(m) && rx.len <= |rx.got| + |piece| && rx.opcode == m.opcode && rx.reqApp == m.reqApp
    ensures BogusFirst(m, Rx.Scan(rx, bs).out)
  {
    var need := rx.len - |rx.got|;
    assert rx.got + bs[..need] == (rx.got + piece)[..rx.len] == Wire(m)[..rx.len];
  }

  /** A turn continues the wire form where the receiver stands. */
  lemma PieceContinues(tx: Tx.Tx, rx: Rx.Rx, room: nat)
    requires Derailed(tx, rx) && room >= 5
    ensures rx.got + Tx.Piece(tx, room) == Wire(tx.m)[..4 + Tx.OffsetAfter(tx, room)]
    ensures Tx.OffsetAfter(tx, room) > 0
  {
  }

  /** The first turn decides how the packet begins, and a turn that does not finish ends it. */
  lemma FirstTurn(tx: Tx.Tx, q: seq<Message>, mtu: nat)
    requires tx.Sending? && Tx.ValidTx(tx) && mtu >= 6
    ensures var r := Tx.Build(tx, q, mtu);
            var piece, o := Tx.Piece(tx, mtu - 1), Tx.OffsetAfter(tx, mtu - 1);
            && [1] + piece <= r.pkt
            && (o < |tx.m.payload| ==> r == Tx.Built([1] + piece, Tx.Sending(tx.m, o), q, []))
  {
    var b := Tx.Built([1], tx, q, []);
    if Tx.OffsetAfter(tx, mtu - 1) < |tx.m.payload| {
      Tx.FillEnds(b, mtu);
    } else {
      assert Tx.Fill(b, mtu) == Tx.Fill(Tx.Turn(b, mtu - 1), mtu);
    }
    hide Tx.Fill;
  }

  lemma DerailedStep(tx: Tx.Tx, rx: Rx.Rx, q: seq<Message>, mtu: nat)
    requires Derailed(tx, rx) && mtu >= 6
    ensures var r := Tx.Build(tx, q, mtu);
            var p := Rx.Receive(rx, r.pkt);
            |r.pkt| > 1 && (BogusFirst(tx.m, p.out) || (p.out == [] && r.done == [] && Derailed(r.tx, p.rx) && r.tx.m == tx.m))
  {
    var r := Tx.Build(tx, q, mtu);
    var piece, o := Tx.Piece(tx, mtu - 1), Tx.OffsetAfter(tx, mtu - 1);
    FirstTurn(tx, q, mtu);
    PieceContinues(tx, rx, mtu - 1);
    hide Tx.Piece, Tx.OffsetAfter, Tx.Build, Tx.Fill, Wire;
    var bs := Rx.Body(r.pkt);
    assert piece <= bs;
    if rx.len <= |rx.got| + |bs| {
      BogusScanned(tx.m, rx, piece, bs);
    } else {
      assert bs == piece;
    }
  }

  lemma {:induction false} DerailedRun(tx: Tx.Tx, rx: Rx.Rx, q: seq<Message>, evs: seq<Event>)
    requires Derailed(tx, rx) && SendsOnly(evs, 6)
    ensures var r := Transmit(tx, q, evs);
            var p := Rx.ReceiveAll(rx, r.pkts);
            BogusFirst(tx.m, p.out) || r.tx.Sending?
    decreases evs
  {
    hide Tx.Fill, Rx.Scan;
    if evs != [] {
      var one := SendOne(tx, q, evs[0].mtu);
      var rest := Transmit(one.tx, one.q, evs[1..]);
      var pkt := Tx.Build(tx, q, evs[0].mtu).pkt;
      DerailedStep(tx, rx, q, evs[0].mtu);
      var p := Rx.Receive(rx, pkt);
      ReceiveOne(rx, pkt);
      Rx.ReceiveAllConcat(rx, [pkt], rest.pkts);
      if !BogusFirst(tx.m, p.out) {
        DerailedRun(one.tx, p.rx, one.q, evs[1..]);
        assert [] + Rx.ReceiveAll(p.rx, rest.pkts).out == Rx.ReceiveAll(p.rx, rest.pkts).out;
      }
    }
  }

  /** A payload that repeats its own header over and over. */
  predicate RepeatsHeader(m: Message) { m.payload != [] && m.payload <= Wire(m) }

  predicate NoneRepeats(q: seq<Message>)
  {
    forall i :: 0 <= i < |q| ==> !RepeatsHeader(q[i])
  }

  lemma NoneRepeatsSuffix(done: seq<Message>, left: seq<Message>)
    requires NoneRepeats(done + left)
    ensures NoneRepeats(left)
  {
    forall i | 0 <= i < |left|
      ensures !RepeatsHeader(left[i])
    {
      assert left[i] == (done + left)[|done| + i];
    }
  }

  lemma DifferBehind(done: seq<Message>, a: seq<Message>, b: seq<Message>)
    requires a != b
    ensures done + a != done + b
  {
    assert (done + a)[|done|..] == a && (done + b)[|done|..] == b;
  }

  /** The message whose header ended flush survives if and only if its payload repeats that header. */
  lemma FlushedSurvivesIff(m: Message, q: seq<Message>, evs: seq<Event>)
    requires SendsOnly(evs, 6) && m.payload != []
    requires var r := Transmit(Tx.Sending(m, 0), q, evs); r.tx.Idle?
    ensures var out := Rx.ReceiveAll(HeaderOnly(m), Transmit(Tx.Sending(m, 0), q, evs).pkts).out;
            out != [] && (out[0] == m <==> RepeatsHeader(m))
  {
    DerailedRun(Tx.Sending(m, 0), HeaderOnly(m), q, evs);
    assert RepeatsHeader(m) <==> Bogus(m) == m;
  }

  /** The packet after a flush starts a message the sender never queued. */
  lemma FlushedMessageCorrupted(m: Message, q: seq<Message>, evs: seq<Event>)
    requires SendsOnly(evs, 6) && NoneRepeats([m] + q) && m.payload != []
    requires var r := Transmit(Tx.Sending(m, 0), q, evs); r.tx.Idle? && r.q == []
    ensures var r := Transmit(Tx.Sending(m, 0), q, evs);
            Rx.ReceiveAll(HeaderOnly(m), r.pkts).out != r.done
  {
    var r := Transmit(Tx.Sending(m, 0), q, evs);
    FlushedSurvivesIff(m, q, evs);
    Conservation(Tx.Sending(m, 0), q, evs);
    assert r.done[0] == ([m] + q)[0] == m && !RepeatsHeader(([m] + q)[0]);
  }

  lemma {:induction false} FlushCorrupts(tx: Tx.Tx, q: seq<Message>, evs: seq<Event>)
    requires Tx.ValidTx(tx) && SendsOnly(evs, 6) && NoneRepeats(Tx.Outstanding(tx) + q)
    requires var r := Transmit(tx, q, evs); r.flushed && r.tx.Idle? && r.q == []
    ensures var r := Transmit(tx, q, evs); Rx.ReceiveAll(Mirror(tx), r.pkts).out != r.done
    decreases evs
  {
    var one := SendOne(tx, q, evs[0].mtu);
    var rest := Transmit(one.tx, one.q, evs[1..]);
    OneReceived(tx, q, evs[0].mtu);
    Rx.ReceiveAllConcat(Mirror(tx), one.pkts, rest.pkts);
    SendOneConserves(tx, q, evs[0].mtu);
    NoneRepeatsSuffix(one.done, Tx.Outstanding(one.tx) + one.q);
    if one.flushed {
      FlushedMessageCorrupted(one.tx.m, one.q, evs[1..]);
      DifferBehind(one.done, Rx.ReceiveAll(HeaderOnly(one.tx.m), rest.pkts).out, rest.done);
    } else {
      FlushCorrupts(one.tx, one.q, evs[1..]);
      DifferBehind(one.done, Rx.ReceiveAll(Mirror(one.tx), rest.pkts).out, rest.done);
    }
  }

  /** A drained queue of messages none of which repeats its own header arrives intact if and only if no
      packet ended flush with a header. */
  lemma DeliveredIffNoFlush(q: seq<Message>, evs: seq<Event>)
    requires SendsOnly(evs, 6) && |evs| >= Tx.Work(Tx.Idle, q) && NoneRepeats(q)
    ensures var r := Transmit(Tx.Idle, q, evs);
            Rx.ReceiveAll(Rx.Idle, r.pkts).out == q <==> !r.flushed
  {
    var r := Transmit(Tx.Idle, q, evs);
    Drains(Tx.Idle, q, evs);
    assert [] + q == q;
    if r.flushed {
      FlushCorrupts(Tx.Idle, q, evs);
    } else {
      RoundTrip(Tx.Idle, q, evs);
    }
  }

  /** In packets of 9 bytes, a one-byte message behind a header-only one has its header end flush. */
  lemma FlushFirstPacket(m0: Message, m: Message)
    requires m0.payload == [] && |m.payload| == 1
    ensures Tx.Build(Tx.Idle, [m0, m], 9) == Tx.Built([0] + Header(m0) + Header(m), Tx.Sending(m, 0), [], [m0])
  {
    var q, none: seq<Message> := [m], [];
    var b0 := Tx.Built([0], Tx.Sending(m0, 0), q, []);
    var b1 := Tx.Built([0] + Header(m0), Tx.Idle, q, [] + [m0]);
    var b2 := Tx.Built([0] + Header(m0), Tx.Sending(m, 0), none, [m0]);
    var b3 := Tx.Built([0] + Header(m0) + Header(m), Tx.Sending(m, 0), none, [m0]);
    assert q[1..] == none && [m0, m][1..] == q;
    assert Tx.Piece(b0.tx, 8) == Header(m0);
    assert Tx.Piece(b2.tx, 4) == Header(m);
    assert Tx.Fill(b2, 9) == Tx.Fill(b3, 9) == b3;
    assert b1.(tx := Tx.Sending(q[0], 0), q := q[1..]) == b2 by { assert [] + [m0] == [m0]; }
    assert Tx.Fill(b1, 9) == Tx.Fill(b2, 9);
    assert Tx.Fill(b0, 9) == Tx.Fill(b1, 9);
  }

  lemma FlushSecondPacket(m: Message)
    requires |m.payload| == 1
    ensures Tx.Build(Tx.Sending(m, 0), [], 9) == Tx.Built([1] + Wire(m), Tx.Idle, [], [m])
  {
    var b := Tx.Built([1], Tx.Sending(m, 0), [], []);
    var b' := Tx.Built([1] + Wire(m), Tx.Idle, [], [] + [m]);
    Tx.LastPiece(b.tx, 8);
    assert Tx.Fill(b, 9) == Tx.Fill(b', 9) == b';
  }

  lemma FlushPackets(m0: Message, m: Message)
    requires m0.payload == [] && |m.payload| == 1
    ensures var r := Transmit(Tx.Idle, [m0, m], [Send(9), Send(9)]);
            r.flushed && r.done == [m0, m] && r.pkts == [[0] + Header(m0) + Header(m), [1] + Wire(m)]
  {
    FlushFirstPacket(m0, m);
    FlushSecondPacket(m);
    Tx.BuildFlushesIff(Tx.Idle, [m0, m], 9);
    var evs := [Send(9), Send(9)];
    assert evs[1..] == [Send(9)] && evs[1..][1..] == [];
    assert Transmit(Tx.Sending(m, 0), [], evs[1..]).pkts == [[1] + Wire(m)];
  }

  lemma FlushFirstReceived(m0: Message, m: Message)
    requires m0.payload == [] && |m.payload| == 1
    ensures Rx.Receive(Rx.Idle, [0] + Header(m0) + Header(m)) == Rx.Parsed(HeaderOnly(m), [m0])
  {
    UnsentScanned(Tx.Sending(m0, 0), Header(m));
    HeaderScanned(m, []);
    assert Header(m) + [] == Header(m);
    assert Rx.Body([0] + Header(m0) + Header(m)) == Wire(m0) + Header(m);
  }

  lemma FlushSecondReceived(m: Message, bogus: Message)
    requires |m.payload| == 1 && m.opcode != MAGIC && m.reqApp != MAGIC
    requires bogus == Msg(m.opcode, m.reqApp, [MAGIC])
    ensures Rx.Receive(HeaderOnly(m), [1] + Wire(m)).out == [bogus]
  {
    var tail := [m.opcode, m.reqApp, 1] + m.payload;
    assert Rx.Body([1] + Wire(m)) == bogus.payload[0..] + tail;
    RestScanned(bogus, 0, tail);
    assert Reading(bogus, 0) == HeaderOnly(m);
    GarbageScanned(tail);
  }

  /** The peer reads the repeated header's magic byte as the payload. */
  lemma FlushReceived(m0: Message, m: Message)
    requires m0.payload == [] && |m.payload| == 1 && m.opcode != MAGIC && m.reqApp != MAGIC
    ensures Rx.ReceiveAll(Rx.Idle, [[0] + Header(m0) + Header(m), [1] + Wire(m)]).out
            == [m0, Msg(m.opcode, m.reqApp, [MAGIC])]
  {
    var p1, p2 := [0] + Header(m0) + Header(m), [1] + Wire(m);
    FlushFirstReceived(m0, m);
    FlushSecondReceived(m, Msg(m.opcode, m.reqApp, [MAGIC]));
    ReceiveOne(Rx.Idle, p1);
    ReceiveOne(HeaderOnly(m), p2);
    Rx.ReceiveAllConcat(Rx.Idle, [p1], [p2]);
    assert [p1] + [p2] == [p1, p2];
  }

  lemma GarbageScanned(bs: seq<byte>)
    requires |bs| == 4 && bs[0] != MAGIC && bs[1] != MAGIC && bs[2] != MAGIC
    ensures Rx.Scan(Rx.Idle, bs).out == []
  {
    assert Rx.Scan(Rx.Idle, bs[3..]).out == [] by { assert bs[3..][1..] == []; }
    assert Rx.Scan(Rx.Idle, bs[2..]).out == [] by { assert bs[2..][1..] == bs[3..]; }
    assert Rx.Scan(Rx.Idle, bs[1..]).out == [] by { assert bs[1..][1..] == bs[2..]; }
  }

  /** A flush that loses a message: the peer gets the magic byte instead of the payload. */
  lemma FlushExample()
    ensures var m0, m := Msg(1, 1, []), Msg(1, 2, [7]);
            var r := Transmit(Tx.Idle, [m0, m], [Send(9), Send(9)]);
            r.done == [m0, m] && Rx.ReceiveAll(Rx.Idle, r.pkts).out == [m0, Msg(1, 2, [MAGIC])]
  {
    FlushPackets(Msg(1, 1, []), Msg(1, 2, [7]));
    FlushReceived(Msg(1, 1, []), Msg(1, 2, [7]));
  }

  /** The restriction is needed: a payload that repeats the header may survive. */
  lemma FlushMayGoUnnoticed()
    ensures var m0, m := Msg(1, 1, []), Msg(1, 2, [MAGIC]);
            var r := Transmit(Tx.Idle, [m0, m], [Send(9), Send(9)]);
            r.flushed && Rx.ReceiveAll(Rx.Idle, r.pkts).out == [m0, m]
  {
    FlushPackets(Msg(1, 1, []), Msg(1, 2, [MAGIC]));
    FlushReceived(Msg(1, 1, []), Msg(1, 2, [MAGIC]));
  }

  // ----- A fixed MTU -----

  function Repeat(mtu: nat, n: nat): (evs: seq<Event>)
    ensures |evs| == n && forall i :: 0 <= i < n ==> evs[i] == Send(mtu)
  {
    seq(n, _ => Send(mtu))
  }

  predicate EmptiedBy(q: seq<Message>, evs: seq<Event>)
  {
    var r := Transmit(Tx.Idle, q, evs);
    r.tx.Idle? && r.q == []
  }

  predicate AllEmpty(q: seq<Message>) { forall i :: 0 <= i < |q| ==> q[i].payload == [] }

  /** No payload byte has been sent of what is left, and none can be. */
  predicate Stuck(tx: Tx.Tx, q: seq<Message>, mtu: nat)
  {
    var left := Tx.Outstanding(tx) + q;
    && (tx.Sending? ==> tx.offset == 0) && left != []
    && (mtu < 5 || (mtu == 5 && !AllEmpty(left)))
  }

  /** A message that has not begun, in a packet with room for its header and nothing more. */
  lemma BuildAtFive(m: Message, q: seq<Message>)
    ensures Tx.Build(Tx.Sending(m, 0), q, 5) ==
              if m.payload == [] then Tx.Built([1] + Header(m), Tx.Idle, q, [m])
              else Tx.Built([1] + Header(m), Tx.Sending(m, 0), q, [])
    ensures Tx.Build(Tx.Idle, [m] + q, 5) == Tx.Build(Tx.Sending(m, 0), q, 5).(pkt := [0] + Header(m))
  {
    assert Tx.Piece(Tx.Sending(m, 0), 4) == Header(m);
    assert ([m] + q)[1..] == q;
    assert [] + [m] == [m];
    FillAtFive([0], m, q);
    FillAtFive([1], m, q);
  }

  lemma FillAtFive(flag: seq<byte>, m: Message, q: seq<Message>)
    requires |flag| == 1
    ensures Tx.Fill(Tx.Built(flag, Tx.Sending(m, 0), q, []), 5) ==
              if m.payload == [] then Tx.Built(flag + Header(m), Tx.Idle, q, [m])
              else Tx.Built(flag + Header(m), Tx.Sending(m, 0), q, [])
  {
    var tx := Tx.Sending(m, 0);
    assert Tx.Piece(tx, 4) == Header(m);
    var pkt := flag + Header(m);
    var whole, begun := Tx.Built(pkt, Tx.Idle, q, [] + [m]), Tx.Built(pkt, tx, q, []);
    assert Tx.Fill(whole, 5) == whole && Tx.Fill(begun, 5) == begun;
  }

  lemma StuckStep(tx: Tx.Tx, q: seq<Message>, mtu: nat)
    requires Stuck(tx, q, mtu)
    ensures Stuck(Tx.Build(tx, q, mtu).tx, Tx.Build(tx, q, mtu).q, mtu)
  {
    if mtu < 5 {
      StuckBelowFive(tx, q, mtu);
    } else {
      StuckAtFive(tx, q);
    }
  }

  /** Not even a header fits. */
  lemma StuckBelowFive(tx: Tx.Tx, q: seq<Message>, mtu: nat)
    requires Stuck(tx, q, mtu) && mtu < 5
    ensures Stuck(Tx.Build(tx, q, mtu).tx, Tx.Build(tx, q, mtu).q, mtu)
  {
    hide Tx.Fill, Tx.Turn;
    var b := Tx.Built([if tx.Sending? then 1 else 0], tx, q, []);
    Tx.FillUnfold(b, mtu);
    if tx.Idle? {
      Tx.FillUnfold(b.(tx := Tx.Sending(q[0], 0), q := q[1..]), mtu);
    }
  }

  /** A header fits and nothing behind it. */
  lemma StuckAtFive(tx: Tx.Tx, q: seq<Message>)
    requires Stuck(tx, q, 5)
    ensures Stuck(Tx.Build(tx, q, 5).tx, Tx.Build(tx, q, 5).q, 5)
  {
    if tx.Idle? {
      assert Tx.Outstanding(tx) + q == q == [q[0]] + q[1..];
      StuckFrom(tx, q, q[0], q[1..]);
    } else {
      StuckFrom(tx, q, tx.m, q);
    }
  }

  lemma StuckFrom(tx: Tx.Tx, q: seq<Message>, m: Message, rest: seq<Message>)
    requires (tx == Tx.Idle && q == [m] + rest) || (tx == Tx.Sending(m, 0) && q == rest)
    requires !AllEmpty([m] + rest)
    ensures Stuck(Tx.Build(tx, q, 5).tx, Tx.Build(tx, q, 5).q, 5)
  {
    OneAtFive(tx, q, m, rest);
    hide Tx.Build;
    if m.payload == [] {
      var i :| 0 <= i < |[m] + rest| && ([m] + rest)[i].payload != [];
      assert rest[i - 1] == ([m] + rest)[i];
      Seqs.Empty(rest);
    }
  }

  /** The first message goes if it is only a header, and stays otherwise. */
  lemma OneAtFive(tx: Tx.Tx, q: seq<Message>, m: Message, rest: seq<Message>)
    requires (tx == Tx.Idle && q == [m] + rest) || (tx == Tx.Sending(m, 0) && q == rest)
    ensures var r := Tx.Build(tx, q, 5); r.tx == (if m.payload == [] then Tx.Idle else Tx.Sending(m, 0)) && r.q == rest
  {
    BuildAtFive(m, rest);
    hide Tx.Build;
  }

  lemma {:induction false} StuckForever(tx: Tx.Tx, q: seq<Message>, mtu: nat, n: nat)
    requires Stuck(tx, q, mtu)
    ensures var r := Transmit(tx, q, Repeat(mtu, n)); Stuck(r.tx, r.q, mtu)
    decreases n
  {
    if n > 0 {
      StuckStep(tx, q, mtu);
      var one := SendOne(tx, q, mtu);
      assert Repeat(mtu, n)[1..] == Repeat(mtu, n - 1);
      StuckForever(one.tx, one.q, mtu, n - 1);
    }
  }

  lemma {:induction false} HeadersDrain(q: seq<Message>)
    requires AllEmpty(q)
    ensures EmptiedBy(q, Repeat(5, |q|))
  {
    if q != [] {
      var m, rest := q[0], q[1..];
      assert q == [m] + rest;
      BuildAtFive(m, rest);
      assert Repeat(5, |q|)[1..] == Repeat(5, |q| - 1);
      HeadersDrain(rest);
    }
  }

  /** With a fixed MTU the queue empties eventually exactly if the MTU is at least 6, or is 5 and
      every message is header-only, or there was nothing to send. */
  lemma EmptiesIff(q: seq<Message>, mtu: nat)
    ensures (exists n: nat :: EmptiedBy(q, Repeat(mtu, n))) <==> q == [] || mtu >= 6 || (mtu == 5 && AllEmpty(q))
  {
    if q == [] {
      assert EmptiedBy(q, Repeat(mtu, 0));
    } else if mtu >= 6 {
      var n := Tx.Work(Tx.Idle, q);
      Drains(Tx.Idle, q, Repeat(mtu, n));
      assert EmptiedBy(q, Repeat(mtu, n));
    } else if mtu == 5 && AllEmpty(q) {
      HeadersDrain(q);
    } else {
      assert Tx.Outstanding(Tx.Idle) + q == q;
      forall n: nat
        ensures !EmptiedBy(q, Repeat(mtu, n))
      {
        StuckForever(Tx.Idle, q, mtu, n);
      }
    }
  }
}
