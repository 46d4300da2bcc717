/** The fragmenter of components/ble_manager/src/ble_packet_handler.c, as a function of the
    transmit context, the queue and the MTU. `PacketHandler` holds the method. */
module PacketTx {
  import opened Basics
  import opened Bytes
  import opened BleTypes
  import Seqs

  /** `Sending` is `msg_active`; the header counts as unsent while `offset` is 0. */
  datatype Tx = Idle | Sending(m: Message, offset: nat)

  predicate ValidTx(tx: Tx)
  {
    tx.Sending? ==> tx.offset == 0 || tx.offset < |tx.m.payload|
  }

  /** A packet in the making, the state it leaves, and the messages it completes. */
  datatype Built = Built(pkt: seq<byte>, tx: Tx, q: seq<Message>, done: seq<Message>)

  /** What one turn writes for the message being sent. */
  function Piece(tx: Tx, room: nat): (p: seq<byte>)
    requires tx.Sending? && ValidTx(tx) && (tx.offset == 0 ==> room >= 4)
    ensures |p| <= room
    ensures room > 0 ==> |p| > 0
  {
    if tx.offset == 0 then Header(tx.m) + tx.m.payload[..Min(|tx.m.payload|, room - 4)]
    else tx.m.payload[tx.offset..tx.offset + Min(|tx.m.payload| - tx.offset, room)]
  }

  /** How much of the payload has been sent after that turn. */
  function OffsetAfter(tx: Tx, room: nat): (o: nat)
    requires tx.Sending? && ValidTx(tx) && (tx.offset == 0 ==> room >= 4)
    ensures o <= |tx.m.payload|
  {
    tx.offset + |Piece(tx, room)| - (if tx.offset == 0 then 4 else 0)
  }

  /** What remains to be written of the message being sent. */
  function Unsent(tx: Tx): seq<byte>
    requires tx.Sending? && ValidTx(tx)
  {
    if tx.offset == 0 then Wire(tx.m) else tx.m.payload[tx.offset..]
  }

  /** The turn that finishes a message writes all that remains of it. */
  lemma LastPiece(tx: Tx, room: nat)
    requires tx.Sending? && ValidTx(tx) && (tx.offset == 0 ==> room >= 4)
    requires OffsetAfter(tx, room) >= |tx.m.payload|
    ensures Piece(tx, room) == Unsent(tx)
  {
  }

  function Fill(b: Built, mtu: nat): (r: Built)
    requires ValidTx(b.tx)
    ensures ValidTx(r.tx) && b.pkt <= r.pkt && b.done <= r.done
    ensures |r.pkt| <= mtu || r.pkt == b.pkt
    decreases mtu - |b.pkt|, |b.q|
  {
    if |b.pkt| >= mtu then b
    else if b.tx.Idle? then
      if b.q == [] then b else Fill(b.(tx := Sending(b.q[0], 0), q := b.q[1..]), mtu)
    else
      var room := mtu - |b.pkt|;
      if b.tx.offset == 0 && room < 4 then b
      else
        Fill(Turn(b, room), mtu)
  }

  /** The state after one turn on the message being sent. */
  function Turn(b: Built, room: nat): (next: Built)
    requires b.tx.Sending? && ValidTx(b.tx) && room > 0 && (b.tx.offset == 0 ==> room >= 4)
    ensures ValidTx(next.tx)
  {
    var o := OffsetAfter(b.tx, room);
    var pkt := b.pkt + Piece(b.tx, room);
    if o >= |b.tx.m.payload| then Built(pkt, Idle, b.q, b.done + [b.tx.m])
    else Built(pkt, Sending(b.tx.m, o), b.q, b.done)
  }

  /** The cases of the loop, for proofs that need one unfolding only. */
  lemma FillUnfold(b: Built, mtu: nat)
    requires ValidTx(b.tx)
    ensures |b.pkt| >= mtu ==> Fill(b, mtu) == b
    ensures |b.pkt| < mtu && b.tx.Idle? ==>
              Fill(b, mtu) == if b.q == [] then b else Fill(b.(tx := Sending(b.q[0], 0), q := b.q[1..]), mtu)
    ensures |b.pkt| < mtu && b.tx.Sending? ==>
              Fill(b, mtu) == if b.tx.offset == 0 && mtu - |b.pkt| < 4 then b else Fill(Turn(b, mtu - |b.pkt|), mtu)
  {
    hide Turn, Piece, OffsetAfter;
  }

  lemma TurnKeepsQueue(b: Built, room: nat)
    requires b.tx.Sending? && ValidTx(b.tx) && room > 0 && (b.tx.offset == 0 ==> room >= 4)
    ensures Turn(b, room).q == b.q
  {
  }

  /** A turn in the terms of what is written: `head` is the packet with the header, if due, and `chunk`
      the payload bytes that fit behind it. */
  lemma TurnWrites(b: Built, room: nat, head: seq<byte>, chunk: nat)
    requires b.tx.Sending? && ValidTx(b.tx) && room > 0 && (b.tx.offset == 0 ==> room >= 4)
    requires head == if b.tx.offset == 0 then b.pkt + Header(b.tx.m) else b.pkt
    requires chunk == Min(|b.tx.m.payload| - b.tx.offset, room - (|head| - |b.pkt|))
    ensures var next, o := Turn(b, room), b.tx.offset + chunk;
            && next.pkt == head + b.tx.m.payload[b.tx.offset..o] && |next.pkt| <= |b.pkt| + room && |next.pkt| > |b.pkt|
            && next.tx == if o >= |b.tx.m.payload| then Idle else Sending(b.tx.m, o)
  {
    if b.tx.offset == 0 {
      Seqs.Assoc(b.pkt, Header(b.tx.m), b.tx.m.payload[0..chunk]);
    }
  }

  /** A turn that does not finish its message ends the packet. */
  lemma FillEnds(b: Built, mtu: nat)
    requires |b.pkt| < mtu && b.tx.Sending? && ValidTx(b.tx) && (b.tx.offset == 0 ==> mtu - |b.pkt| >= 4)
    requires OffsetAfter(b.tx, mtu - |b.pkt|) < |b.tx.m.payload|
    ensures var room := mtu - |b.pkt|;
            && Fill(b, mtu) == Built(b.pkt + Piece(b.tx, room), Sending(b.tx.m, OffsetAfter(b.tx, room)), b.q, b.done)
            && |Piece(b.tx, room)| == room
  {
    var next := Turn(b, mtu - |b.pkt|);
    assert Fill(b, mtu) == Fill(next, mtu) && |next.pkt| == mtu;
  }

  function Build(tx: Tx, q: seq<Message>, mtu: nat): (r: Built)
    requires ValidTx(tx)
    ensures ValidTx(r.tx) && 1 <= |r.pkt|
    ensures r.pkt[0] == (if tx.Sending? then 1 else 0)
  {
    Fill(Built([if tx.Sending? then 1 else 0], tx, q, []), mtu)
  }

  function Outstanding(tx: Tx): seq<Message> { if tx.Idle? then [] else [tx.m] }

  /** Nothing is lost, duplicated or reordered between the queue and the completed messages. */
  lemma {:induction false} FillConserves(b: Built, mtu: nat)
    requires ValidTx(b.tx)
    ensures var r := Fill(b, mtu);
            b.done + Outstanding(b.tx) + b.q == r.done + Outstanding(r.tx) + r.q
    decreases mtu - |b.pkt|, |b.q|
  {
    FillUnfold(b, mtu);
    hide Fill;
    if |b.pkt| >= mtu {
    } else if b.tx.Idle? {
      if b.q != [] {
        FillConserves(b.(tx := Sending(b.q[0], 0), q := b.q[1..]), mtu);
      }
    } else if b.tx.offset != 0 || mtu - |b.pkt| >= 4 {
      TurnConserves(b, mtu - |b.pkt|);
      hide Turn;
      FillConserves(Turn(b, mtu - |b.pkt|), mtu);
    }
  }

  lemma TurnConserves(b: Built, room: nat)
    requires b.tx.Sending? && ValidTx(b.tx) && room > 0 && (b.tx.offset == 0 ==> room >= 4)
    ensures var next := Turn(b, room); b.done + Outstanding(b.tx) + b.q == next.done + Outstanding(next.tx) + next.q
  {
    Seqs.Empty(b.done + [b.tx.m]);
    hide Piece, OffsetAfter;
  }

  // ----- The header that ends flush with the packet -----

  /** With `free` bytes left, packing these messages ends a packet exactly after the header of a
      message that has a payload. Computable from the lengths alone. */
  predicate HeaderEndsFlush(free: nat, q: seq<Message>)
  {
    q != [] &&
    var n := |q[0].payload|;
    if free == 4 && n > 0 then true
    else free >= 4 + n && HeaderEndsFlush(free - 4 - n, q[1..])
  }

  predicate FlushWithin(free: nat, tx: Tx, q: seq<Message>)
  {
    if tx.Idle? then HeaderEndsFlush(free, q)
    else if tx.offset == 0 then HeaderEndsFlush(free, [tx.m] + q)
    else var left := |tx.m.payload| - tx.offset;
         0 <= left <= free && HeaderEndsFlush(free - left, q)
  }

  predicate BuildFlushes(tx: Tx, q: seq<Message>, mtu: nat)
  {
    mtu >= 2 && FlushWithin(mtu - 1, tx, q)
  }

  /** A full packet that leaves a message started with nothing of its payload sent. */
  predicate Flushed(r: Built, mtu: nat)
  {
    r.tx.Sending? && r.tx.offset == 0 && |r.pkt| >= mtu
  }

  lemma TurnFlush(b: Built, room: nat)
    requires b.tx.Sending? && ValidTx(b.tx) && room > 0 && (b.tx.offset == 0 ==> room >= 4)
    ensures var next := Turn(b, room);
            var used := |next.pkt| - |b.pkt|;
            if next.tx.Idle? then used <= room && (FlushWithin(room, b.tx, b.q) <==> FlushWithin(room - used, next.tx, b.q))
            else used == room && (FlushWithin(room, b.tx, b.q) <==> next.tx.offset == 0)
  {
    assert ([b.tx.m] + b.q)[1..] == b.q;
  }

  lemma {:induction false} FillFlushes(b: Built, mtu: nat)
    requires ValidTx(b.tx) && |b.pkt| < mtu
    ensures Flushed(Fill(b, mtu), mtu) <==> FlushWithin(mtu - |b.pkt|, b.tx, b.q)
    decreases mtu - |b.pkt|, |b.q|
  {
    FillUnfold(b, mtu);
    hide Fill;
    if b.tx.Idle? {
      if b.q != [] {
        assert [b.q[0]] + b.q[1..] == b.q;
        FillFlushes(b.(tx := Sending(b.q[0], 0), q := b.q[1..]), mtu);
      }
    } else {
      var room := mtu - |b.pkt|;
      if b.tx.offset != 0 || room >= 4 {
        TurnFlush(b, room);
        var next := Turn(b, room);
        TurnKeepsQueue(b, room);
        hide Turn;
        if next.tx.Idle? && |next.pkt| < mtu {
          FillFlushes(next, mtu);
        } else {
          FillUnfold(next, mtu);
          assert !HeaderEndsFlush(0, b.q);
        }
      }
    }
  }

  /** The packet overruns into a repeated header exactly when the lengths say so. */
  lemma BuildFlushesIff(tx: Tx, q: seq<Message>, mtu: nat)
    requires ValidTx(tx) && mtu >= 2
    ensures Flushed(Build(tx, q, mtu), mtu) <==> BuildFlushes(tx, q, mtu)
  {
    FillFlushes(Built([if tx.Sending? then 1 else 0], tx, q, []), mtu);
  }

  // ----- Progress -----

  function PayloadBytes(q: seq<Message>): nat
  {
    if q == [] then 0 else |q[0].payload| + PayloadBytes(q[1..])
  }

  /** Unsent payload bytes plus unfinished messages: an upper bound on the packets still needed. */
  function Work(tx: Tx, q: seq<Message>): nat
    requires ValidTx(tx)
  {
    |q| + PayloadBytes(q) + (if tx.Idle? then 0 else 1 + |tx.m.payload| - tx.offset)
  }

  lemma {:induction false} FillProgress(b: Built, mtu: nat)
    requires ValidTx(b.tx)
    ensures var r := Fill(b, mtu); Work(r.tx, r.q) <= Work(b.tx, b.q)
    decreases mtu - |b.pkt|, |b.q|
  {
    FillUnfold(b, mtu);
    hide Fill;
    if |b.pkt| >= mtu {
    } else if b.tx.Idle? {
      if b.q != [] {
        FillProgress(b.(tx := Sending(b.q[0], 0), q := b.q[1..]), mtu);
      }
    } else if b.tx.offset != 0 || mtu - |b.pkt| >= 4 {
      TurnProgress(b, mtu - |b.pkt|);
      hide Turn;
      FillProgress(Turn(b, mtu - |b.pkt|), mtu);
    }
  }

  lemma TurnProgress(b: Built, room: nat)
    requires b.tx.Sending? && ValidTx(b.tx) && room > 0 && (b.tx.offset == 0 ==> room >= 4)
    ensures var next := Turn(b, room); Work(next.tx, next.q) <= Work(b.tx, b.q)
  {
    hide Piece;
  }

  /** With an MTU of at least 6 every packet brings the end nearer, and the call reports an empty
      packet exactly when there is nothing left to send. */
  lemma BuildProgress(tx: Tx, q: seq<Message>, mtu: nat)
    requires ValidTx(tx) && mtu >= 6
    ensures var r := Build(tx, q, mtu);
            if Work(tx, q) == 0 then r == Built([0], Idle, [], []) && tx.Idle? && q == []
            else |r.pkt| > 1 && Work(r.tx, r.q) < Work(tx, q)
  {
    var b0 := Built([if tx.Sending? then 1 else 0], tx, q, []);
    if Work(tx, q) > 0 {
      var b := if tx.Idle? then b0.(tx := Sending(q[0], 0), q := q[1..]) else b0;
      assert Fill(b0, mtu) == Fill(b, mtu);
      FillProgress(Turn(b, mtu - 1), mtu);
    }
  }

  /** A packet is packed as full as it can be: it ends short of the MTU only when nothing is left to
      send, or when the next header does not fit. */
  lemma {:induction false} FillIsGreedy(b: Built, mtu: nat)
    requires ValidTx(b.tx) && |b.pkt| <= mtu
    ensures var r := Fill(b, mtu);
            |r.pkt| == mtu || (r.tx.Idle? && r.q == []) || (r.tx.Sending? && r.tx.offset == 0 && mtu - |r.pkt| < 4)
    decreases mtu - |b.pkt|, |b.q|
  {
    FillUnfold(b, mtu);
    hide Fill;
    if |b.pkt| < mtu {
      if b.tx.Idle? {
        if b.q != [] {
          FillIsGreedy(b.(tx := Sending(b.q[0], 0), q := b.q[1..]), mtu);
        }
      } else if b.tx.offset != 0 || mtu - |b.pkt| >= 4 {
        TurnFits(b, mtu - |b.pkt|);
        hide Turn;
        FillIsGreedy(Turn(b, mtu - |b.pkt|), mtu);
      }
    }
  }

  lemma TurnFits(b: Built, room: nat)
    requires b.tx.Sending? && ValidTx(b.tx) && room > 0 && (b.tx.offset == 0 ==> room >= 4)
    ensures var next := Turn(b, room); |b.pkt| < |next.pkt| <= |b.pkt| + room && next.q == b.q
  {
  }
}
