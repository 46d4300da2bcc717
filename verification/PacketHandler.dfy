/** components/ble_manager/src/ble_packet_handler.c with its static contexts, and the two bounded
    queues of ble_fifo.c it works between. Only the first `len` bytes of a stored payload are
    modelled. */
module PacketHandler {
  import opened Bytes
  import opened BleTypes
  import opened Basics
  import opened RingBuffer
  import Seqs
  import PTx = PacketTx
  import PRx = PacketRx
  import Link = PacketLink

  // ----- ble_fifo.c -----

  type Fifo = Ring<Message>

  datatype Direction = BleTx | BleRx

  /** A queue of `ble_fifo_init` that holds `q`. */
  ghost predicate Holds(f: Fifo, q: seq<Message>)
    reads f, f.storage
  {
    f.Valid() && f.storage.Length == FIFO_SIZE && f.policy == DropOldest && f.Contents() == q
  }

  /** Appending each message in turn to a full-dropping queue. */
  function PushAll(q: seq<Message>, ms: seq<Message>): seq<Message>
  {
    if ms == [] then q else Pushed(PushAll(q, ms[..|ms| - 1]), FIFO_SIZE, DropOldest, ms[|ms| - 1])
  }

  lemma {:induction false} PushAllConcat(q: seq<Message>, a: seq<Message>, b: seq<Message>)
    ensures PushAll(q, a + b) == PushAll(PushAll(q, a), b)
  {
    if b == [] {
      assert a + b == a;
    } else {
      var n := |b| - 1;
      assert (a + b)[..|a + b| - 1] == a + b[..n];
      PushAllConcat(q, a, b[..n]);
    }
  }

  lemma PushOne(q: seq<Message>, m: Message)
    ensures PushAll(q, [m]) == Pushed(q, FIFO_SIZE, DropOldest, m) && PushAll(q, []) == q
  {
    assert [m][..0] == [];
  }

  /** add_ble_msg_to_queue: too long a message is refused, any other goes to the chosen queue. */
  method AddMsg(txFifo: Fifo, rxFifo: Fifo, msg: Msg, to: Direction, ghost tq: seq<Message>, ghost rq: seq<Message>) returns (ok: bool)
    requires Holds(txFifo, tq) && Holds(rxFifo, rq) && txFifo != rxFifo && txFifo.storage != rxFifo.storage
    modifies txFifo, txFifo.storage, rxFifo, rxFifo.storage
    ensures ok <==> |msg.payload| <= MAX_PAYLOAD
    ensures Holds(txFifo, if ok && to == BleTx then PushAll(tq, [msg]) else tq)
    ensures Holds(rxFifo, if ok && to == BleRx then PushAll(rq, [msg]) else rq)
  {
    if |msg.payload| > MAX_PAYLOAD {
      return false;
    }
    PushOne(tq, msg);
    PushOne(rq, msg);
    match to {
      case BleTx => ok := txFifo.Push(msg);
      case BleRx => ok := rxFifo.Push(msg);
    }
  }

  /** memcpy of `n` bytes behind the first `at`. */
  method CopyInto(dst: array<byte>, at: nat, src: seq<byte>, from: nat, n: nat)
    requires at + n <= dst.Length && from + n <= |src|
    modifies dst
    ensures dst[..at + n] == old(dst[..at]) + src[from..from + n]
  {
    var k := 0;
    while k < n
      invariant 0 <= k <= n && dst[..at] == old(dst[..at])
      invariant forall j :: at <= j < at + k ==> dst[j] == src[from + (j - at)]
    {
      dst[at + k] := src[from + k];
      k := k + 1;
    }
    assert dst[at..at + n] == src[from..from + n];
    assert dst[..at + n] == dst[..at] + dst[at..at + n];
  }

  // ----- ble_build_next_packet -----

  class TxContext {
    const fifo: Fifo
    var msg: Message
    var offset: nat
    var active: bool

    ghost predicate Valid(q: seq<Message>)
      reads this, fifo, fifo.storage
    {
      PTx.ValidTx(View()) && Holds(fifo, q)
    }

    ghost function View(): PTx.Tx
      reads this
    {
      if active then PTx.Sending(msg, offset) else PTx.Idle
    }

    constructor (f: Fifo, ghost q: seq<Message>)
      requires Holds(f, q)
      ensures fifo == f && Valid(q) && View() == PTx.Idle
    {
      fifo := f;
      msg, offset, active := Msg(0, 0, []), 0, false;
    }

    /** tx_reset_context: the message being sent is dropped. */
    method Reset()
      modifies this`active, this`offset
      ensures View() == PTx.Idle
    {
      active, offset := false, 0;
    }

    /** ble_build_next_packet into a caller's buffer. */
    method BuildNextPacket(buf: array<byte>, mtu: nat, ghost q: seq<Message>) returns (ok: bool, outLen: nat)
      requires Valid(q) && buf.Length >= 1 && buf.Length >= mtu
      modifies buf, this, fifo
      ensures var r := PTx.Build(old(View()), q, mtu);
              && outLen == |r.pkt| <= buf.Length && buf[..outLen] == r.pkt
              && View() == r.tx && Valid(r.q) && ok == (outLen > 1)
    {
      hide Holds;
      var i := 0;
      buf[i] := if active then 1 else 0;
      i := 1;
      ghost var b := PTx.Built([buf[0]], View(), q, []);
      ghost var final := PTx.Fill(b, mtu);
      var full := false;
      assert buf[..1] == [buf[0]];
      while i < mtu && !full
        invariant 1 <= i <= buf.Length && Valid(b.q)
        invariant b.pkt == buf[..i] && b.tx == View()
        invariant PTx.Fill(b, mtu) == final && (full ==> final == b)
        decreases mtu - i, !full
      {
        hide PTx.Fill;
        i, full, b := FillTurn(buf, i, mtu, b);
      }
      outLen := i;
      ok := i > 1;
    }

    /** One turn of that loop; `stop` is its `break`. */
    method FillTurn(buf: array<byte>, at: nat, mtu: nat, ghost b: PTx.Built)
      returns (i: nat, stop: bool, ghost next: PTx.Built)
      requires at < mtu <= buf.Length && Valid(b.q) && b.pkt == buf[..at] && b.tx == View()
      modifies buf, this, fifo
      ensures at <= i <= mtu && Valid(next.q) && next.pkt == buf[..i] && next.tx == View()
      ensures PTx.Fill(next, mtu) == PTx.Fill(b, mtu)
      ensures if stop then PTx.Fill(next, mtu) == next else at < i
    {
      hide Holds, PTx.Turn;
      next := b;
      if !active {
        var loaded;
        loaded, next := LoadNext(b);
        if !loaded {
          return at, true, b;
        }
        assert PTx.Fill(next, mtu) == PTx.Fill(b, mtu);
      }
      if offset == 0 && mtu - at < 4 {
        return at, true, next;
      }
      ghost var loadedState := next;
      i := WritePiece(buf, at, mtu, next);
      next := PTx.Turn(next, mtu - at);
      assert PTx.Fill(loadedState, mtu) == PTx.Fill(next, mtu);
      PTx.TurnKeepsQueue(loadedState, mtu - at);
      stop := i >= mtu;
    }

    /** get_next_ble_msg, and the fresh message it yields. */
    method LoadNext(ghost b: PTx.Built) returns (ok: bool, ghost next: PTx.Built)
      requires !active && Valid(b.q) && b.tx == View()
      modifies this, fifo
      ensures ok <==> b.q != []
      ensures if ok then next == b.(tx := PTx.Sending(b.q[0], 0), q := b.q[1..]) else next == b
      ensures Valid(next.q) && next.tx == View()
    {
      next := b;
      var m;
      ok, m := fifo.Pop();
      if ok {
        msg, offset, active := m, 0, true;
        next := b.(tx := PTx.Sending(m, 0), q := b.q[1..]);
      }
    }

    /** The rest of one turn: header if due, then as much payload as fits. */
    method WritePiece(buf: array<byte>, at: nat, mtu: nat, ghost b: PTx.Built) returns (i: nat)
      requires active && PTx.ValidTx(View()) && at < mtu <= buf.Length && (offset == 0 ==> mtu - at >= 4)
      requires b.pkt == buf[..at] && b.tx == View()
      modifies buf, this`offset, this`active
      ensures var next := PTx.Turn(b, mtu - at); at < i <= mtu && buf[..i] == next.pkt && View() == next.tx
    {
      hide PTx.Turn, Header;
      i := at;
      if offset == 0 {
        WriteHeader(buf, at);
        i := at + 4;
      }
      ghost var head := buf[..i];
      var remainingMsg, remainingPkt := |msg.payload| - offset, mtu - i;
      var chunk := if remainingMsg < remainingPkt then remainingMsg else remainingPkt;
      CopyInto(buf, i, msg.payload, offset, chunk);
      PTx.TurnWrites(b, mtu - at, head, chunk);
      i := i + chunk;
      offset := offset + chunk;
      if offset >= |msg.payload| {
        active := false;
      }
    }

    method WriteHeader(buf: array<byte>, at: nat)
      requires at + 4 <= buf.Length
      modifies buf
      ensures buf[..at + 4] == old(buf[..at]) + Header(msg)
    {
      buf[at] := MAGIC;
      buf[at + 1] := msg.opcode;
      buf[at + 2] := msg.reqApp;
      buf[at + 3] := |msg.payload|;
    }
  }

  // ----- ble_retrieve_packet -----

  datatype RxState = WaitMagic | ReadHeader | ReadPayload

  class RxContext {
    const fifo: Fifo
    var state: RxState
    var opcode: byte
    var reqApp: byte
    var len: nat
    const payload: array<byte>
    var offset: nat
    var active: bool

    /** What holds between calls: a header is never left half read, and a message is in progress
        exactly while some but not all of its payload is missing. */
    ghost predicate Valid(q: seq<Message>)
      reads this, fifo, fifo.storage
    {
      && Holds(fifo, q) && payload.Length == MAX_PAYLOAD && state != ReadHeader
      && (active <==> state == ReadPayload) && (active ==> offset < len <= MAX_PAYLOAD)
    }

    ghost function View(): PRx.Rx
      requires active ==> offset <= payload.Length
      reads this, payload
    {
      if active then PRx.Partial(opcode, reqApp, len, payload[..offset]) else PRx.Idle
    }

    constructor (f: Fifo, ghost q: seq<Message>)
      requires Holds(f, q)
      ensures fifo == f && Valid(q) && View() == PRx.Idle && fresh(payload)
    {
      fifo := f;
      state, opcode, reqApp, len, offset, active := WaitMagic, 0, 0, 0, 0, false;
      payload := new byte[MAX_PAYLOAD];
    }

    /** rx_reset_context. */
    method Reset(ghost q: seq<Message>)
      requires Valid(q)
      modifies this`state, this`offset, this`active
      ensures Valid(q) && View() == PRx.Idle
    {
      state, offset, active := WaitMagic, 0, false;
    }

    /** What holds inside the parsing loop: a header state is only entered with the whole header
        ahead and its magic byte just behind. */
    ghost predicate InLoop(pkt: seq<byte>, i: nat)
      reads this
    {
      && payload.Length == MAX_PAYLOAD && 1 <= i <= |pkt|
      && (state == ReadHeader ==> 2 <= i && i + 3 <= |pkt| && pkt[i - 1] == MAGIC)
      && (active <==> state == ReadPayload)
      && (active ==> offset < len <= MAX_PAYLOAD)
    }

    /** What is still to come out of the packet. */
    ghost function Ahead(pkt: seq<byte>, i: nat): PRx.Parsed
      requires InLoop(pkt, i)
      reads this, payload
    {
      match state
      case WaitMagic => PRx.Scan(PRx.Idle, pkt[i..])
      case ReadHeader => PRx.Scan(PRx.Idle, pkt[i - 1..])
      case ReadPayload => PRx.Scan(PRx.Partial(opcode, reqApp, len, payload[..offset]), pkt[i..])
    }

    ghost function Rank(): nat
      reads this
    {
      if state == WaitMagic then 0 else 1
    }

    method TurnMagic(pkt: seq<byte>, i: nat) returns (j: nat, stop: bool)
      requires InLoop(pkt, i) && i < |pkt| && state == WaitMagic
      modifies this`state
      ensures InLoop(pkt, j) && Ahead(pkt, j) == old(Ahead(pkt, i))
      ensures if stop then j == i && state == WaitMagic && Ahead(pkt, i) == PRx.Parsed(PRx.Idle, []) else j == i + 1
    {
      if pkt[i] != MAGIC {
        assert pkt[i..][1..] == pkt[i + 1..];
        return i + 1, false;
      }
      if i + 4 > |pkt| {
        return i, true;
      }
      state := ReadHeader;
      return i + 1, false;
    }

    /** Too long a length is given up, and parsing resumes right behind the magic byte. */
    method TurnHeader(pkt: seq<byte>, i: nat) returns (j: nat, done: Option<Message>)
      requires InLoop(pkt, i) && state == ReadHeader
      modifies this`state, this`opcode, this`reqApp, this`len, this`offset, this`active
      ensures InLoop(pkt, j) && i <= j && (j == i ==> state == WaitMagic)
      ensures old(Ahead(pkt, i)) == Emitted(done, Ahead(pkt, j))
    {
      ghost var bs := pkt[i - 1..];
      HeaderAhead(pkt, i);
      hide PRx.Scan;
      j, done := i, None;
      opcode := pkt[j];
      reqApp := pkt[j + 1];
      len := pkt[j + 2];
      j := j + 3;
      if len > MAX_PAYLOAD {
        state := WaitMagic;
        active := false;
        j := j - 3;
        return;
      }
      offset := 0;
      active := true;
      if len == 0 {
        done := Some(Msg(opcode, reqApp, []));
        active := false;
        state := WaitMagic;
        return;
      }
      state := ReadPayload;
      assert payload[..0] == [];
    }

    method TurnPayload(pkt: seq<byte>, i: nat) returns (j: nat, done: Option<Message>)
      requires InLoop(pkt, i) && i < |pkt| && state == ReadPayload
      modifies payload, this`state, this`offset, this`active
      ensures InLoop(pkt, j) && i < j
      ensures old(Ahead(pkt, i)) == Emitted(done, Ahead(pkt, j))
    {
      hide PRx.Scan;
      ghost var rx := PRx.Partial(opcode, reqApp, len, payload[..offset]);
      var remainingMsg, remainingPkt := len - offset, |pkt| - i;
      var chunk := if remainingMsg < remainingPkt then remainingMsg else remainingPkt;
      CopyInto(payload, offset, pkt, i, chunk);
      offset := offset + chunk;
      j, done := i + chunk, None;
      PayloadAhead(rx, pkt, i, chunk);
      if offset >= len {
        done := Some(Msg(opcode, reqApp, payload[..len]));
        active := false;
        state := WaitMagic;
      }
    }

    /** add_ble_msg_to_queue of the message just completed. */
    method Enqueue(m: Message, ghost q: seq<Message>)
      requires Holds(fifo, q)
      modifies fifo, fifo.storage
      ensures Holds(fifo, PushAll(q, [m]))
    {
      PushOne(q, m);
      var ok := fifo.Push(m);
    }

    /** One turn of the parsing loop; `stop` is its early return. `out` is what the packet has
        produced so far and `goal` all it will. */
    method ParserTurn(pkt: seq<byte>, i: nat, ghost q: seq<Message>, ghost out: seq<Message>, ghost goal: PRx.Parsed)
      returns (j: nat, stop: bool, ghost out': seq<Message>)
      requires InLoop(pkt, i) && i < |pkt| && Holds(fifo, PushAll(q, out))
      requires goal == PRx.Parsed(Ahead(pkt, i).rx, out + Ahead(pkt, i).out)
      modifies this, payload, fifo, fifo.storage
      ensures InLoop(pkt, j) && Holds(fifo, PushAll(q, out'))
      ensures goal == PRx.Parsed(Ahead(pkt, j).rx, out' + Ahead(pkt, j).out)
      ensures if stop then j == i && state == WaitMagic && Ahead(pkt, j) == PRx.Parsed(PRx.Idle, [])
              else j > i || (j == i && state == WaitMagic && old(state) != WaitMagic)
    {
      hide Holds, PRx.Scan, PushAll;
      stop, out' := false, out;
      var done: Option<Message> := None;
      match state {
        case WaitMagic => j, stop := TurnMagic(pkt, i);
        case ReadHeader => j, done := TurnHeader(pkt, i);
        case ReadPayload => j, done := TurnPayload(pkt, i);
      }
      hide RxContext.Ahead;
      if done.Some? {
        ghost var p := Ahead(pkt, j);
        Enqueue(done.value, PushAll(q, out));
        out' := out + [done.value];
        PushAllConcat(q, out, [done.value]);
        Seqs.Assoc(out, [done.value], p.out);
      }
    }

    method ParseLoop(pkt: seq<byte>, ghost q: seq<Message>) returns (ghost out: seq<Message>)
      requires pkt != [] && InLoop(pkt, 1) && state != ReadHeader && Holds(fifo, q)
      modifies this, payload, fifo, fifo.storage
      ensures InLoop(pkt, |pkt|) && state != ReadHeader && Holds(fifo, PushAll(q, out))
      ensures old(Ahead(pkt, 1)) == PRx.Parsed(Ahead(pkt, |pkt|).rx, out)
    {
      hide Holds, PRx.Scan;
      ghost var goal := Ahead(pkt, 1);
      out := [];
      var i, stop := 1, false;
      Seqs.Empty(goal.out);
      while i < |pkt| && !stop
        invariant InLoop(pkt, i) && Holds(fifo, PushAll(q, out))
        invariant goal == PRx.Parsed(Ahead(pkt, i).rx, out + Ahead(pkt, i).out)
        invariant stop ==> state == WaitMagic && Ahead(pkt, i) == PRx.Parsed(PRx.Idle, [])
        decreases |pkt| - i, !stop, Rank()
      {
        i, stop, out := ParserTurn(pkt, i, q, out, goal);
      }
      Seqs.Empty(out);
      AtEnd(pkt);
    }

    /** Nothing is left to parse at the end of a packet. */
    lemma AtEnd(pkt: seq<byte>)
      requires pkt != [] && payload.Length == MAX_PAYLOAD && (active ==> offset < len <= MAX_PAYLOAD)
      ensures PRx.Scan(PRx.Idle, pkt[|pkt|..]) == PRx.Parsed(PRx.Idle, [])
      ensures active ==> PRx.Scan(View(), pkt[|pkt|..]) == PRx.Parsed(View(), [])
    {
      assert pkt[|pkt|..] == [];
      if active {
        Seqs.Empty(payload[..offset]);
      }
    }

    /** ble_retrieve_packet: the state machine with its rewind parses like the plain recursive
        parser, and leaves no header half read. */
    method RetrievePacket(pkt: seq<byte>, ghost q: seq<Message>)
      requires Valid(q)
      modifies this, payload, fifo, fifo.storage
      ensures var r := PRx.Receive(old(View()), pkt); Valid(PushAll(q, r.out)) && View() == r.rx
    {
      hide Holds, PRx.Scan;
      if |pkt| == 0 {
        return;
      }
      var msgCont := pkt[0];
      if msgCont == 0 {
        state, offset, active := WaitMagic, 0, false;
      } else if !active {
        state, offset := WaitMagic, 0;
      }
      ghost var out := ParseLoop(pkt, q);
      AtEnd(pkt);
    }
  }

  function Emitted(done: Option<Message>, p: PRx.Parsed): PRx.Parsed
  {
    if done.Some? then PRx.Emit(done.value, p) else p
  }

  /** What the parser makes of a whole header just behind and ahead of `i`. */
  lemma HeaderAhead(pkt: seq<byte>, i: nat)
    requires 1 <= i && i + 3 <= |pkt| && pkt[i - 1] == MAGIC
    ensures var here, n := PRx.Scan(PRx.Idle, pkt[i - 1..]), pkt[i + 2];
            here == if n > MAX_PAYLOAD then PRx.Scan(PRx.Idle, pkt[i..])
                    else if n == 0 then PRx.Emit(Msg(pkt[i], pkt[i + 1], []), PRx.Scan(PRx.Idle, pkt[i + 3..]))
                    else PRx.Scan(PRx.Partial(pkt[i], pkt[i + 1], n, []), pkt[i + 3..])
  {
    var bs := pkt[i - 1..];
    assert bs[1..] == pkt[i..] && bs[4..] == pkt[i + 3..] && bs[3] == pkt[i + 2];
    if pkt[i + 2] == 0 {
      assert bs[4..][0..] == bs[4..] && [] + bs[4..][..0] == [];
    }
  }

  /** What it makes of a stretch of payload. */
  lemma PayloadAhead(rx: PRx.Rx, pkt: seq<byte>, i: nat, chunk: nat)
    requires rx.Partial? && |rx.got| < rx.len <= MAX_PAYLOAD && i < |pkt|
    requires chunk == Min(rx.len - |rx.got|, |pkt| - i)
    ensures var got, here := rx.got + pkt[i..i + chunk], PRx.Scan(rx, pkt[i..]);
            here == if |got| == rx.len then PRx.Emit(Msg(rx.opcode, rx.reqApp, got), PRx.Scan(PRx.Idle, pkt[i + chunk..]))
                    else PRx.Scan(rx.(got := got), pkt[i + chunk..])
  {
    var bs := pkt[i..];
    assert bs[..chunk] == pkt[i..i + chunk] && bs[chunk..] == pkt[i + chunk..];
    if chunk < rx.len - |rx.got| {
      assert bs == pkt[i..i + chunk] && pkt[i + chunk..] == [];
      Seqs.Empty(rx.got + bs);
    }
  }

  // ----- Two devices -----

  ghost predicate Apart(tx: TxContext, rx: RxContext, buf: array<byte>)
  {
    tx.fifo != rx.fifo && tx.fifo.storage != rx.fifo.storage && buf != rx.payload
  }

  /** One packet built by one device and retrieved by the other. */
  method RelayOne(tx: TxContext, rx: RxContext, buf: array<byte>, mtu: nat, ghost tq: seq<Message>, ghost rq: seq<Message>)
    requires tx.Valid(tq) && rx.Valid(rq) && Apart(tx, rx, buf) && buf.Length >= 1 && buf.Length >= mtu
    requires rx.View() == Link.Mirror(tx.View()) && !PTx.BuildFlushes(tx.View(), tq, mtu)
    modifies buf, tx, tx.fifo, rx, rx.payload, rx.fifo, rx.fifo.storage
    ensures var b := PTx.Build(old(tx.View()), tq, mtu);
            tx.Valid(b.q) && tx.View() == b.tx && rx.Valid(PushAll(rq, b.done)) && rx.View() == Link.Mirror(b.tx)
  {
    hide Holds, PTx.Build, PTx.BuildFlushes, PRx.Receive;
    Link.PacketReceived(tx.View(), tq, mtu);
    PushNone(rq);
    var ok, n := tx.BuildNextPacket(buf, mtu, tq);
    if ok {
      rx.RetrievePacket(buf[..n], rq);
    }
  }

  lemma PushNone(q: seq<Message>)
    ensures PushAll(q, []) == q
  {
  }

  /** A device that queues messages and sends packets, and a peer that retrieves them: as long as no
      header ends flush with a packet, the peer's queue receives exactly the completed messages. */
  method Relay(tx: TxContext, rx: RxContext, buf: array<byte>, evs: seq<Link.Event>, ghost tq: seq<Message>, ghost rq: seq<Message>)
    requires tx.Valid(tq) && rx.Valid(rq) && Apart(tx, rx, buf) && buf.Length >= 1
    requires forall i :: 0 <= i < |evs| && evs[i].Send? ==> evs[i].mtu <= buf.Length
    requires rx.View() == Link.Mirror(tx.View()) && !Link.Transmit(tx.View(), tq, evs).flushed
    modifies buf, tx, tx.fifo, tx.fifo.storage, rx, rx.payload, rx.fifo, rx.fifo.storage
    ensures var r := Link.Transmit(old(tx.View()), tq, evs);
            tx.Valid(r.q) && tx.View() == r.tx && rx.Valid(PushAll(rq, r.done)) && rx.View() == Link.Mirror(r.tx)
  {
    hide Holds, Link.Mirror, PTx.Build, PTx.BuildFlushes;
    ghost var all := Link.Transmit(tx.View(), tq, evs);
    ghost var q, done: seq<Message> := tq, [];
    PushNone(rq);
    Seqs.Empty(all.done);
    assert evs[0..] == evs;
    var i := 0;
    while i < |evs|
      invariant i <= |evs| && tx.Valid(q) && rx.Valid(PushAll(rq, done)) && rx.View() == Link.Mirror(tx.View())
      invariant var rest := Link.Transmit(tx.View(), q, evs[i..]);
                !rest.flushed && all.tx == rest.tx && all.q == rest.q && all.done == done + rest.done
    {
      ghost var here := evs[i..];
      assert here[0] == evs[i] && here[1..] == evs[i + 1..];
      match evs[i] {
        case Queue(m) =>
          q := Submit(tx, m, q);
        case Send(mtu) =>
          ghost var b := PTx.Build(tx.View(), q, mtu);
          ghost var rest := Link.Transmit(b.tx, b.q, here[1..]);
          Seqs.Assoc(done, b.done, rest.done);
          PushAllConcat(rq, done, b.done);
          RelayOne(tx, rx, buf, mtu, q, PushAll(rq, done));
          q, done := b.q, done + b.done;
      }
      i := i + 1;
    }
    assert evs[|evs|..] == [];
    Seqs.Empty(done);
  }

  /** The application's message joins the sending queue. */
  method Submit(tx: TxContext, m: Message, ghost q: seq<Message>) returns (ghost q': seq<Message>)
    requires tx.Valid(q)
    modifies tx.fifo, tx.fifo.storage
    ensures q' == Pushed(q, FIFO_SIZE, DropOldest, m) && tx.Valid(q')
  {
    var ok := tx.fifo.Push(m);
    q' := Pushed(q, FIFO_SIZE, DropOldest, m);
  }
}
