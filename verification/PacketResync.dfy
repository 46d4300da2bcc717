/** What the parser of components/ble_manager/src/ble_packet_handler.c makes of arbitrary bytes, said
    without the parser: it takes the first place that can be a header, then the first one behind that
    message, and so on. */
module PacketResync {
  import opened Bytes
  import opened BleTypes
  import opened PacketRx
  import Seqs

  /** A header may start at `k`: the magic byte, three more bytes and an acceptable length. */
  predicate HeaderStart(s: seq<byte>, k: nat)
  {
    k + 4 <= |s| && s[k] == MAGIC && s[k + 3] <= MAX_PAYLOAD
  }

  ghost predicate NoHeader(s: seq<byte>, a: nat, b: nat)
  {
    forall k :: a <= k < b ==> !HeaderStart(s, k)
  }

  /** The first possible header from `k` on is that of `m`, at `a`, and all of `m` is there. */
  ghost predicate FirstAt(s: seq<byte>, k: nat, m: Message, a: nat)
  {
    k <= a && NoHeader(s, k, a) && At(s, m, a)
  }

  /** From `k` on there is no complete message: the first possible header is at `p` and `rx` is what
      follows it, or there is none up to the end `p`. */
  ghost predicate RestAt(s: seq<byte>, k: nat, rx: Rx, p: nat)
  {
    k <= p <= |s| && NoHeader(s, k, p) && (if rx.Partial? then PendingFrom(s, rx, p) && ValidRx(rx) else p == |s|)
  }

  /** From `k` on, `s` reads as the messages `out` and then `rx`. */
  ghost predicate Reads(s: seq<byte>, k: nat, out: seq<Message>, rx: Rx)
    decreases out
  {
    if out == [] then exists p: nat :: RestAt(s, k, rx, p)
    else exists a: nat :: FirstAt(s, k, out[0], a) && Reads(s, a + WireLen(out[0]), out[1..], rx)
  }

  // ----- The parser's moves -----

  lemma {:induction false} ShortTail(bs: seq<byte>)
    requires |bs| < 4
    ensures Scan(Idle, bs) == Parsed(Idle, [])
  {
    if bs != [] && bs[0] != MAGIC {
      ShortTail(bs[1..]);
    }
  }

  /** Bytes that are no header are skipped. */
  lemma {:induction false} SkipTo(s: seq<byte>, k: nat, j: nat)
    requires k <= j <= |s| && NoHeader(s, k, j)
    ensures Scan(Idle, s[k..]) == Scan(Idle, s[j..])
    decreases j - k
  {
    if |s| - k < 4 {
      ShortTail(s[k..]);
      ShortTail(s[j..]);
    } else if k < j {
      assert !HeaderStart(s, k);
      assert s[k..][1..] == s[k + 1..];
      SkipTo(s, k + 1, j);
    }
  }

  lemma MessageRead(s: seq<byte>, k: nat, m: Message)
    requires At(s, m, k)
    ensures HeaderStart(s, k)
    ensures Scan(Idle, s[k..]) == Emit(m, Scan(Idle, s[k + WireLen(m)..]))
  {
    var bs, n := s[k..], |m.payload|;
    assert bs[..4 + n] == Wire(m);
    assert bs[..4 + n][..4] == Header(m) && bs[..4 + n][4..] == m.payload;
    assert bs[4..][..n] == m.payload && bs[4..][n..] == s[k + WireLen(m)..];
    assert bs[0] == Header(m)[0] && bs[1] == Header(m)[1] && bs[2] == Header(m)[2] && bs[3] == Header(m)[3];
    assert HeaderAt(bs);
    Seqs.Empty(m.payload);
  }

  lemma PendingRead(s: seq<byte>, p: nat, rx: Rx)
    requires rx.Partial? && PendingFrom(s, rx, p) && ValidRx(rx)
    ensures Scan(Idle, s[p..]) == Parsed(rx, [])
  {
    var bs := s[p..];
    assert bs[4..] == rx.got;
    assert HeaderAt(bs);
    Seqs.Empty(rx.got);
  }

  // ----- Both directions -----

  /** The parser finds what there is to read. */
  lemma {:induction false} ReadsIsScan(s: seq<byte>, k: nat, out: seq<Message>, rx: Rx)
    requires k <= |s| && Reads(s, k, out, rx)
    ensures Scan(Idle, s[k..]) == Parsed(rx, out)
    decreases out
  {
    hide Scan, FirstAt, RestAt;
    if out == [] {
      var p: nat :| RestAt(s, k, rx, p);
      RestIsScan(s, k, rx, p);
    } else {
      var a: nat :| FirstAt(s, k, out[0], a) && Reads(s, a + WireLen(out[0]), out[1..], rx);
      FirstIsScan(s, k, out[0], a);
      ReadsIsScan(s, a + WireLen(out[0]), out[1..], rx);
      assert [out[0]] + out[1..] == out;
    }
  }

  lemma RestIsScan(s: seq<byte>, k: nat, rx: Rx, p: nat)
    requires RestAt(s, k, rx, p)
    ensures Scan(Idle, s[k..]) == Parsed(rx, [])
  {
    SkipTo(s, k, p);
    if rx.Partial? {
      PendingRead(s, p, rx);
    } else {
      ShortTail(s[p..]);
    }
  }

  lemma FirstIsScan(s: seq<byte>, k: nat, m: Message, a: nat)
    requires FirstAt(s, k, m, a)
    ensures a + WireLen(m) <= |s| && Scan(Idle, s[k..]) == Emit(m, Scan(Idle, s[a + WireLen(m)..]))
  {
    SkipTo(s, k, a);
    MessageRead(s, a, m);
  }

  /** And it reads nothing else. */
  lemma {:induction false} ScanReads(s: seq<byte>, k: nat)
    requires k <= |s|
    ensures var r := Scan(Idle, s[k..]); Reads(s, k, r.out, r.rx)
    decreases |s| - k
  {
    var bs := s[k..];
    if |bs| < 4 {
      ShortTail(bs);
      assert RestAt(s, k, Idle, |s|);
    } else if HeaderStart(s, k) {
      if |bs| - 4 < bs[3] {
        HeaderPending(s, k);
      } else {
        var m := HeaderRead(s, k);
        var rest := Scan(Idle, s[k + WireLen(m)..]);
        ScanReads(s, k + WireLen(m));
        ReadsCons(s, k, m, k, rest.out, rest.rx);
      }
    } else {
      assert bs[1..] == s[k + 1..];
      ScanReads(s, k + 1);
      ReadsFromBefore(s, k, Scan(Idle, s[k + 1..]).out, Scan(Idle, s[k + 1..]).rx);
    }
  }

  lemma HeaderPending(s: seq<byte>, k: nat)
    requires HeaderStart(s, k) && |s| - k - 4 < s[k + 3]
    ensures var r := Scan(Idle, s[k..]); Reads(s, k, r.out, r.rx)
  {
    var bs := s[k..];
    var rx := Partial(bs[1], bs[2], bs[3], bs[4..]);
    assert bs == [MAGIC, bs[1], bs[2], bs[3]] + bs[4..];
    PendingRead(s, k, rx);
    assert RestAt(s, k, rx, k);
  }

  /** A header with its whole payload. */
  lemma HeaderRead(s: seq<byte>, k: nat) returns (m: Message)
    requires HeaderStart(s, k) && |s| - k - 4 >= s[k + 3]
    ensures WireLen(m) == 4 + s[k + 3] && FirstAt(s, k, m, k)
    ensures Scan(Idle, s[k..]) == Emit(m, Scan(Idle, s[k + WireLen(m)..]))
  {
    m := Msg(s[k + 1], s[k + 2], s[k + 4..k + 4 + s[k + 3]]);
    assert s[k..k + WireLen(m)] == Wire(m);
    MessageRead(s, k, m);
  }

  lemma ReadsCons(s: seq<byte>, k: nat, m: Message, a: nat, out: seq<Message>, rx: Rx)
    requires FirstAt(s, k, m, a) && Reads(s, a + WireLen(m), out, rx)
    ensures Reads(s, k, [m] + out, rx)
  {
    hide FirstAt;
    assert ([m] + out)[1..] == out && ([m] + out)[0] == m;
  }

  /** A byte that is no header in front changes nothing. */
  lemma ReadsFromBefore(s: seq<byte>, k: nat, out: seq<Message>, rx: Rx)
    requires Reads(s, k + 1, out, rx) && !HeaderStart(s, k)
    ensures Reads(s, k, out, rx)
  {
    if out == [] {
      var p: nat :| RestAt(s, k + 1, rx, p);
      assert RestAt(s, k, rx, p);
    } else {
      var a: nat :| FirstAt(s, k + 1, out[0], a) && Reads(s, a + WireLen(out[0]), out[1..], rx);
      assert FirstAt(s, k, out[0], a);
    }
  }

  /** The parser, from rest, yields exactly the one reading of the bytes. */
  lemma ScanIffReads(s: seq<byte>, out: seq<Message>, rx: Rx)
    ensures Scan(Idle, s) == Parsed(rx, out) <==> Reads(s, 0, out, rx)
  {
    assert s[0..] == s;
    ScanReads(s, 0);
    if Reads(s, 0, out, rx) {
      ReadsIsScan(s, 0, out, rx);
    }
  }

  /** A message behind bytes among which no header can start is found: the receiver gets back into step. */
  lemma FoundBehindGarbage(flag: byte, g: seq<byte>, m: Message, rest: seq<byte>)
    requires NoHeader(g + Wire(m) + rest, 0, |g|)
    ensures var out := Receive(Idle, [flag] + (g + Wire(m) + rest)).out; out != [] && out[0] == m
  {
    var s := g + Wire(m) + rest;
    assert Body([flag] + s) == s && s[0..] == s;
    assert s[|g|..|g| + WireLen(m)] == Wire(m);
    FirstIsScan(s, 0, m, |g|);
  }

  /** A packet in any state of the receiver: what it restarts or finds the receiver at rest is read from
      its first byte; a continuation first completes the message under way, if it brings enough. */
  lemma ReceiveReads(rx: Rx, pkt: seq<byte>)
    requires ValidRx(rx) && pkt != []
    ensures var r, s := Receive(rx, pkt), pkt[1..];
            if rx.Idle? || pkt[0] == 0 then Reads(s, 0, r.out, r.rx)
            else
              var need := rx.len - |rx.got|;
              if |s| < need then r == Parsed(rx.(got := rx.got + s), [])
              else r.out != [] && r.out[0] == Msg(rx.opcode, rx.reqApp, rx.got + s[..need]) && Reads(s, need, r.out[1..], r.rx)
  {
    var s := pkt[1..];
    assert s[0..] == s;
    ScanReads(s, 0);
    if rx.Partial? && |s| >= rx.len - |rx.got| {
      ScanReads(s, rx.len - |rx.got|);
    }
    hide Reads;
  }
}
