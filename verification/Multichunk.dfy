/** The multi-message reassembler of components/ble_manager/src/ble_multichunk_handler.c as a
    function of its state and the next message, and what it accepts. */
module Multichunk {
  import opened Basics
  import opened Bytes
  import opened BleTypes
  import opened Crc32
  import Seqs

  const MULTICHUNK_MAGIC: byte := 0xB9
  const MAX_SIZE: nat := 2048

  /** What the response handler receives. */
  datatype Multi = Multi(opcode: byte, reqApp: byte, data: seq<byte>)

  datatype Parser =
    | ReadHeader
    | ReadChunks(opcode: byte, reqApp: byte, total: nat, size: nat, next: nat, data: seq<byte>)
    | ReadCrc(opcode: byte, reqApp: byte, data: seq<byte>, got: seq<byte>)

  /** States the parser can be left in. In particular `next` never reaches 256, so the 8-bit chunk
      counter never wraps. */
  predicate ValidParser(p: Parser)
  {
    match p
    case ReadHeader => true
    case ReadChunks(_, _, total, size, next, data) =>
      1 <= next < total <= 255 && next <= |data| < size <= MAX_SIZE
    case ReadCrc(_, _, data, got) => 1 <= |data| <= MAX_SIZE && |got| < 4
  }

  datatype Outcome = Outcome(p: Parser, call: Option<Multi>)

  function Reset(): Outcome { Outcome(ReadHeader, None) }

  function Size(payload: seq<byte>): nat
    requires |payload| > 6
  {
    (payload[3] as int) * 256 + payload[4]
  }

  /** read_multichunk_header. */
  predicate HeaderOk(payload: seq<byte>)
  {
    |payload| > 6 && payload[0] == MULTICHUNK_MAGIC && payload[2] != 0 && 1 <= Size(payload) <= MAX_SIZE
  }

  /** Four bytes read high byte first. */
  function BigEndian(bs: seq<byte>): Word
    requires |bs| == 4
  {
    WordOf([bs[3], bs[2], bs[1], bs[0]])
  }

  /** The bytes a sender appends for the checksum `w`. */
  function BigEndianBytes(w: Word): (bs: seq<byte>)
    ensures |bs| == 4 && BigEndian(bs) == w
  {
    var le := LittleEndian(w);
    WordOfLittleEndian(w);
    assert le == [le[0], le[1], le[2], le[3]];
    [le[3], le[2], le[1], le[0]]
  }

  lemma BigEndianInjective(a: seq<byte>, b: seq<byte>)
    requires |a| == |b| == 4 && BigEndian(a) == BigEndian(b)
    ensures a == b
  {
    BitStreamInjective([a[3], a[2], a[1], a[0]], [b[3], b[2], b[1], b[0]]);
    assert a == [a[0], a[1], a[2], a[3]] && b == [b[0], b[1], b[2], b[3]];
  }

  function TakeCrc(opcode: byte, reqApp: byte, data: seq<byte>, got: seq<byte>, bs: seq<byte>): (o: Outcome)
    requires |got| < 4 && 1 <= |data| <= MAX_SIZE
    ensures ValidParser(o.p) && (o.call.Some? ==> o.p.ReadHeader?)
  {
    var k := Min(4 - |got|, |bs|);
    var got' := got + bs[..k];
    if |got'| < 4 then Outcome(ReadCrc(opcode, reqApp, data, got'), None)
    else if k != |bs| then Reset()
    else if BigEndian(got') != Checksum(data) then Reset()
    else Outcome(ReadHeader, Some(Multi(opcode, reqApp, data)))
  }

  /** A chunk: its number at `off`, then its bytes, then whatever belongs to the checksum. */
  function TakeChunk(opcode: byte, reqApp: byte, total: nat, size: nat, next: nat, data: seq<byte>,
                     payload: seq<byte>, off: nat): (o: Outcome)
    requires next < total <= 255 && next <= |data| < size <= MAX_SIZE
    ensures ValidParser(o.p) && (o.call.Some? ==> o.p.ReadHeader?)
  {
    if |payload| <= off + 1 || payload[off] != next then Reset()
    else
      var n := Min(size - |data|, |payload| - off - 1);
      var data' := data + payload[off + 1..off + 1 + n];
      if (|data'| == size) != (next + 1 == total) then Reset()
      else if |data'| == size then TakeCrc(opcode, reqApp, data', [], payload[off + 1 + n..])
      else Outcome(ReadChunks(opcode, reqApp, total, size, next + 1, data'), None)
  }

  /** parse_new_chunk; `alloc` says whether malloc would succeed. */
  function Step(p: Parser, m: Message, alloc: bool): (o: Outcome)
    requires ValidParser(p)
    ensures ValidParser(o.p) && (o.call.Some? ==> o.p.ReadHeader?)
  {
    match p
    case ReadHeader =>
      if !HeaderOk(m.payload) || !alloc then Reset()
      else TakeChunk(m.payload[1], m.reqApp, m.payload[2], Size(m.payload), 0, [], m.payload, 5)
    case ReadChunks(opcode, reqApp, total, size, next, data) =>
      TakeChunk(opcode, reqApp, total, size, next, data, m.payload, 0)
    case ReadCrc(opcode, reqApp, data, got) =>
      TakeCrc(opcode, reqApp, data, got, m.payload)
  }

  /** A message as it arrives, with the fate of an allocation made for it. */
  datatype Arrival = Arrival(m: Message, alloc: bool)

  datatype Log = Log(p: Parser, calls: seq<Multi>)

  function Run(log: Log, ms: seq<Arrival>): (r: Log)
    requires ValidParser(log.p)
    ensures ValidParser(r.p)
  {
    if ms == [] then log
    else
      var before := Run(log, ms[..|ms| - 1]);
      Logged(before, Step(before.p, ms[|ms| - 1].m, ms[|ms| - 1].alloc))
  }

  const FRESH := Log(ReadHeader, [])

  function Logged(log: Log, o: Outcome): Log
  {
    Log(o.p, log.calls + if o.call.Some? then [o.call.value] else [])
  }

  lemma RunOneMore(log: Log, ms: seq<Arrival>, k: nat)
    requires ValidParser(log.p) && k < |ms|
    ensures Run(log, ms[..k + 1]) == Logged(Run(log, ms[..k]), Step(Run(log, ms[..k]).p, ms[k].m, ms[k].alloc))
  {
    hide Step;
    assert ms[..k + 1][..k] == ms[..k];
  }

  lemma {:induction false} RunConcat(log: Log, a: seq<Arrival>, b: seq<Arrival>)
    requires ValidParser(log.p)
    ensures Run(log, a + b) == Run(Run(log, a), b)
  {
    if b == [] {
      assert a + b == a;
    } else {
      var n := |b| - 1;
      assert (a + b)[..|a + b| - 1] == a + b[..n];
      RunConcat(log, a, b[..n]);
    }
  }

  // ----- The wire format, independently of the parser -----

  function Concat(parts: seq<seq<byte>>): seq<byte>
  {
    if parts == [] then [] else Concat(parts[..|parts| - 1]) + parts[|parts| - 1]
  }

  /** The payload that carries chunk `i` of `total`, before any checksum bytes. */
  function ChunkBytes(opcode: byte, total: nat, size: nat, i: nat, chunk: seq<byte>): seq<byte>
    requires i < total <= 255 && size <= MAX_SIZE
  {
    if i == 0 then [MULTICHUNK_MAGIC, opcode, total, size / 256, size % 256, 0] + chunk
    else [i] + chunk
  }

  /** `ms` begins a transfer of `total` chunks and `size` bytes: message `i` carries `chunks[i]`, and
      once all chunks are out, `pieces[0]` follows the last one and every later piece has a message
      of its own. */
  ghost predicate Carries(ms: seq<Arrival>, opcode: byte, reqApp: byte, total: nat, size: nat,
                          chunks: seq<seq<byte>>, pieces: seq<seq<byte>>)
  {
    && 1 <= |chunks| <= total <= 255 && size <= MAX_SIZE
    && |ms| == |chunks| + (if pieces == [] then 0 else |pieces| - 1)
    && ms[0].m.reqApp == reqApp && ms[0].alloc
    && (forall i :: 0 <= i < |chunks| ==> chunks[i] != [])
    && (forall i :: 0 <= i < |chunks| ==>
          ms[i].m.payload == ChunkBytes(opcode, total, size, i, chunks[i])
                             + (if pieces != [] && i == |chunks| - 1 then pieces[0] else []))
    && (forall j :: 1 <= j < |pieces| ==> ms[|chunks| - 1 + j].m.payload == pieces[j])
  }

  /** A complete transfer of `x`: `size` and `total` are right, the pieces make up the big-endian
      checksum, and only the last piece completes it. */
  ghost predicate Encodes(ms: seq<Arrival>, x: Multi, chunks: seq<seq<byte>>, pieces: seq<seq<byte>>)
  {
    && 1 <= |x.data| <= MAX_SIZE && 1 <= |chunks| <= 255 && pieces != []
    && Carries(ms, x.opcode, x.reqApp, |chunks|, |x.data|, chunks, pieces)
    && Concat(chunks) == x.data
    && Concat(pieces) == BigEndianBytes(Checksum(x.data))
    && |Concat(pieces[..|pieces| - 1])| < 4
  }

  // ----- Soundness -----

  /** How a parser state in the middle of a transfer came about. */
  ghost predicate Underway(ms: seq<Arrival>, p: Parser, chunks: seq<seq<byte>>, pieces: seq<seq<byte>>)
  {
    match p
    case ReadHeader => false
    case ReadChunks(opcode, reqApp, total, size, next, data) =>
      && total <= 255 && size <= MAX_SIZE && pieces == [] && |chunks| == next && Concat(chunks) == data
      && Carries(ms, opcode, reqApp, total, size, chunks, pieces)
    case ReadCrc(opcode, reqApp, data, got) =>
      && |chunks| <= 255 && |data| <= MAX_SIZE && pieces != [] && Concat(chunks) == data && Concat(pieces) == got
      && Carries(ms, opcode, reqApp, |chunks|, |data|, chunks, pieces)
  }

  lemma ConcatEmpty()
    ensures Concat([]) == []
  {
  }

  lemma ConcatSnoc(parts: seq<seq<byte>>, x: seq<byte>)
    ensures Concat(parts + [x]) == Concat(parts) + x
  {
    assert (parts + [x])[..|parts|] == parts;
  }

  /** What a chunk message looks like when the parser takes `n` bytes from it. */
  lemma ChunkShape(opcode: byte, total: nat, size: nat, next: nat, payload: seq<byte>, off: nat, n: nat)
    requires next < total <= 255 && size <= MAX_SIZE && off + 1 + n <= |payload| && payload[off] == next
    requires if next == 0 then off == 5 && |payload| > 6 && payload[0] == MULTICHUNK_MAGIC && payload[1] == opcode
                               && payload[2] == total && Size(payload) == size
             else off == 0
    ensures payload == ChunkBytes(opcode, total, size, next, payload[off + 1..off + 1 + n]) + payload[off + 1 + n..]
  {
    if next == 0 {
      assert size / 256 == payload[3] && size % 256 == payload[4];
      assert payload[..6] == [MULTICHUNK_MAGIC, opcode, total, size / 256, size % 256, 0];
    }
  }

  /** Adding the message that carries the next chunk. */
  lemma CarriesChunk(ms: seq<Arrival>, a: Arrival, opcode: byte, reqApp: byte, total: nat, size: nat,
                     chunks: seq<seq<byte>>, c: seq<byte>, pieces: seq<seq<byte>>)
    requires if ms == [] then chunks == [] && a.m.reqApp == reqApp && a.alloc
             else Carries(ms, opcode, reqApp, total, size, chunks, [])
    requires |chunks| < total <= 255 && size <= MAX_SIZE && c != [] && |pieces| <= 1
    requires a.m.payload == ChunkBytes(opcode, total, size, |chunks|, c) + (if pieces == [] then [] else pieces[0])
    ensures Carries(ms + [a], opcode, reqApp, total, size, chunks + [c], pieces)
  {
    var ms', chunks' := ms + [a], chunks + [c];
    assert ms'[0] == if ms == [] then a else ms[0];
    forall i | 0 <= i < |chunks'|
      ensures ms'[i].m.payload == ChunkBytes(opcode, total, size, i, chunks'[i])
                                  + (if pieces != [] && i == |chunks'| - 1 then pieces[0] else [])
    {
      if i < |chunks| {
        assert ms'[i] == ms[i] && chunks'[i] == chunks[i];
      }
    }
  }

  lemma CarriesPiece(ms: seq<Arrival>, a: Arrival, opcode: byte, reqApp: byte, total: nat, size: nat,
                     chunks: seq<seq<byte>>, pieces: seq<seq<byte>>)
    requires pieces != [] && Carries(ms, opcode, reqApp, total, size, chunks, pieces)
    ensures Carries(ms + [a], opcode, reqApp, total, size, chunks, pieces + [a.m.payload])
  {
    var ms', pieces' := ms + [a], pieces + [a.m.payload];
    assert forall i :: 0 <= i < |ms| ==> ms'[i] == ms[i];
    assert forall j :: 0 <= j < |pieces| ==> pieces'[j] == pieces[j];
  }

  /** One more message of a transfer that is not thrown away: either it is still under way, or it is
      complete and was handed over. */
  ghost predicate Advanced(ms: seq<Arrival>, o: Outcome, chunks: seq<seq<byte>>, pieces: seq<seq<byte>>)
  {
    match o.call
    case Some(x) => Encodes(ms, x, chunks, pieces)
    case None => o.p.ReadHeader? || Underway(ms, o.p, chunks, pieces)
  }

  lemma CrcAdvances(ms: seq<Arrival>, opcode: byte, reqApp: byte, data: seq<byte>, got: seq<byte>, bs: seq<byte>,
                    chunks: seq<seq<byte>>, before: seq<seq<byte>>)
    requires |got| < 4 && 1 <= |data| <= MAX_SIZE && |chunks| <= 255
    requires Concat(chunks) == data && Concat(before) == got
    requires Carries(ms, opcode, reqApp, |chunks|, |data|, chunks, before + [bs])
    ensures Advanced(ms, TakeCrc(opcode, reqApp, data, got, bs), chunks, before + [bs])
  {
    var o := TakeCrc(opcode, reqApp, data, got, bs);
    ConcatSnoc(before, bs);
    assert (before + [bs])[..|before|] == before;
    if o.call.Some? {
      assert bs[..|bs|] == bs;
      BigEndianInjective(got + bs, BigEndianBytes(Checksum(data)));
    } else if o.p.ReadCrc? {
      assert bs[..|bs|] == bs;
    }
  }

  /** The chunk that completes the data, and the bytes of the checksum behind it. */
  lemma LastChunk(ms: seq<Arrival>, a: Arrival, opcode: byte, reqApp: byte, data: seq<byte>, chunks: seq<seq<byte>>,
                  c: seq<byte>, rest: seq<byte>)
    requires var total, size := |chunks| + 1, |data + c|;
             && total <= 255 && size <= MAX_SIZE && c != [] && Concat(chunks) == data
             && (if ms == [] then chunks == [] && a.m.reqApp == reqApp && a.alloc
                 else Carries(ms, opcode, reqApp, total, size, chunks, []))
             && a.m.payload == ChunkBytes(opcode, total, size, |chunks|, c) + rest
    ensures Advanced(ms + [a], TakeCrc(opcode, reqApp, data + c, [], rest), chunks + [c], [rest])
  {
    hide TakeCrc, Carries, Encodes, ChunkBytes, Advanced, Concat;
    CarriesChunk(ms, a, opcode, reqApp, |chunks| + 1, |data + c|, chunks, c, [rest]);
    ConcatSnoc(chunks, c);
    ConcatEmpty();
    assert [] + [rest] == [rest];
    CrcAdvances(ms + [a], opcode, reqApp, data + c, [], rest, chunks + [c], []);
  }

  lemma ChunkAdvances(ms: seq<Arrival>, a: Arrival, opcode: byte, reqApp: byte, total: nat, size: nat, next: nat,
                      data: seq<byte>, off: nat, chunks: seq<seq<byte>>)
    returns (chunks': seq<seq<byte>>, pieces': seq<seq<byte>>)
    requires next < total <= 255 && next <= |data| < size <= MAX_SIZE && |chunks| == next && Concat(chunks) == data
    requires if next == 0 then ms == [] && a.alloc && a.m.reqApp == reqApp && off == 5 && HeaderOk(a.m.payload)
                               && a.m.payload[1] == opcode && a.m.payload[2] == total && Size(a.m.payload) == size
             else ms != [] && off == 0 && Carries(ms, opcode, reqApp, total, size, chunks, [])
    ensures Advanced(ms + [a], TakeChunk(opcode, reqApp, total, size, next, data, a.m.payload, off), chunks', pieces')
  {
    hide TakeCrc, Carries, Encodes, ChunkBytes;
    var payload := a.m.payload;
    var o := TakeChunk(opcode, reqApp, total, size, next, data, payload, off);
    chunks', pieces' := [], [];
    if |payload| > off + 1 && payload[off] == next {
      var n := Min(size - |data|, |payload| - off - 1);
      var c, rest := payload[off + 1..off + 1 + n], payload[off + 1 + n..];
      ChunkShape(opcode, total, size, next, payload, off, n);
      ConcatSnoc(chunks, c);
      chunks' := chunks + [c];
      if |data + c| == size && next + 1 == total {
        pieces' := [rest];
        LastChunk(ms, a, opcode, reqApp, data, chunks, c, rest);
      } else if |data + c| < size && next + 1 < total {
        Seqs.Empty(ChunkBytes(opcode, total, size, next, c));
        assert rest == [];
        CarriesChunk(ms, a, opcode, reqApp, total, size, chunks, c, []);
      }
    }
  }

  /** Every state comes from a transfer in progress that began when the parser was at rest, and every
      handler call from a complete one. */
  lemma {:induction false} Explained(ms: seq<Arrival>) returns (j: nat, chunks: seq<seq<byte>>, pieces: seq<seq<byte>>)
    ensures j <= |ms| && Run(FRESH, ms[..j]).p.ReadHeader?
    ensures var p := Run(FRESH, ms).p; if p.ReadHeader? then j == |ms| else Underway(ms[j..], p, chunks, pieces)
    decreases |ms|, 1
  {
    hide Step, Carries;
    j, chunks, pieces := |ms|, [], [];
    if ms == [] {
      return;
    }
    var n := |ms| - 1;
    var o := Step(Run(FRESH, ms[..n]).p, ms[n].m, ms[n].alloc);
    assert ms[..|ms|] == ms;
    if !o.p.ReadHeader? {
      j, chunks, pieces := ExplainedStep(ms);
    }
  }

  /** One step beyond an explained history. */
  lemma ExplainedStep(ms: seq<Arrival>) returns (j: nat, chunks: seq<seq<byte>>, pieces: seq<seq<byte>>)
    requires ms != []
    ensures j < |ms| && Run(FRESH, ms[..j]).p.ReadHeader?
    ensures var n := |ms| - 1;
            Advanced(ms[j..], Step(Run(FRESH, ms[..n]).p, ms[n].m, ms[n].alloc), chunks, pieces)
    decreases |ms|, 0
  {
    hide TakeChunk, TakeCrc, Carries, Encodes;
    var n := |ms| - 1;
    var a, p := ms[n], Run(FRESH, ms[..n]).p;
    var payload := a.m.payload;
    j, chunks, pieces := Explained(ms[..n]);
    assert ms[..n][..j] == ms[..j] && ms[..n][j..] + [a] == ms[j..];
    match p
    case ReadHeader =>
      if HeaderOk(payload) && a.alloc {
        assert ms[j..] == [] + [a];
        chunks, pieces := ChunkAdvances([], a, payload[1], a.m.reqApp, payload[2], Size(payload), 0, [], 5, []);
      }
    case ReadChunks(opcode, reqApp, total, size, next, data) =>
      chunks, pieces := ChunkAdvances(ms[..n][j..], a, opcode, reqApp, total, size, next, data, 0, chunks);
    case ReadCrc(opcode, reqApp, data, got) =>
      CarriesPiece(ms[..n][j..], a, opcode, reqApp, |chunks|, |data|, chunks, pieces);
      CrcAdvances(ms[j..], opcode, reqApp, data, got, payload, chunks, pieces);
      pieces := pieces + [payload];
  }

  /** Whatever arrives, the handler only ever receives data that was sent: the messages since the
      parser was last at rest are a complete, correctly numbered transfer of it, with matching size
      and checksum. */
  lemma HandlerSound(ms: seq<Arrival>, a: Arrival) returns (j: nat, chunks: seq<seq<byte>>, pieces: seq<seq<byte>>)
    requires Step(Run(FRESH, ms).p, a.m, a.alloc).call.Some?
    ensures j <= |ms| && Run(FRESH, ms[..j]).p.ReadHeader?
    ensures Encodes(ms[j..] + [a], Step(Run(FRESH, ms).p, a.m, a.alloc).call.value, chunks, pieces)
  {
    hide Step, Run, Encodes;
    var all := ms + [a];
    assert all[..|ms|] == ms;
    j, chunks, pieces := ExplainedStep(all);
    assert all[..j] == ms[..j] && all[j..] == ms[j..] + [a];
  }

  // ----- Completeness -----

  /** Taking a well-formed chunk with room for it. */
  lemma ChunkTaken(opcode: byte, reqApp: byte, total: nat, size: nat, next: nat, data: seq<byte>,
                   payload: seq<byte>, c: seq<byte>, rest: seq<byte>)
    requires next < total <= 255 && next <= |data| < size <= MAX_SIZE && c != [] && |data| + |c| <= size
    requires payload == ChunkBytes(opcode, total, size, next, c) + rest
    requires if next + 1 == total then |data| + |c| == size else |data| + |c| < size && rest == []
    ensures TakeChunk(opcode, reqApp, total, size, next, data, payload, if next == 0 then 5 else 0) ==
              if next + 1 == total then TakeCrc(opcode, reqApp, data + c, [], rest)
              else Outcome(ReadChunks(opcode, reqApp, total, size, next + 1, data + c), None)
  {
    var off := if next == 0 then 5 else 0;
    assert payload[off] == next;
    var n := Min(size - |data|, |payload| - off - 1);
    assert n == |c| && payload[off + 1..off + 1 + n] == c && payload[off + 1 + n..] == rest;
  }

  /** The header of the first chunk is accepted and read back. */
  lemma HeaderTaken(opcode: byte, total: nat, size: nat, payload: seq<byte>, c: seq<byte>, rest: seq<byte>)
    requires 1 <= total <= 255 && 1 <= size <= MAX_SIZE && c != []
    requires payload == ChunkBytes(opcode, total, size, 0, c) + rest
    ensures HeaderOk(payload) && payload[1] == opcode && payload[2] == total && Size(payload) == size
  {
    assert payload[..6] == [MULTICHUNK_MAGIC, opcode, total, size / 256, size % 256, 0];
    assert payload[3] == payload[..6][3] && payload[4] == payload[..6][4];
  }

  /** The message that carries chunk `k`, taken by a parser that expects it. */
  lemma ChunkStep(p: Parser, ms: seq<Arrival>, x: Multi, chunks: seq<seq<byte>>, pieces: seq<seq<byte>>, k: nat)
    requires Encodes(ms, x, chunks, pieces) && k < |chunks| && ValidParser(p)
    requires p == if k == 0 then ReadHeader
                  else ReadChunks(x.opcode, x.reqApp, |chunks|, |x.data|, k, Concat(chunks[..k]))
    ensures k < |ms| && |Concat(chunks[..k + 1])| <= |x.data|
    ensures Step(p, ms[k].m, ms[k].alloc) ==
              if k + 1 == |chunks| then TakeCrc(x.opcode, x.reqApp, x.data, [], pieces[0])
              else Outcome(ReadChunks(x.opcode, x.reqApp, |chunks|, |x.data|, k + 1, Concat(chunks[..k + 1])), None)
  {
    hide TakeChunk, TakeCrc, HeaderOk, ChunkBytes, BigEndianBytes, Carries, Concat;
    var n, c := |chunks|, chunks[k];
    var rest := if k == n - 1 then pieces[0] else [];
    ChunkCarried(ms, x, chunks, pieces, k);
    PrefixShorter(chunks, k);
    if k + 1 < n {
      PrefixShorter(chunks, k + 1);
    } else {
      assert chunks[..k + 1] == chunks;
    }
    ConcatEmpty();
    assert chunks[..0] == [];
    if k == 0 {
      HeaderTaken(x.opcode, n, |x.data|, ms[k].m.payload, c, rest);
    }
    ChunkTaken(x.opcode, x.reqApp, n, |x.data|, k, Concat(chunks[..k]), ms[k].m.payload, c, rest);
  }

  lemma ChunkCarried(ms: seq<Arrival>, x: Multi, chunks: seq<seq<byte>>, pieces: seq<seq<byte>>, k: nat)
    requires Encodes(ms, x, chunks, pieces) && k < |chunks|
    ensures k < |ms| && ms[0].m.reqApp == x.reqApp && ms[0].alloc && (forall i :: 0 <= i < |chunks| ==> chunks[i] != [])
    ensures ms[k].m.payload == ChunkBytes(x.opcode, |chunks|, |x.data|, k, chunks[k]) + (if k == |chunks| - 1 then pieces[0] else [])
  {
    hide Concat, BigEndianBytes, ChunkBytes;
  }

  /** The parser after the first `k` chunks, none of them last. */
  lemma {:induction false} ChunksParsed(log: Log, ms: seq<Arrival>, x: Multi, chunks: seq<seq<byte>>,
                                        pieces: seq<seq<byte>>, k: nat)
    requires log.p.ReadHeader? && Encodes(ms, x, chunks, pieces) && k < |chunks|
    ensures k <= |ms|
    ensures Run(log, ms[..k]) == if k == 0 then log else
              Log(ReadChunks(x.opcode, x.reqApp, |chunks|, |x.data|, k, Concat(chunks[..k])), log.calls)
  {
    hide Step, Encodes, Concat;
    if k > 0 {
      ChunksParsed(log, ms, x, chunks, pieces, k - 1);
      ChunkStep(Run(log, ms[..k - 1]).p, ms, x, chunks, pieces, k - 1);
      RunOneMore(log, ms, k - 1);
      Seqs.Empty(log.calls);
    }
  }

  lemma {:induction false} PrefixShorter(chunks: seq<seq<byte>>, k: nat)
    requires k < |chunks| && forall i :: 0 <= i < |chunks| ==> chunks[i] != []
    ensures |Concat(chunks[..k])| < |Concat(chunks)|
    ensures Concat(chunks[..k + 1]) == Concat(chunks[..k]) + chunks[k]
    ensures |Concat(chunks[..k])| >= k
    decreases |chunks|
  {
    var n := |chunks| - 1;
    assert chunks[..k + 1][..k] == chunks[..k];
    if k < n {
      PrefixShorter(chunks[..n], k);
      assert chunks[..n][..k] == chunks[..k];
    } else {
      assert chunks[..k + 1] == chunks;
      if k > 0 {
        PrefixShorter(chunks[..k], k - 1);
        assert chunks[..k][..k] == chunks[..k];
        assert chunks[..k][..k - 1 + 1] == chunks[..k];
      }
    }
  }

  lemma EncodesLength(ms: seq<Arrival>, x: Multi, chunks: seq<seq<byte>>, pieces: seq<seq<byte>>)
    requires Encodes(ms, x, chunks, pieces)
    ensures 1 <= |chunks| && pieces != [] && |ms| == |chunks| + |pieces| - 1
  {
  }

  /** The message that carries piece `j`, the last chunk's for the first of them. */
  lemma PieceStep(p: Parser, ms: seq<Arrival>, x: Multi, chunks: seq<seq<byte>>, pieces: seq<seq<byte>>, j: nat)
    requires Encodes(ms, x, chunks, pieces) && j < |pieces| && ValidParser(p)
    requires if j > 0 then p == ReadCrc(x.opcode, x.reqApp, x.data, Concat(pieces[..j]))
             else p == if |chunks| == 1 then ReadHeader
                       else ReadChunks(x.opcode, x.reqApp, |chunks|, |x.data|, |chunks| - 1, Concat(chunks[..|chunks| - 1]))
    ensures var k := |chunks| - 1 + j;
            && k < |ms|
            && Step(p, ms[k].m, ms[k].alloc) ==
                 if j + 1 == |pieces| then Outcome(ReadHeader, Some(x))
                 else Outcome(ReadCrc(x.opcode, x.reqApp, x.data, Concat(pieces[..j + 1])), None)
  {
    hide TakeCrc, TakeChunk, Concat, BigEndianBytes, Carries, ChunkBytes, HeaderOk;
    CrcTaken(x, pieces, j);
    EncodesLength(ms, x, chunks, pieces);
    if j == 0 {
      ChunkStep(p, ms, x, chunks, pieces, |chunks| - 1);
    } else {
      PieceCarried(ms, x, chunks, pieces, j);
    }
  }

  lemma PieceCarried(ms: seq<Arrival>, x: Multi, chunks: seq<seq<byte>>, pieces: seq<seq<byte>>, j: nat)
    requires Encodes(ms, x, chunks, pieces) && 1 <= j < |pieces|
    ensures |chunks| - 1 + j < |ms| && ms[|chunks| - 1 + j].m.payload == pieces[j]
  {
    hide Concat, BigEndianBytes, ChunkBytes;
  }

  /** Reading the checksum, up to and including piece `j`. */
  lemma {:induction false} PiecesParsed(log: Log, ms: seq<Arrival>, x: Multi, chunks: seq<seq<byte>>,
                                        pieces: seq<seq<byte>>, j: nat)
    requires log.p.ReadHeader? && Encodes(ms, x, chunks, pieces) && j < |pieces|
    ensures |chunks| + j <= |ms|
    ensures Run(log, ms[..|chunks| + j]) ==
              if j + 1 == |pieces| then Log(ReadHeader, log.calls + [x])
              else Log(ReadCrc(x.opcode, x.reqApp, x.data, Concat(pieces[..j + 1])), log.calls)
  {
    hide Concat, Run, Step, Encodes;
    EncodesLength(ms, x, chunks, pieces);
    var k := |chunks| - 1 + j;
    if j == 0 {
      ChunksParsed(log, ms, x, chunks, pieces, k);
    } else {
      PiecesParsed(log, ms, x, chunks, pieces, j - 1);
    }
    PieceStep(Run(log, ms[..k]).p, ms, x, chunks, pieces, j);
    RunOneMore(log, ms, k);
    Seqs.Empty(log.calls);
  }

  /** The part of the checksum before piece `j`, and that piece. */
  lemma CrcTaken(x: Multi, pieces: seq<seq<byte>>, j: nat)
    requires 1 <= |x.data| <= MAX_SIZE && j < |pieces|
    requires Concat(pieces) == BigEndianBytes(Checksum(x.data)) && |Concat(pieces[..|pieces| - 1])| < 4
    ensures |Concat(pieces[..j])| < 4
    ensures TakeCrc(x.opcode, x.reqApp, x.data, Concat(pieces[..j]), pieces[j]) ==
              if j + 1 == |pieces| then Outcome(ReadHeader, Some(x))
              else Outcome(ReadCrc(x.opcode, x.reqApp, x.data, Concat(pieces[..j + 1])), None)
    ensures j == 0 ==> Concat(pieces[..j]) == []
  {
    hide BigEndianBytes, BigEndian, Checksum;
    var got, bs := Concat(pieces[..j]), pieces[j];
    assert pieces[..j + 1][..j] == pieces[..j];
    PrefixLength(pieces, j, |pieces| - 1);
    if j + 1 == |pieces| {
      assert pieces[..j + 1] == pieces;
    } else {
      PrefixLength(pieces, j + 1, |pieces| - 1);
    }
    assert bs[..Min(4 - |got|, |bs|)] == bs;
  }

  lemma {:induction false} PrefixLength(parts: seq<seq<byte>>, i: nat, k: nat)
    requires i <= k <= |parts|
    ensures |Concat(parts[..i])| <= |Concat(parts[..k])|
    decreases k
  {
    if i < k {
      PrefixLength(parts, i, k - 1);
      assert parts[..k][..k - 1] == parts[..k - 1];
    }
  }

  /** Every transfer, however its data is chunked and its checksum split, causes exactly one call
      with the same bytes, opcode and requesting app, and leaves the parser at rest. */
  lemma TransferDelivered(log: Log, ms: seq<Arrival>, x: Multi, chunks: seq<seq<byte>>, pieces: seq<seq<byte>>)
    requires log.p.ReadHeader? && Encodes(ms, x, chunks, pieces)
    ensures Run(log, ms) == Log(ReadHeader, log.calls + [x])
  {
    hide Encodes, Run;
    EncodesLength(ms, x, chunks, pieces);
    PiecesParsed(log, ms, x, chunks, pieces, |pieces| - 1);
    assert ms[..|ms|] == ms;
  }
}
