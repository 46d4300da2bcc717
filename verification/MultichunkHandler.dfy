/** components/ble_manager/src/ble_multichunk_handler.c with its static parser record and heap
    buffer. */
module MultichunkHandler {
  import opened Basics
  import opened Bytes
  import opened BleTypes
  import opened Crc32
  import opened Multichunk
  import opened Seqs

  datatype ParserState = StateReadHeader | StateReadChunks | StateReadCrc

  /** What the balance means for one buffer: it is owned, freed or handed over, once in all. */
  lemma OneOwner(freed: seq<nat>, handedOver: seq<nat>, owned: multiset<nat>, issued: nat, id: nat)
    requires multiset(freed) + multiset(handedOver) + owned == AllIds(issued)
    ensures multiset(freed)[id] + multiset(handedOver)[id] + owned[id] == if id < issued then 1 else 0
  {
    AllIdsOnce(issued, id);
    assert (multiset(freed) + multiset(handedOver) + owned)[id] == AllIds(issued)[id];
  }

  function Or(x: Word, y: Word): (z: Word)
    ensures forall i :: 0 <= i < 32 ==> z[i] == (x[i] || y[i])
  {
    seq(32, i requires 0 <= i < 32 => x[i] || y[i])
  }

  function ShiftLeft(w: Word, n: nat): Word
    requires n <= 32
  {
    Zeros(n) + w[..32 - n]
  }

  /** The checksum register after the first bytes of it, high byte first. */
  function Partial(got: seq<byte>): (w: Word)
    requires |got| <= 4
  {
    Zeros(32 - 8 * |got|) + BitStream(Reversed(got))
  }

  function Reversed(s: seq<byte>): (r: seq<byte>)
    ensures |r| == |s|
  {
    if s == [] then [] else [s[|s| - 1]] + Reversed(s[..|s| - 1])
  }

  /** `crc |= byte << (3 - read) * 8` puts the next byte in place. */
  lemma PartialGrows(got: seq<byte>, b: byte)
    requires |got| < 4
    ensures Or(Partial(got), ShiftLeft(Pad(BitList(b, 8)), 8 * (3 - |got|))) == Partial(got + [b])
  {
    hide BitList, BitStream, Reversed, Partial, ShiftLeft, Pad, Or;
    var n := |got|;
    var bits, high := BitList(b, 8), BitStream(Reversed(got));
    PartialIs(got);
    PartialSnoc(got, b);
    PadShifted(bits, 24 - 8 * n);
    ZerosSplit(24 - 8 * n, 8, high);
    OrInPlace(24 - 8 * n, bits, high);
  }

  lemma PartialIs(got: seq<byte>)
    requires |got| < 4
    ensures Partial(got) == Zeros(32 - 8 * |got|) + BitStream(Reversed(got))
  {
  }

  lemma PartialSnoc(got: seq<byte>, b: byte)
    requires |got| < 4
    ensures Partial(got + [b]) == Zeros(24 - 8 * |got|) + (BitList(b, 8) + BitStream(Reversed(got)))
  {
    hide BitList, BitStream;
    ReversedSnoc(got, b);
    hide Reversed;
    BitStreamConcat([b], Reversed(got));
    OneByte(b);
  }

  lemma ReversedSnoc(got: seq<byte>, b: byte)
    ensures Reversed(got + [b]) == [b] + Reversed(got)
  {
    assert (got + [b])[..|got|] == got;
  }

  lemma PadShifted(bits: seq<bool>, n: nat)
    requires |bits| == 8 && n <= 24
    ensures ShiftLeft(Pad(bits), n) == Zeros(n) + (bits + Zeros(24 - n))
  {
  }

  lemma ZerosSplit(m: nat, n: nat, rest: seq<bool>)
    ensures Zeros(m + n) + rest == Zeros(m) + (Zeros(n) + rest)
  {
  }

  lemma OrInPlace(low: nat, bits: seq<bool>, high: seq<bool>)
    requires low + |bits| + |high| == 32
    ensures Or(Zeros(low) + (Zeros(|bits|) + high), Zeros(low) + (bits + Zeros(|high|))) == Zeros(low) + (bits + high)
  {
  }

  lemma OneByte(b: byte)
    ensures BitStream([b]) == BitList(b, 8)
  {
    assert [b][..0] == [] && BitStream([b][..0]) == [];
  }

  lemma PartialComplete(got: seq<byte>)
    requires |got| == 4
    ensures Partial(got) == BigEndian(got)
  {
    assert got[..3][..2] == got[..2] && got[..2][..1] == got[..1] && got[..1][..0] == [];
    assert Reversed(got[..1]) == [got[0]];
    assert Reversed(got[..2]) == [got[1]] + [got[0]];
    assert Reversed(got[..3]) == [got[2], got[1], got[0]];
    assert Reversed(got) == [got[3], got[2], got[1], got[0]];
  }

  class Handler {
    var state: ParserState
    var opcode: byte
    var totalChunks: nat
    var totalSize: nat
    var currChunkId: nat
    var reqApp: byte
    var readSize: nat
    var crc: Word
    var outData: array?<byte>

    /** Bookkeeping of the heap: buffers are numbered as they are allocated. */
    ghost var issued: nat
    ghost var current: nat
    ghost var freed: seq<nat>
    ghost var handedOver: seq<nat>
    ghost var crcBytes: seq<byte>

    /** Every buffer ever allocated is owned, was freed once or was handed over once. */
    ghost predicate Balanced()
      reads this`freed, this`handedOver, this`outData, this`current, this`issued
    {
      multiset(freed) + multiset(handedOver) + (if outData != null then multiset{current} else multiset{})
      == AllIds(issued)
    }

    ghost predicate Valid()
      reads this, outData
    {
      && Balanced() && (outData != null <==> state != StateReadHeader)
      && match state {
           case StateReadHeader => currChunkId == 0 && readSize == 0 && crc == Zeros(32)
           case StateReadChunks =>
             && outData.Length == totalSize <= MAX_SIZE && 1 <= currChunkId < totalChunks <= 255
             && currChunkId <= readSize < totalSize && crc == Zeros(32)
           case StateReadCrc =>
             && outData.Length == totalSize <= MAX_SIZE && 1 <= totalSize
             && readSize == |crcBytes| < 4 && crc == Partial(crcBytes)
         }
    }

    ghost function View(): (p: Parser)
      requires Valid()
      reads this, outData
      ensures ValidParser(p)
    {
      match state
      case StateReadHeader => ReadHeader
      case StateReadChunks => ReadChunks(opcode, reqApp, totalChunks, totalSize, currChunkId, outData[..readSize])
      case StateReadCrc => ReadCrc(opcode, reqApp, outData[..], crcBytes)
    }

    constructor ()
      ensures Valid() && View() == ReadHeader && issued == 0
    {
      state, opcode, totalChunks, totalSize, currChunkId, reqApp := StateReadHeader, 0, 0, 0, 0, 0;
      readSize, crc, outData := 0, Zeros(32), null;
      issued, current, freed, handedOver, crcBytes := 0, 0, [], [], [];
    }

    /** memset of the whole record. */
    method Wipe()
      modifies this
      ensures state == StateReadHeader && currChunkId == 0 && readSize == 0 && crc == Zeros(32) && outData == null
      ensures issued == old(issued) && freed == old(freed) && handedOver == old(handedOver)
    {
      state, opcode, totalChunks, totalSize, currChunkId, reqApp := StateReadHeader, 0, 0, 0, 0, 0;
      readSize, crc, outData := 0, Zeros(32), null;
    }

    /** reset_multichunk_parser. */
    method ResetParser()
      requires Balanced()
      modifies this
      ensures Valid() && View() == ReadHeader && handedOver == old(handedOver) && issued == old(issued)
    {
      if outData != null {
        freed := freed + [current];
      }
      Wipe();
    }

    /** malloc: a new buffer becomes the parser's own. */
    method Allocate(size: nat)
      requires Balanced() && outData == null
      modifies this`outData, this`current, this`issued
      ensures Balanced() && outData != null && outData.Length == size && fresh(outData)
    {
      outData := new byte[size];
      current, issued := issued, issued + 1;
    }

    /** The handler becomes responsible for the buffer. */
    method HandOver()
      requires Balanced() && outData != null
      modifies this`outData, this`handedOver
      ensures Balanced() && outData == null && handedOver == old(handedOver) + [current]
    {
      handedOver := handedOver + [current];
      outData := null;
    }

    /** read_multichunk_header and the allocation that follows it. */
    method BeginTransfer(m: Message, alloc: bool) returns (ok: bool)
      requires Valid() && state == StateReadHeader
      modifies this
      ensures handedOver == old(handedOver)
      ensures ok <==> HeaderOk(m.payload) && alloc
      ensures !ok ==> Valid() && View() == ReadHeader
      ensures ok ==> ExpectsChunk() && currChunkId == 0 && readSize == 0 && fresh(outData)
      ensures ok ==> opcode == m.payload[1] && totalChunks == m.payload[2] && totalSize == Size(m.payload) && reqApp == m.reqApp
    {
      hide Balanced;
      if |m.payload| <= 6 || m.payload[0] != MULTICHUNK_MAGIC {
        ResetParser();
        return false;
      }
      opcode := m.payload[1];
      totalChunks := m.payload[2];
      totalSize := (m.payload[3] as int) * 256 + m.payload[4];
      if totalChunks == 0 || totalSize == 0 || totalSize > MAX_SIZE {
        ResetParser();
        return false;
      }
      reqApp := m.reqApp;
      state := StateReadChunks;
      if !alloc {
        ResetParser();
        return false;
      }
      Allocate(totalSize);
      ok := true;
    }

    /** A chunk is due: between the header and the first one, and between chunks. */
    ghost predicate ExpectsChunk()
      reads this, outData
    {
      && Balanced() && state == StateReadChunks && outData != null && outData.Length == totalSize <= MAX_SIZE
      && currChunkId < totalChunks <= 255 && currChunkId <= readSize < totalSize && crc == Zeros(32)
    }

    /** The chunk branch; `more` when the checksum is next. */
    method TakeChunkBytes(m: Message) returns (off: nat, more: bool)
      requires ExpectsChunk()
      modifies this, outData
      ensures handedOver == old(handedOver)
      ensures var o := TakeChunk(old(opcode), old(reqApp), old(totalChunks), old(totalSize), old(currChunkId),
                                 old(outData[..readSize]), m.payload, if old(currChunkId) == 0 then 5 else 0);
              if more then off <= |m.payload| && ExpectsCrc() && outData == old(outData) && o == TakeCrc(opcode, reqApp, outData[..], crcBytes, m.payload[off..])
              else Valid() && o == Outcome(View(), None)
    {
      hide Balanced, TakeCrc, Partial;
      off, more := if currChunkId == 0 then 5 else 0, false;
      if |m.payload| <= off + 1 {
        ResetParser();
        return;
      }
      var left := |m.payload| - off - 1;
      var length := if totalSize - readSize < left then totalSize - readSize else left;
      if m.payload[off] != currChunkId {
        ResetParser();
        return;
      }
      off := off + 1;
      StoreChunk(m, off, length);
      off := off + length;
      if (readSize == totalSize) != (currChunkId == totalChunks) {
        ResetParser();
        return;
      }
      if readSize == totalSize {
        BeginCrc();
        more := true;
      }
    }

    method StoreChunk(m: Message, from: nat, length: nat)
      requires ExpectsChunk() && from + length <= |m.payload| && 0 < length <= totalSize - readSize
      modifies outData, this`readSize, this`currChunkId
      ensures readSize == old(readSize) + length && currChunkId == old(currChunkId) + 1
      ensures outData[..readSize] == old(outData[..readSize]) + m.payload[from..from + length]
    {
      Copy(m.payload, from, length);
      readSize := readSize + length;
      currChunkId := (currChunkId + 1) % 256;
    }

    method BeginCrc()
      requires Balanced() && state == StateReadChunks && outData != null && outData.Length == totalSize <= MAX_SIZE
      requires 1 <= totalSize && readSize == totalSize && crc == Zeros(32)
      modifies this`state, this`readSize, this`crcBytes
      ensures ExpectsCrc() && crcBytes == [] && outData[..] == old(outData[..readSize])
    {
      hide Partial, AllIds;
      assert outData[..] == outData[..readSize];
      EmptyRegister();
      state := StateReadCrc;
      readSize := 0;
      crcBytes := [];
    }

    /** memcpy behind the bytes already received. */
    method Copy(src: seq<byte>, from: nat, n: nat)
      requires outData != null && readSize + n <= outData.Length && from + n <= |src|
      modifies outData
      ensures outData[..readSize + n] == old(outData[..readSize]) + src[from..from + n]
    {
      var k := 0;
      while k < n
        invariant 0 <= k <= n
        invariant outData[..readSize + k] == old(outData[..readSize]) + src[from..from + k]
      {
        outData[readSize + k] := src[from + k];
        k := k + 1;
      }
    }

    ghost predicate ExpectsCrc()
      reads this, outData
    {
      && Balanced() && state == StateReadCrc && outData != null && outData.Length == totalSize <= MAX_SIZE
      && 1 <= totalSize && readSize == |crcBytes| < 4 && crc == Partial(crcBytes)
    }

    /** The loop that collects checksum bytes. */
    method CollectCrc(m: Message, from: nat) returns (off: nat)
      requires ExpectsCrc() && from <= |m.payload|
      modifies this`crc, this`readSize, this`crcBytes
      ensures off == from + Min(4 - |old(crcBytes)|, |m.payload| - from)
      ensures crcBytes == old(crcBytes) + m.payload[from..off] && readSize == |crcBytes| <= 4 && crc == Partial(crcBytes)
    {
      hide Partial, Or, ShiftLeft;
      off := from;
      while readSize != 4 && off < |m.payload|
        invariant from <= off <= |m.payload| && readSize == |crcBytes| <= 4 && crc == Partial(crcBytes)
        invariant crcBytes == old(crcBytes) + m.payload[from..off]
        decreases |m.payload| - off
      {
        PartialGrows(crcBytes, m.payload[off]);
        crc := Or(crc, ShiftLeft(Pad(BitList(m.payload[off], 8)), (3 - readSize) * 8));
        crcBytes := crcBytes + [m.payload[off]];
        assert m.payload[from..off + 1] == m.payload[from..off] + [m.payload[off]];
        Seqs.Assoc(old(crcBytes), m.payload[from..off], [m.payload[off]]);
        off := off + 1;
        readSize := readSize + 1;
      }
    }

    /** The checksum branch. */
    method TakeCrcBytes(m: Message, from: nat) returns (call: Option<Multi>)
      requires ExpectsCrc() && from <= |m.payload|
      modifies this
      ensures Valid()
      ensures Outcome(View(), call) == TakeCrc(old(opcode), old(reqApp), old(outData[..]), old(crcBytes), m.payload[from..])
      ensures handedOver == old(handedOver) + if call.Some? then [old(current)] else []
    {
      hide Balanced, Partial;
      var off := CollectCrc(m, from);
      ghost var bs, got := m.payload[from..], old(crcBytes);
      call := None;
      assert bs[..off - from] == m.payload[from..off];
      if readSize == 4 {
        if off != |m.payload| {
          ResetParser();
          return;
        }
        PartialComplete(crcBytes);
        var calculated := Crc32Le(Zeros(32), outData, totalSize);
        assert outData[..totalSize] == outData[..];
        if calculated != crc {
          ResetParser();
          return;
        }
        call := Some(Multi(opcode, reqApp, outData[..totalSize]));
        HandOver();
        ResetParser();
      }
    }

    /** parse_new_chunk. */
    method ParseNewChunk(chunk: Option<Message>, alloc: bool) returns (call: Option<Multi>)
      requires Valid()
      modifies this, outData
      ensures Valid()
      ensures match chunk {
                case None => View() == ReadHeader && call == None
                case Some(m) => Outcome(View(), call) == Step(old(View()), m, alloc)
              }
      ensures old(handedOver) <= handedOver
      ensures |handedOver| == |old(handedOver)| + if call.Some? then 1 else 0
    {
      if chunk == None {
        ResetParser();
        return None;
      }
      var m := chunk.value;
      if state == StateReadCrc {
        call := TakeCrcBytes(m, 0);
        assert m.payload[0..] == m.payload;
        return;
      }
      if state == StateReadHeader {
        var ok := BeginTransfer(m, alloc);
        if !ok {
          return None;
        }
        assert outData[..0] == [];
      }
      var off, more := TakeChunkBytes(m);
      call := None;
      if more {
        call := TakeCrcBytes(m, off);
      }
    }
  }

  lemma EmptyRegister()
    ensures Partial([]) == Zeros(32)
  {
    assert BitStream(Reversed([])) == [];
  }
}
