/** The bitwise CRC-32 of tests/host/mocks/esp_rom_crc/esp_rom_crc.c, shared by the multi-chunk
    parser and the firmware update.

    The specification is the serial shift register of the textbook: one message bit enters per
    step. The code instead folds a whole byte in and then shifts eight times; `Crc32Le` is proved
    to compute the same register. */
module Crc32 {
  import opened Bytes

  /** 0xEDB88320, low bit first. */
  const POLYNOMIAL: Word :=
    [false, false, false, false, false, true, false, false,
     true, true, false, false, false, false, false, true,
     false, false, false, true, true, true, false, true,
     true, false, true, true, false, true, true, true]

  lemma NumberOfPair(b0: bool, b1: bool, rest: seq<bool>)
    ensures NumberOf([b0, b1] + rest) == (if b0 then 1 else 0) + (if b1 then 2 else 0) + 4 * NumberOf(rest)
  {
    var s := [b0, b1] + rest;
    assert s[1..] == [b1] + rest && ([b1] + rest)[1..] == rest;
  }

  /** The byte with the given bits, the lowest first. */
  lemma ByteOfEight(s: seq<bool>)
    requires |s| == 8
    ensures NumberOf(s) == (if s[0] then 1 else 0) + (if s[1] then 2 else 0) + (if s[2] then 4 else 0) + (if s[3] then 8 else 0)
                           + (if s[4] then 16 else 0) + (if s[5] then 32 else 0) + (if s[6] then 64 else 0) + (if s[7] then 128 else 0)
  {
    hide NumberOf;
    var d := [s[6], s[7]] + [];
    var c := [s[4], s[5]] + d;
    var b := [s[2], s[3]] + c;
    NumberOfNothing();
    NumberOfPair(s[6], s[7], []);
    NumberOfPair(s[4], s[5], d);
    NumberOfPair(s[2], s[3], c);
    NumberOfPair(s[0], s[1], b);
    EightBits(s, b, c, d);
  }

  lemma EightBits(s: seq<bool>, b: seq<bool>, c: seq<bool>, d: seq<bool>)
    requires |s| == 8 && d == [s[6], s[7]] + [] && c == [s[4], s[5]] + d && b == [s[2], s[3]] + c
    ensures s == [s[0], s[1]] + b
  {
    assert d == s[6..] && c == s[4..] && b == s[2..];
  }

  lemma NumberOfNothing()
    ensures NumberOf([]) == 0
  {
  }

  lemma LowHalf()
    ensures var p := POLYNOMIAL; NumberOf(p[..8]) == 0x20 && NumberOf(p[8..16]) == 0x83
  {
    hide NumberOf;
    var p := POLYNOMIAL;
    assert !p[0] && !p[1] && !p[2] && !p[3] && !p[4] && p[5] && !p[6] && !p[7];
    assert p[8] && p[9] && !p[10] && !p[11] && !p[12] && !p[13] && !p[14] && p[15];
    ByteOfEight(p[..8]);
    ByteOfEight(p[8..16]);
  }

  lemma HighHalf()
    ensures var p := POLYNOMIAL; NumberOf(p[16..24]) == 0xB8 && NumberOf(p[24..]) == 0xED
  {
    hide NumberOf;
    var p := POLYNOMIAL;
    assert !p[16] && !p[17] && !p[18] && p[19] && p[20] && p[21] && !p[22] && p[23];
    assert p[24] && !p[25] && p[26] && p[27] && !p[28] && p[29] && p[30] && p[31];
    ByteOfEight(p[16..24]);
    ByteOfEight(p[24..]);
  }

  /** The polynomial as the source writes it, 0xEDB88320, byte by byte from the low end. */
  lemma PolynomialIs()
    ensures LittleEndian(POLYNOMIAL) == [0x20, 0x83, 0xB8, 0xED]
  {
    hide NumberOf;
    LowHalf();
    HighHalf();
  }

  function ShiftRight(r: Word): Word { r[1..] + [false] }

  /** One turn of the inner loop. */
  function BitStep(r: Word): Word
  {
    if r[0] then Xor(ShiftRight(r), POLYNOMIAL) else ShiftRight(r)
  }

  /** The register after the given message bits have entered it one at a time. */
  function Feed(r: Word, bits: seq<bool>): Word
    decreases bits
  {
    if bits == [] then r else Feed(BitStep(Xor(r, Pad(bits[..1]))), bits[1..])
  }

  function Register(r: Word, buf: seq<byte>): Word { Feed(r, BitStream(buf)) }

  /** CRC-32 of `buf`, continued from `crc` (0 for a fresh checksum). */
  function Crc(crc: Word, buf: seq<byte>): Word { Not(Register(Not(crc), buf)) }

  function Checksum(buf: seq<byte>): Word { Crc(Zeros(32), buf) }

  lemma {:induction false} FeedConcat(r: Word, a: seq<bool>, b: seq<bool>)
    ensures Feed(r, a + b) == Feed(Feed(r, a), b)
    decreases a
  {
    if a == [] {
      assert a + b == b;
    } else {
      assert (a + b)[..1] == a[..1] && (a + b)[1..] == a[1..] + b;
      FeedConcat(BitStep(Xor(r, Pad(a[..1]))), a[1..], b);
    }
  }

  /** A message bit above the lowest position only moves down in one step. */
  lemma StepMovesHighBits(x: Word, y: seq<bool>)
    requires |y| == 31
    ensures BitStep(Xor(x, [false] + y)) == Xor(BitStep(x), y + [false])
  {
    var hi: Word := [false] + y;
    var lo: Word := y + [false];
    assert Xor(x, hi)[0] == x[0];
    assert forall i :: 0 <= i < 31 ==> ShiftRight(Xor(x, hi))[i] == (ShiftRight(x)[i] != lo[i]);
    assert BitStep(Xor(x, hi)) == Xor(BitStep(x), lo);
  }

  /** Entering several bits at once and shifting afterwards is the same as entering them singly. */
  lemma {:induction false} FeedAllAtOnce(r: Word, bits: seq<bool>)
    requires |bits| <= 32
    ensures Feed(r, bits) == Feed(Xor(r, Pad(bits)), Zeros(|bits|))
    decreases bits
  {
    if bits != [] {
      var first, rest := bits[..1], bits[1..];
      var r1 := Xor(r, Pad(first));
      var y := rest + Zeros(31 - |rest|);
      FeedAllAtOnce(BitStep(r1), rest);
      assert Pad(rest) == y + [false];
      StepMovesHighBits(r1, y);
      assert Xor(r1, [false] + y) == Xor(r, Pad(bits));
      FeedZero(Xor(r, Pad(bits)), |bits|);
    }
  }

  /** The inner loop: a byte folded in whole, then eight shifts. */
  method ByteIn(r: Word, b: byte) returns (crc: Word)
    ensures crc == Feed(r, BitList(b, 8))
  {
    crc := Xor(r, Pad(BitList(b, 8)));
    FeedAllAtOnce(r, BitList(b, 8));
    var bit := 0;
    while bit < 8
      invariant 0 <= bit <= 8
      invariant Feed(crc, Zeros(8 - bit)) == Feed(r, BitList(b, 8))
    {
      FeedZero(crc, 8 - bit);
      crc := BitIn(crc);
      bit := bit + 1;
    }
  }

  method BitIn(r: Word) returns (crc: Word)
    ensures crc == BitStep(r)
  {
    if r[0] {
      crc := Xor(ShiftRight(r), POLYNOMIAL);
    } else {
      crc := ShiftRight(r);
    }
  }

  lemma FeedZero(r: Word, n: nat)
    requires n > 0
    ensures Feed(r, Zeros(n)) == Feed(BitStep(r), Zeros(n - 1))
  {
    assert Zeros(n)[..1] == [false] && Zeros(n)[1..] == Zeros(n - 1);
    assert Xor(r, Pad([false])) == r;
  }

  /** esp_rom_crc32_le. */
  method Crc32Le(crc0: Word, buf: array<byte>, len: nat) returns (crc: Word)
    requires len <= buf.Length
    ensures crc == Crc(crc0, buf[..len])
  {
    crc := Not(crc0);
    var i := 0;
    while i < len
      invariant 0 <= i <= len
      invariant crc == Register(Not(crc0), buf[..i])
    {
      crc := ByteIn(crc, buf[i]);
      assert buf[..i + 1][..i] == buf[..i];
      FeedConcat(Not(crc0), BitStream(buf[..i]), BitList(buf[i], 8));
      i := i + 1;
    }
    crc := Not(crc);
  }

  /** A checksum may be computed in pieces, feeding each result into the next call. */
  lemma CrcOfConcat(crc: Word, a: seq<byte>, b: seq<byte>)
    ensures Crc(crc, a + b) == Crc(Crc(crc, a), b)
  {
    BitStreamConcat(a, b);
    FeedConcat(Not(crc), BitStream(a), BitStream(b));
    assert Not(Not(Register(Not(crc), a))) == Register(Not(crc), a);
  }

  // ----- Error detection -----

  lemma BitStepInjective(x: Word, y: Word)
    requires BitStep(x) == BitStep(y)
    ensures x == y
  {
    assert BitStep(x)[31] == x[0] && BitStep(y)[31] == y[0];
    forall i | 1 <= i < 32
      ensures x[i] == y[i]
    {
      assert BitStep(x)[i - 1] == (x[i] != (x[0] && POLYNOMIAL[i - 1]));
      assert BitStep(y)[i - 1] == (y[i] != (y[0] && POLYNOMIAL[i - 1]));
    }
  }

  lemma XorInjective(x: Word, y: Word, z: Word)
    requires Xor(x, z) == Xor(y, z)
    ensures x == y
  {
    forall i | 0 <= i < 32
      ensures x[i] == y[i]
    {
      assert Xor(x, z)[i] == Xor(y, z)[i];
    }
  }

  /** Equal message bits keep different registers different. */
  lemma {:induction false} FeedInjective(x: Word, y: Word, bits: seq<bool>)
    requires Feed(x, bits) == Feed(y, bits)
    ensures x == y
    decreases bits
  {
    if bits != [] {
      var b := Pad(bits[..1]);
      FeedInjective(BitStep(Xor(x, b)), BitStep(Xor(y, b)), bits[1..]);
      BitStepInjective(Xor(x, b), Xor(y, b));
      XorInjective(x, y, b);
    }
  }

  /** From one register, different strings of at most 32 bits lead to different registers. */
  lemma WindowInjective(r: Word, a: seq<bool>, b: seq<bool>)
    requires |a| == |b| <= 32 && Feed(r, a) == Feed(r, b)
    ensures a == b
  {
    FeedAllAtOnce(r, a);
    FeedAllAtOnce(r, b);
    FeedInjective(Xor(r, Pad(a)), Xor(r, Pad(b)), Zeros(|a|));
    forall i | 0 <= i < |a|
      ensures a[i] == b[i]
    {
      assert Xor(r, Pad(a))[i] == Xor(r, Pad(b))[i];
      assert Pad(a)[i] == a[i] && Pad(b)[i] == b[i];
    }
  }

  /** `a` and `b` differ at most inside the `n` positions from `k` on. */
  ghost predicate DifferOnlyWithin<T>(a: seq<T>, b: seq<T>, k: nat, n: nat)
  {
    |a| == |b| && k + n <= |a| && a[..k] == b[..k] && a[k + n..] == b[k + n..]
  }

  lemma FeedBurst(r: Word, a: seq<bool>, b: seq<bool>, k: nat, n: nat)
    requires n <= 32 && DifferOnlyWithin(a, b, k, n) && Feed(r, a) == Feed(r, b)
    ensures a == b
  {
    hide Feed;
    var pre, post := a[..k], a[k + n..];
    var wa, wb := a[k..k + n], b[k..k + n];
    assert a == pre + (wa + post) && b == pre + (wb + post);
    FeedConcat(r, pre, wa + post);
    FeedConcat(r, pre, wb + post);
    var mid := Feed(r, pre);
    FeedConcat(mid, wa, post);
    FeedConcat(mid, wb, post);
    FeedInjective(Feed(mid, wa), Feed(mid, wb), post);
    WindowInjective(mid, wa, wb);
  }

  /** Any change confined to 32 consecutive bits, aligned or not, changes the checksum. */
  lemma BitBurstDetected(crc: Word, a: seq<byte>, b: seq<byte>, k: nat, n: nat)
    requires |a| == |b| && a != b && n <= 32
    requires DifferOnlyWithin(BitStream(a), BitStream(b), k, n)
    ensures Crc(crc, a) != Crc(crc, b)
  {
    if Crc(crc, a) == Crc(crc, b) {
      NotInjective(Register(Not(crc), a), Register(Not(crc), b));
      FeedBurst(Not(crc), BitStream(a), BitStream(b), k, n);
      BitStreamInjective(a, b);
    }
  }

  lemma NotInjective(x: Word, y: Word)
    requires Not(x) == Not(y)
    ensures x == y
  {
    forall i | 0 <= i < 32
      ensures x[i] == y[i]
    {
      assert Not(x)[i] == Not(y)[i];
    }
  }

  lemma BurstInBits(a: seq<byte>, b: seq<byte>, k: nat, n: nat)
    requires DifferOnlyWithin(a, b, k, n)
    ensures DifferOnlyWithin(BitStream(a), BitStream(b), 8 * k, 8 * n)
  {
    assert a == a[..k] + a[k..k + n] + a[k + n..] && b == b[..k] + b[k..k + n] + b[k + n..];
    BitStreamConcat(a[..k] + a[k..k + n], a[k + n..]);
    BitStreamConcat(a[..k], a[k..k + n]);
    BitStreamConcat(b[..k] + b[k..k + n], b[k + n..]);
    BitStreamConcat(b[..k], b[k..k + n]);
  }

  /** Buffers that differ only within four consecutive bytes never share a checksum. */
  lemma BurstDetected(crc: Word, a: seq<byte>, b: seq<byte>, k: nat, n: nat)
    requires n <= 4 && DifferOnlyWithin(a, b, k, n) && a != b
    ensures Crc(crc, a) != Crc(crc, b)
  {
    BurstInBits(a, b, k, n);
    BitBurstDetected(crc, a, b, 8 * k, 8 * n);
  }

  // ----- Frames: payload followed by its own checksum, low byte first -----

  function Frame(payload: seq<byte>): (f: seq<byte>)
    ensures |f| == |payload| + 4
  {
    payload + LittleEndian(Checksum(payload))
  }

  /** The receiver's test: the last four bytes are the checksum of the others. */
  predicate FrameOk(f: seq<byte>)
    requires |f| >= 4
  {
    Checksum(f[..|f| - 4]) == WordOf(f[|f| - 4..])
  }

  function AllOnes(): Word { Not(Zeros(32)) }

  function Residue(): Word { Feed(AllOnes(), Zeros(32)) }

  /** Adding a word to its own complement, and only that, gives all ones. */
  lemma XorIsAllOnes(r: Word, w: Word)
    ensures Xor(r, w) == AllOnes() <==> Not(r) == w
  {
    if Xor(r, w) == AllOnes() {
      assert forall i :: 0 <= i < 32 ==> Xor(r, w)[i] == AllOnes()[i];
      assert forall i :: 0 <= i < 32 ==> Not(r)[i] == w[i];
    }
    if Not(r) == w {
      assert forall i :: 0 <= i < 32 ==> Not(r)[i] == w[i];
      assert forall i :: 0 <= i < 32 ==> Xor(r, w)[i] == AllOnes()[i];
    }
  }

  lemma WholeFrameRegister(p: seq<byte>, c: seq<byte>)
    requires |c| == 4
    ensures Register(AllOnes(), p + c) == Feed(Xor(Register(AllOnes(), p), WordOf(c)), Zeros(32))
  {
    BitStreamConcat(p, c);
    FeedConcat(AllOnes(), BitStream(p), BitStream(c));
    FeedAllAtOnce(Register(AllOnes(), p), BitStream(c));
    assert Pad(WordOf(c)) == WordOf(c);
  }

  /** The test in terms of one pass over the whole frame. */
  lemma FrameOkIffResidue(f: seq<byte>)
    requires |f| >= 4
    ensures FrameOk(f) <==> Register(AllOnes(), f) == Residue()
  {
    var n := |f| - 4;
    var r, w := Register(AllOnes(), f[..n]), WordOf(f[n..]);
    assert f == f[..n] + f[n..];
    WholeFrameRegister(f[..n], f[n..]);
    XorIsAllOnes(r, w);
    if Register(AllOnes(), f) == Residue() {
      FeedInjective(Xor(r, w), AllOnes(), Zeros(32));
    }
  }

  lemma FramePayload(payload: seq<byte>)
    ensures Frame(payload)[..|payload|] == payload
  {
  }

  lemma FrameAccepted(payload: seq<byte>)
    ensures FrameOk(Frame(payload))
  {
    var f := Frame(payload);
    assert f[..|f| - 4] == payload && f[|f| - 4..] == LittleEndian(Checksum(payload));
    WordOfLittleEndian(Checksum(payload));
  }

  /** A frame damaged anywhere, its checksum field included, but only within 32 consecutive bits,
      never passes the receiver's test. */
  lemma DamagedFrameRejected(payload: seq<byte>, f: seq<byte>, k: nat, n: nat)
    requires |f| == |Frame(payload)| && f != Frame(payload) && n <= 32
    requires DifferOnlyWithin(BitStream(Frame(payload)), BitStream(f), k, n)
    ensures !FrameOk(f)
  {
    var g := Frame(payload);
    if FrameOk(f) {
      FrameAccepted(payload);
      FrameOkIffResidue(f);
      FrameOkIffResidue(g);
      FeedBurst(AllOnes(), BitStream(g), BitStream(f), k, n);
      BitStreamInjective(g, f);
    }
  }
}
