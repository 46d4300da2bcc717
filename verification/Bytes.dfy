/** Bytes, 32-bit words and the bit strings behind them.
    Lengths, indices and opcodes are compared as numbers, while the checksum works on bits;
    the two views are tied together here and nowhere else. Every bit string is least
    significant bit first. */
module Bytes {

  type byte = x: int | 0 <= x < 256

  /** `uint32_t` as its 32 bits. */
  type Word = w: seq<bool> | |w| == 32 witness Zeros(32)

  function Zeros(n: nat): (z: seq<bool>)
    ensures |z| == n && forall i :: 0 <= i < n ==> !z[i]
  {
    seq(n, _ => false)
  }

  function Xor(x: Word, y: Word): (z: Word)
    ensures forall i :: 0 <= i < 32 ==> z[i] == (x[i] != y[i])
  {
    seq(32, i requires 0 <= i < 32 => x[i] != y[i])
  }

  function Not(x: Word): (z: Word)
    ensures forall i :: 0 <= i < 32 ==> z[i] == !x[i]
  {
    seq(32, i requires 0 <= i < 32 => !x[i])
  }

  /** A short bit string widened to a word with zero high bits. */
  function Pad(bits: seq<bool>): (w: Word)
    requires |bits| <= 32
    ensures w == bits + Zeros(32 - |bits|)
  {
    bits + Zeros(32 - |bits|)
  }

  /** The low `n` bits of a byte. */
  function BitList(b: byte, n: nat): (bits: seq<bool>)
    ensures |bits| == n
  {
    if n == 0 then [] else [b % 2 == 1] + BitList(b / 2, n - 1)
  }

  function Pow2(n: nat): nat { if n == 0 then 1 else 2 * Pow2(n - 1) }

  function NumberOf(bits: seq<bool>): (n: nat)
    ensures n < Pow2(|bits|)
  {
    if bits == [] then 0 else (if bits[0] then 1 else 0) + 2 * NumberOf(bits[1..])
  }

  function ByteOf(bits: seq<bool>): (b: byte)
    requires |bits| == 8
  {
    Pow2Of8();
    NumberOf(bits)
  }

  lemma Pow2Of8()
    ensures Pow2(8) == 256
  {
    assert Pow2(8) == 16 * Pow2(4) && Pow2(4) == 16;
  }

  lemma {:induction false} BitListOfNumber(bits: seq<bool>)
    requires NumberOf(bits) < 256
    ensures BitList(NumberOf(bits), |bits|) == bits
  {
    if bits != [] {
      var half := NumberOf(bits[1..]);
      assert NumberOf(bits) / 2 == half;
      BitListOfNumber(bits[1..]);
      assert bits == [bits[0]] + bits[1..];
    }
  }

  lemma {:induction false} BitListInjective(a: byte, b: byte, n: nat)
    requires a < Pow2(n) && b < Pow2(n)
    requires BitList(a, n) == BitList(b, n)
    ensures a == b
  {
    if n > 0 {
      assert BitList(a, n)[1..] == BitList(a / 2, n - 1);
      assert BitList(b, n)[1..] == BitList(b / 2, n - 1);
      assert BitList(a, n)[0] == (a % 2 == 1) && BitList(b, n)[0] == (b % 2 == 1);
      BitListInjective(a / 2, b / 2, n - 1);
    }
  }

  /** The bits of a buffer in the order a reflected CRC consumes them. */
  function BitStream(buf: seq<byte>): (bits: seq<bool>)
    ensures |bits| == 8 * |buf|
  {
    if buf == [] then [] else BitStream(buf[..|buf| - 1]) + BitList(buf[|buf| - 1], 8)
  }

  lemma {:induction false} BitStreamConcat(a: seq<byte>, b: seq<byte>)
    ensures BitStream(a + b) == BitStream(a) + BitStream(b)
  {
    if b == [] {
      assert a + b == a;
    } else {
      var n := |b| - 1;
      assert (a + b)[..|a + b| - 1] == a + b[..n];
      BitStreamConcat(a, b[..n]);
    }
  }

  lemma {:induction false} BitStreamInjective(a: seq<byte>, b: seq<byte>)
    requires |a| == |b| && BitStream(a) == BitStream(b)
    ensures a == b
  {
    if a != [] {
      var n := |a| - 1;
      assert BitStream(a)[..8 * n] == BitStream(a[..n]) && BitStream(b)[..8 * n] == BitStream(b[..n]);
      assert BitStream(a)[8 * n..] == BitList(a[n], 8) && BitStream(b)[8 * n..] == BitList(b[n], 8);
      BitStreamInjective(a[..n], b[..n]);
      Pow2Of8();
      BitListInjective(a[n], b[n], 8);
      assert a == a[..n] + [a[n]] && b == b[..n] + [b[n]];
    }
  }

  /** Four bytes copied into a `uint32_t`, low byte first. */
  function WordOf(bs: seq<byte>): Word
    requires |bs| == 4
  {
    BitStream(bs)
  }

  /** The four bytes of a word, low byte first: what `struct.pack('<I', w)` sends. */
  function LittleEndian(w: Word): (bs: seq<byte>)
    ensures |bs| == 4
  {
    [ByteOf(w[..8]), ByteOf(w[8..16]), ByteOf(w[16..24]), ByteOf(w[24..])]
  }

  lemma BitStreamOfByte(bits: seq<bool>)
    requires |bits| == 8
    ensures BitStream([ByteOf(bits)]) == bits
  {
    Pow2Of8();
    BitListOfNumber(bits);
    var one := [ByteOf(bits)];
    assert one[..0] == [] && BitStream(one[..0]) == [];
  }

  lemma BitStreamOfFour(a: byte, b: byte, c: byte, d: byte)
    ensures BitStream([a, b, c, d]) == BitStream([a]) + BitStream([b]) + BitStream([c]) + BitStream([d])
  {
    BitStreamConcat([a], [b]);
    BitStreamConcat([a] + [b], [c]);
    BitStreamConcat([a] + [b] + [c], [d]);
    assert [a] + [b] + [c] + [d] == [a, b, c, d];
  }

  lemma WordOfLittleEndian(w: Word)
    ensures WordOf(LittleEndian(w)) == w
  {
    BitStreamOfByte(w[..8]);
    BitStreamOfByte(w[8..16]);
    BitStreamOfByte(w[16..24]);
    BitStreamOfByte(w[24..]);
    BitStreamOfFour(ByteOf(w[..8]), ByteOf(w[8..16]), ByteOf(w[16..24]), ByteOf(w[24..]));
    assert w == w[..8] + w[8..16] + w[16..24] + w[24..];
  }
}
