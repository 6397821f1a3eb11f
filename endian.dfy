/** Fixed-width integers and the big-endian decoding of a 4-byte length
    prefix (base::EndianUtil::fromBig applied to a uint32 read raw from the
    socket). */
module Endian {

  newtype byte = x: int | 0 <= x < 0x100
  newtype uint32 = x: int | 0 <= x < 0x1_0000_0000

  /** Splitting off the low byte of q * 256 + r. */
  lemma SplitLowByte(q: int, r: int)
    requires q >= 0 && 0 <= r < 0x100
    ensures (q * 0x100 + r) / 0x100 == q
    ensures (q * 0x100 + r) % 0x100 == r
  {
  }

  /** The value of four bytes read most significant first. */
  function FromBigEndian32(b: seq<byte>): (n: uint32)
    requires |b| == 4
    ensures n as int / 0x100 / 0x100 / 0x100 == b[0] as int
    ensures n as int % 0x100 == b[3] as int
  {
    var w1 := b[0] as int * 0x100 + b[1] as int;
    var w2 := w1 * 0x100 + b[2] as int;
    var v := w2 * 0x100 + b[3] as int;
    SplitLowByte(w2, b[3] as int);
    SplitLowByte(w1, b[2] as int);
    SplitLowByte(b[0] as int, b[1] as int);
    v as uint32
  }

  /** The four bytes a peer sends for the length n, most significant first. */
  function ToBigEndian32(n: uint32): (b: seq<byte>)
    ensures |b| == 4
  {
    var v0 := n as int;
    var v1 := v0 / 0x100;
    var v2 := v1 / 0x100;
    [(v2 / 0x100) as byte, (v2 % 0x100) as byte, (v1 % 0x100) as byte, (v0 % 0x100) as byte]
  }

  /** Decoding a prefix that was encoded from n gives n back. */
  lemma DecodeEncode(n: uint32)
    ensures FromBigEndian32(ToBigEndian32(n)) == n
  {
    var v0 := n as int;
    var v1 := v0 / 0x100;
    var v2 := v1 / 0x100;
    assert v0 == v1 * 0x100 + v0 % 0x100;
    assert v1 == v2 * 0x100 + v1 % 0x100;
    assert v2 == (v2 / 0x100) * 0x100 + v2 % 0x100;
  }

  /** Every 4-byte prefix is the encoding of the value it decodes to. */
  lemma EncodeDecode(b: seq<byte>)
    requires |b| == 4
    ensures ToBigEndian32(FromBigEndian32(b)) == b
  {
    var w1 := b[0] as int * 0x100 + b[1] as int;
    var w2 := w1 * 0x100 + b[2] as int;
    assert FromBigEndian32(b) as int == w2 * 0x100 + b[3] as int;
    SplitLowByte(w2, b[3] as int);
    SplitLowByte(w1, b[2] as int);
    SplitLowByte(b[0] as int, b[1] as int);
  }

  /** Two prefixes declare the same length iff they are the same bytes. */
  lemma DecodeInjective(a: seq<byte>, b: seq<byte>)
    requires |a| == 4 && |b| == 4
    ensures FromBigEndian32(a) == FromBigEndian32(b) <==> a == b
  {
    EncodeDecode(a);
    EncodeDecode(b);
  }

}
