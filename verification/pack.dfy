/** The two byte-order conversions of Bouncy Castle's `Pack` utility that the
    matrix generator calls, and the 16-bit little-endian wire encoding they
    implement. */
module Pack {
  import opened JavaInt

  /** The 16-bit little-endian encoding of an unsigned value: low byte first. */
  function Le16(x: int): (bs: seq<byte>)
    requires 0 <= x < 0x1_0000
    ensures |bs| == 2 && bs[0] as int + 0x100 * bs[1] as int == x
  {
    [(x % 0x100) as byte, (x / 0x100) as byte]
  }

  /** Two bytes encode exactly one value. */
  lemma Le16Injective(x: int, y: int)
    requires 0 <= x < 0x1_0000 && 0 <= y < 0x1_0000
    ensures Le16(x) == Le16(y) <==> x == y
  {
    if Le16(x) == Le16(y) {
      assert Le16(x)[0] == Le16(y)[0] && Le16(x)[1] == Le16(y)[1];
    }
  }

  /** `Pack.shortToLittleEndian(n)`: byte 0 is `(byte) n`, byte 1 is
      `(byte) (n >>> 8)`, where `n` is first widened to a 32-bit `int` (sign
      extension) and `>>>` shifts that 32-bit pattern right without sign. */
  function ShortToLittleEndian(n: int16): seq<byte>
  {
    var widened := n as int % 0x1_0000_0000;
    [(n as int % 0x100) as byte, (widened / 0x100 % 0x100) as byte]
  }

  /** The Java conversion produces the 16-bit little-endian encoding of the
      `short`'s bit pattern, whatever its sign. */
  lemma ShortToLittleEndianIsLe16(n: int16)
    ensures ShortToLittleEndian(n) == Le16(n as int % 0x1_0000)
  {
    var widened := n as int % 0x1_0000_0000;
    if n < 0 {
      assert widened == n as int + 0x1_0000_0000;
      assert n as int % 0x1_0000 == n as int + 0x1_0000;
    }
    assert widened / 0x100 % 0x100 == (n as int % 0x1_0000) / 0x100;
  }

  /** `Pack.littleEndianToShort(bs, off)`: the unsigned bytes `bs[off]` (low)
      and `bs[off + 1]` (high) joined into 16 bits and narrowed to a signed
      `short`. */
  function LittleEndianToShort(bs: seq<byte>, off: int): int16
    requires 0 <= off && off + 2 <= |bs|
  {
    ToShort(bs[off] as int + bs[off + 1] as int * 0x100)
  }

  /** The decoded `short` has the two bytes as its bit pattern, so encoding
      it again gives back exactly those bytes. */
  lemma LittleEndianToShortInverse(bs: seq<byte>, off: int)
    requires 0 <= off && off + 2 <= |bs|
    ensures LittleEndianToShort(bs, off) as int % 0x1_0000 == bs[off] as int + 0x100 * bs[off + 1] as int
    ensures ShortToLittleEndian(LittleEndianToShort(bs, off)) == bs[off..off + 2]
  {
    var u := bs[off] as int + bs[off + 1] as int * 0x100;
    var n := LittleEndianToShort(bs, off);
    ToShortLowBits(u);
    EuclidUnique(u, 0x1_0000, 0, u);
    ShortToLittleEndianIsLe16(n);
    Le16Injective(n as int % 0x1_0000, u);
    assert Le16(u) == bs[off..off + 2];
  }

  /** Decoding an encoded `short` gives it back: with the lemma above, the
      two conversions are inverse to each other. */
  lemma {:induction false} ShortRoundTrip(n: int16)
    ensures LittleEndianToShort(ShortToLittleEndian(n), 0) == n
  {
    var bs := ShortToLittleEndian(n);
    var m := LittleEndianToShort(bs, 0);
    LittleEndianToShortInverse(bs, 0);
    ShortToLittleEndianIsLe16(n);
    ShortToLittleEndianIsLe16(m);
    Le16Injective(m as int % 0x1_0000, n as int % 0x1_0000);
    ToShortUnique(n as int, m);
    ToShortUnique(n as int, n);
  }
}
