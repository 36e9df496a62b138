/** Reading single bits out of a byte and out of a byte stream, the way the
    extractor reads 1-bit gray samples. */
module BitReader {

  import opened Bytes

  /** Bit `o` of a non-negative number: its remainder mod 2 after `o`
      halvings. This is the reference definition the shift-and-mask reading
      is proved against. */
  function NthBit(x: nat, o: nat): nat
  {
    if o == 0 then x % 2 else NthBit(x / 2, o - 1)
  }

  lemma {:induction false} NthBitIsBit(x: nat, o: nat)
    ensures NthBit(x, o) < 2
  {
    if o > 0 {
      NthBitIsBit(x / 2, o - 1);
    }
  }

  /** Shifting a byte right by one halves its value. */
  lemma ShiftRightHalves(b: byte)
    ensures (b >> 1) as nat == b as nat / 2
  {
  }

  /** Masking a byte with 1 keeps its parity. */
  lemma MaskKeepsParity(b: byte)
    ensures (b & 1 == 0) <==> b as nat % 2 == 0
  {
  }

  lemma ShiftSplits(b: byte, o: nat)
    requires 1 <= o < 8
    ensures b >> o == (b >> 1) >> (o - 1)
  {
  }

  /** Shift-and-mask extracts bit `o` of the byte's value. */
  lemma {:induction false} ShiftMaskIsNthBit(b: byte, o: nat)
    requires o < 8
    ensures ((b >> o) & 1 == 0) <==> NthBit(b as nat, o) == 0
  {
    if o == 0 {
      MaskKeepsParity(b);
    } else {
      ShiftSplits(b, o);
      ShiftRightHalves(b);
      ShiftMaskIsNthBit(b >> 1, o - 1);
    }
  }

  /** `(byte >> bitOffset) & 1`: bit `offset` of `b`, counting from the least
      significant bit. */
  function BitOfByte(b: byte, offset: nat): (bit: nat)
    requires offset < 8
    ensures bit == 0 || bit == 1
    ensures bit == NthBit(b as nat, offset)
  {
    ShiftMaskIsNthBit(b, offset);
    NthBitIsBit(b as nat, offset);
    if (b >> offset) & 1 == 0 then 0 else 1
  }

  /** The eight bits of a byte determine it: the byte is the sum of its bits
      weighted by their place values. A documentation lemma: the program
      never rebuilds a byte, but this shows the bit reading loses nothing. */
  lemma ByteFromBits(b: byte)
    ensures b as nat
      == BitOfByte(b, 0) + 2 * BitOfByte(b, 1) + 4 * BitOfByte(b, 2) + 8 * BitOfByte(b, 3)
       + 16 * BitOfByte(b, 4) + 32 * BitOfByte(b, 5) + 64 * BitOfByte(b, 6) + 128 * BitOfByte(b, 7)
  {
  }

  /** Bit `i` of a stream: bit `i % 8` of the byte at index
      `|a| - i / 8`. Byte index `|a|` and every negative index lie outside
      the stream and read as 0, so bits 0 to 7 are always 0 and the first
      byte `a[0]` is never reached through bits 8 to 15 but only through
      bits `8 * |a|` to `8 * |a| + 7`. */
  function ReadBit(a: seq<byte>, i: nat): (bit: nat)
    ensures bit == 0 || bit == 1
    ensures i < 8 ==> bit == 0
    ensures i / 8 > |a| ==> bit == 0
    ensures 1 <= i / 8 <= |a| ==> bit == BitOfByte(a[|a| - i / 8], i % 8)
  {
    BitOfByte(At(a, |a| - i / 8), i % 8)
  }

  /** Bit `o` of the byte `m` places from the end of the stream (counting
      the last byte as 1) is read at bit index `8 * m + o`. */
  lemma ReadBitOfByte(a: seq<byte>, m: nat, o: nat)
    requires 1 <= m <= |a| && o < 8
    ensures ReadBit(a, 8 * m + o) == BitOfByte(a[|a| - m], o)
  {
    assert (8 * m + o) / 8 == m && (8 * m + o) % 8 == o;
  }
}
