/** Fixed-width unsigned quantities exchanged with the sensor over SMBus. */
module Words {

  /** An unsigned 8-bit value: a register address, a bus number or the high byte of a word. */
  type Byte = b: int | 0 <= b < 0x100

  /** An unsigned 16-bit value: the payload of an SMBus word transaction. */
  type Word = w: int | 0 <= w < 0x1_0000

  /** `w >> 8` on a 16-bit word: the byte that sits above the low eight bits. */
  function HighByte(w: Word): (b: Byte)
    ensures b * 0x100 <= w < b * 0x100 + 0x100
  {
    w / 0x100
  }

  /** `w & 0xFF` on a 16-bit word: what is left once the high byte is taken out. */
  function LowByte(w: Word): (b: Byte)
    ensures w == HighByte(w) * 0x100 + b
  {
    w % 0x100
  }

  /** `(uint16_t)((hi << 8) + lo)` where both operands are already 16-bit words:
      the shift and the sum happen in `int`, and the conversion back to 16 bits
      keeps the sum modulo 2^16, so a `hi` above 255 loses its upper bits. */
  function PackWord(hi: Word, lo: Word): (w: Word)
    ensures LowByte(w) == lo % 0x100
  {
    (hi * 0x100 + lo) % 0x1_0000
  }

  /** When both halves fit in a byte, packing loses nothing: the halves come back out. */
  lemma PackWordBytes(hi: Word, lo: Word)
    requires hi < 0x100 && lo < 0x100
    ensures HighByte(PackWord(hi, lo)) == hi
    ensures LowByte(PackWord(hi, lo)) == lo
  {
    var w := PackWord(hi, lo);
    assert w == hi * 0x100 + lo;
  }

  /** Packing keeps only the low byte of `hi`: the 16-bit conversion drops the rest. */
  lemma PackWordTruncatesHigh(hi: Word, lo: Word)
    requires lo < 0x100
    ensures HighByte(PackWord(hi, lo)) == hi % 0x100
    ensures LowByte(PackWord(hi, lo)) == lo
  {
    var w := PackWord(hi, lo);
    assert hi * 0x100 + lo == (hi / 0x100) * 0x1_0000 + (hi % 0x100) * 0x100 + lo;
    assert w == (hi % 0x100) * 0x100 + lo;
  }
}
