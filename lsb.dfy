/**
 * The bit primitives on one 8-bit channel value: reading and replacing its
 * least-significant bit. ReadLsb and WriteLsb state them arithmetically, and
 * are proved equal to the bitwise forms `x & 1` and `(x & 0xFE) | b`; the
 * program computes them on the text of `bin(v)` (LastBinDigit,
 * ReplaceLastBinDigit), and that route is proved equal to them as well.
 */
module Lsb {
  import opened PyBin

  /** An 8-bit channel value. */
  type Byte = v: int | 0 <= v < 256

  type Bit = b: int | 0 <= b < 2

  /** The least-significant bit of v. */
  function ReadLsb(v: Byte): Bit {
    v % 2
  }

  /** v with its least-significant bit replaced by b: the seven higher bits are kept. */
  function WriteLsb(v: Byte, b: Bit): (w: Byte)
    ensures ReadLsb(w) == b
    ensures w / 2 == v / 2
    ensures v - 1 <= w <= v + 1
  {
    v - v % 2 + b
  }

  /** The bitwise form of reading, `x & 1`, agrees with ReadLsb. */
  lemma ReadLsbBitwise(x: bv8)
    ensures ReadLsb(x as int) == (x & 1) as int
  {
    LowBit(x);
  }

  /** The bitwise form of writing, `(x & 0xFE) | bit`, agrees with WriteLsb. */
  lemma WriteLsbBitwise(x: bv8, bit: bv8)
    requires bit < 2
    ensures WriteLsb(x as int, bit as int) == ((x & 0xFE) | bit) as int
  {
    LowBit(x);
    ClearLowBit(x);
    SetLowBit(x & 0xFE, bit);
    WriteLsbIs(x as int, bit as int, ((x & 0xFE) | bit) as int);
  }

  /** WriteLsb's value, for a caller whose terms would otherwise mix integers and bit-vectors. */
  lemma WriteLsbIs(v: Byte, b: Bit, w: int)
    requires w == v - v % 2 + b
    ensures WriteLsb(v, b) == w
  {
  }

  /** An 8-bit pattern read as a number is a byte, and its lowest bit is its parity. */
  lemma LowBit(x: bv8)
    ensures 0 <= x as int < 256
    ensures (x & 1) as int == x as int % 2
  {
  }

  /** Masking with 0xFE clears the lowest bit: it subtracts the parity. */
  lemma ClearLowBit(x: bv8)
    ensures (x & 0xFE) & 1 == 0
    ensures (x & 0xFE) as int == x as int - x as int % 2
  {
    LowBit(x);
    if x & 1 == 0 {
      assert x & 0xFE == x;
    } else {
      assert x & 0xFE == x - 1;
    }
  }

  /** Or-ing a bit into a pattern whose lowest bit is clear adds that bit. */
  lemma SetLowBit(high: bv8, bit: bv8)
    requires high & 1 == 0 && bit < 2
    ensures 0 <= bit as int < 2
    ensures (high | bit) as int == high as int + bit as int
  {
    assert high | bit == high + bit;
  }

  /** Writing a bit and reading it back gives that bit; writing back the bit already there changes nothing. */
  lemma WriteThenRead(v: Byte, b: Bit)
    ensures ReadLsb(WriteLsb(v, b)) == b
    ensures WriteLsb(v, ReadLsb(v)) == v
    ensures WriteLsb(WriteLsb(v, b), b) == WriteLsb(v, b)
  {
  }

  /** The program's read of the LSB: the last character of `bin(v)`, converted with `int`. */
  function LastBinDigit(v: Byte): (d: Option<nat>)
    ensures d == Some(ReadLsb(v))
  {
    var s := Bin(v);
    DecimalValue(s[|s| - 1])
  }

  /**
   * The program's write of the LSB: the text of `bin(v)` with its last character
   * replaced by `digit`, parsed back with `int(_, 2)`. The program only ever
   * puts `"0"` or `"1"` there, and each writes that bit.
   */
  function ReplaceLastBinDigit(v: Byte, digit: char): (r: Option<nat>)
    ensures digit == '0' ==> r == Some(WriteLsb(v, 0))
    ensures digit == '1' ==> r == Some(WriteLsb(v, 1))
  {
    ParseBinWithLastReplaced(v, digit);
    assert 2 * (v / 2) == v - v % 2;
    var s := Bin(v);
    ParseInt2(s[..|s| - 1] + [digit])
  }
}
