/**
 * Java's primitive integer arithmetic as far as CommandAPDU depends on it:
 * the signed `byte`, and the 16-bit value that the expression
 * `(hi << 8) | lo` produces once both bytes are promoted to `int`.
 */
module JavaInt {

  /** A Java `byte`: a signed two's-complement value in -128..127. */
  type JByte = x: int | -128 <= x < 128

  /** The octet 0..255 whose bit pattern the byte carries (Java's `b & 0xFF`). */
  function Unsigned(b: JByte): (u: int)
    ensures 0 <= u < 256
    ensures ToJByte(u) == b
  {
    if b < 0 then b + 256 else b
  }

  /** The byte with the bit pattern of octet `u` (Java's narrowing cast `(byte) u`). */
  function ToJByte(u: int): JByte
    requires 0 <= u < 256
  {
    if u < 128 then u else u - 256
  }

  /**
   * The value of `(hi << 8) | lo` on two bytes. Both operands are sign-extended
   * to 32 bits first; a negative `lo` therefore carries ones in bits 8..31 and
   * swamps `hi` completely, while a non-negative `lo` fills only the low octet
   * below `hi * 256`. ShiftOrIsJavaWord proves this against the bit operations.
   */
  function JavaWord(hi: JByte, lo: JByte): int
  {
    if lo < 0 then lo else hi * 256 + lo
  }

  /** The signed value of a byte given as its bit pattern. */
  function Signed8(b: bv8): JByte
  {
    if b < 0x80 then b as int else b as int - 256
  }

  /** Java's widening conversion from `byte` to `int`: sign extension. */
  function SignExtend(b: bv8): bv32
  {
    if b < 0x80 then b as bv32 else (b as bv32) | 0xFFFF_FF00
  }

  /** The signed value of a Java `int` given as its bit pattern. */
  function Signed32(u: bv32): int
  {
    if u < 0x8000_0000 then u as int else u as int - 0x1_0000_0000
  }

  /** `(hi << 8) | lo` computed on the 32-bit patterns, as the JVM does. */
  function ShiftOr(hi: bv8, lo: bv8): bv32
  {
    (SignExtend(hi) << 8) | SignExtend(lo)
  }

  lemma ShiftOrNegativeLow(hi: bv8, lo: bv8)
    requires lo >= 0x80
    ensures ShiftOr(hi, lo) as int == lo as int + 0xFFFF_FF00
  {
    assert ShiftOr(hi, lo) == (lo as bv32) + 0xFFFF_FF00;
  }

  lemma ShiftOrBitsBothNonNegative(hi: bv8, lo: bv8)
    requires lo < 0x80 && hi < 0x80
    ensures ShiftOr(hi, lo) == (hi as bv32) * 256 + (lo as bv32)
  {
  }

  lemma WordValueBothNonNegative(hi: bv8, lo: bv8)
    requires lo < 0x80 && hi < 0x80
    ensures ((hi as bv32) * 256 + (lo as bv32)) as int == hi as int * 256 + lo as int
  {
  }

  lemma ShiftOrNegativeHigh(hi: bv8, lo: bv8)
    requires lo < 0x80 && hi >= 0x80
    ensures ShiftOr(hi, lo) as int == hi as int * 256 + lo as int + 0xFFFF_0000
  {
    assert ShiftOr(hi, lo) == (hi as bv32) * 256 + (lo as bv32) + 0xFFFF_0000;
  }

  /** JavaWord is exactly what the JVM computes for `(hi << 8) | lo`, for all 65536 byte pairs. */
  lemma ShiftOrIsJavaWord(hi: bv8, lo: bv8)
    ensures Signed32(ShiftOr(hi, lo)) == JavaWord(Signed8(hi), Signed8(lo))
  {
    if lo >= 0x80 {
      ShiftOrNegativeLow(hi, lo);
    } else if hi < 0x80 {
      ShiftOrBitsBothNonNegative(hi, lo);
      WordValueBothNonNegative(hi, lo);
    } else {
      ShiftOrNegativeHigh(hi, lo);
    }
  }

  /** The word agrees with the big-endian unsigned 16-bit value exactly when neither byte has its sign bit set. */
  lemma JavaWordUnsignedRange(hi: JByte, lo: JByte)
    ensures JavaWord(hi, lo) == Unsigned(hi) * 256 + Unsigned(lo) <==> hi >= 0 && lo >= 0
  {
  }
}
