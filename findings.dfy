/**
 * Concrete APDUs on which the Java code, modelled as written in module
 * Smartcard, departs from the ISO/IEC 7816-4 layout it documents and which
 * Iso7816.Decode implements. Each lemma names one byte sequence and states
 * both readings of it.
 */
module Findings {
  import opened JavaInt
  import opened Iso7816
  import opened Smartcard

  /** SELECT's header (CLA 00, INS A4, P1 04, P2 00), used by every example below. */
  const Select: Header := Header(0, -92, 4, 0)

  /**
   * An extended Case 3 APDU with 256 data bytes: byte 5 is the high octet 01
   * of Lc, so isExtendedAPDU is false, getLc reads the marker byte 4 as a
   * standard Lc of 0, hasData is false, and getLe reports the last data byte
   * as an Le field.
   */
  lemma ExtendedLcOver255Misread(a: CommandAPDU)
    requires a.data == HeaderBytes(Select) + [0, 1, 0] + seq(256, _ => 7)
    ensures Decode(a.data) == Some(Case3(Select, true, seq(256, _ => 7)))
    ensures a.IsValidAPDU() && !a.IsExtendedAPDU()
    ensures a.GetLc() == 0 && !a.HasData() && a.GetLe() == 7
  {
    assert a.data[7..] == seq(256, _ => 7);
  }

  /**
   * A standard Case 3 APDU whose data field 00 64 01 starts with a zero byte:
   * isExtendedAPDU is true, getLc reads bytes 5-6 as Lc = 100, and
   * getArgumentData would copy 100 bytes from offset 7 of an 8-byte array.
   */
  lemma StandardDataStartingWithZeroMisread(a: CommandAPDU)
    requires a.data == HeaderBytes(Select) + [3, 0, 100, 1]
    ensures Decode(a.data) == Some(Case3(Select, false, [0, 100, 1]))
    ensures a.IsValidAPDU() && a.IsExtendedAPDU()
    ensures a.GetLc() == 100 && a.ArgumentOffset() + a.GetLc() > |a.data|
  {
    assert a.data[5..] == [0, 100, 1];
  }

  /** A standard Case 3 APDU with Lc = 0x80: the signed byte 4 is -128, and no length matches it. */
  lemma StandardLcAbove127Rejected(a: CommandAPDU)
    requires a.data == HeaderBytes(Select) + [-128] + seq(128, _ => 7)
    ensures Decode(a.data) == Some(Case3(Select, false, seq(128, _ => 7)))
    ensures !a.IsValidAPDU()
  {
    assert a.data[5..] == seq(128, _ => 7);
  }

  /** An extended Case 3 APDU with Lc = 0x0080: sign extension of the low octet turns Lc into -128. */
  lemma ExtendedLcLowOctetAbove127Rejected(a: CommandAPDU)
    requires a.data == HeaderBytes(Select) + [0, 0, -128] + seq(128, _ => 7)
    ensures Decode(a.data) == Some(Case3(Select, true, seq(128, _ => 7)))
    ensures !a.IsValidAPDU()
  {
    assert a.data[7..] == seq(128, _ => 7);
  }

  /** A standard Case 2 APDU asking for 255 bytes: getLe returns -1, the value that means "no Le field". */
  lemma LeOfFFReadsAsAbsent(a: CommandAPDU)
    requires a.data == HeaderBytes(Select) + [-1]
    ensures Decode(a.data) == Some(Case2(Select, false, 255))
    ensures a.IsValidAPDU() && a.GetLe() == -1 && a.GetLe() != LeOf(Decode(a.data).value)
  {
  }

  /**
   * Eight bytes 00 00 FF 00 after the header: no ISO layout, yet valid for
   * the source, whose getLc then returns -1, so getArgumentData would ask for
   * an array of negative size.
   */
  lemma MinusOneLcAccepted(a: CommandAPDU)
    requires a.data == HeaderBytes(Select) + [0, 0, -1, 0]
    ensures Decode(a.data) == None
    ensures a.IsValidAPDU() && a.GetLc() == -1
  {
  }

  /** An extended Case 4 layout with Lc = 0: ISO requires Lc of at least 1, the source accepts it. */
  lemma ZeroLcExtendedAccepted(a: CommandAPDU)
    requires a.data == HeaderBytes(Select) + [0, 0, 0, 0, 5]
    ensures Decode(a.data) == None
    ensures a.IsValidAPDU() && a.GetLc() == 0 && a.GetLe() == 5
  {
    var s := a.data;
    assert |s| == 9 && s[4] == 0 && s[5] == 0 && s[6] == 0 && s[7] == 0 && s[8] == 5;
    assert Decode(s) == DecodeExtendedBody(Select, s);
  }
}
