/**
 * How the Java classifier and accessors relate to the ISO/IEC 7816-4
 * reference of module Iso7816: exactly which byte sequences isValidAPDU
 * accepts, and under which conditions on the encoded command the accessors
 * return the command's own fields.
 */
module Conformance {
  import opened JavaInt
  import opened Iso7816
  import opened Smartcard

  /**
   * A length value that Java reads back unchanged from its encoding: one octet
   * below 0x80, or two octets of which neither has its sign bit set.
   */
  predicate FitsSigned(n: nat, extended: bool)
  {
    if extended then n < 32768 && n % 256 < 128 else n < 128
  }

  /** The Lc field, if any, reads back unchanged through Java's signed bytes. */
  predicate LcFitsSigned(c: Command)
  {
    (c.Case3? || c.Case4?) ==> FitsSigned(|c.body|, c.extended)
  }

  /** The Le field, if any, reads back unchanged through Java's signed bytes. */
  predicate LeFitsSigned(c: Command)
  {
    (c.Case2? || c.Case4?) ==> FitsSigned(c.le, c.extended)
  }

  /**
   * The byte at offset 5 of the encoding is zero exactly when the command is
   * extended, which is what isExtendedAPDU takes for granted: an extended
   * length field must stay below 256, and a standard data field long enough to
   * reach offset 5 must not start with a zero byte.
   */
  predicate OffsetFiveMarksExtended(c: Command)
  {
    match c
    case Case1(_) => true
    case Case2(_, ext, le) => ext ==> le < 256
    case Case3(_, ext, body) => if ext then |body| < 256 else |body| < 2 || body[0] != 0
    case Case4(_, ext, body, _) => if ext then |body| < 256 else body == [] || body[0] != 0
  }

  /** An extended Case 4 layout with Lc = 0, which ISO/IEC 7816-4 does not allow. */
  predicate ZeroLcExtendedWithLe(s: seq<JByte>)
  {
    |s| == 9 && s[4] == 0 && s[5] == 0 && s[6] == 0
  }

  /** Eight bytes whose extended Lc low octet is 0xFF: sign extension reads Lc as -1, and 7 - 1 + 2 == 8. */
  predicate MinusOneLcExtended(s: seq<JByte>)
  {
    |s| == 8 && s[4] == 0 && s[6] == -1
  }

  /**
   * isValidAPDU accepts exactly the ISO encodings whose Lc survives Java's
   * signed reads, plus two layouts that ISO/IEC 7816-4 rejects.
   */
  lemma ValidIffDecodable(a: CommandAPDU)
    requires |a.data| == 6 ==> a.data[4] != 0
    ensures a.IsValidAPDU() <==>
      (Decode(a.data).Some? && LcFitsSigned(Decode(a.data).value))
      || ZeroLcExtendedWithLe(a.data) || MinusOneLcExtended(a.data)
  {
    var s := a.data;
    if |s| >= 6 && s[4] != 0 {
      StandardValidIff(a);
    } else if |s| >= 8 && s[4] == 0 {
      ExtendedValidIff(a);
    }
  }

  /** ValidIffDecodable for a standard body: a negative Lc byte can match no length. */
  lemma StandardValidIff(a: CommandAPDU)
    requires |a.data| >= 6 && a.data[4] != 0
    ensures a.IsValidAPDU() <==> Decode(a.data).Some? && LcFitsSigned(Decode(a.data).value)
  {
    var s := a.data;
    assert Decode(s) == DecodeStandardBody(Header(s[0], s[1], s[2], s[3]), s);
  }

  /** ValidIffDecodable for an extended body of eight bytes or more. */
  lemma ExtendedValidIff(a: CommandAPDU)
    requires |a.data| >= 8 && a.data[4] == 0
    ensures a.IsValidAPDU() <==>
      (Decode(a.data).Some? && LcFitsSigned(Decode(a.data).value))
      || ZeroLcExtendedWithLe(a.data) || MinusOneLcExtended(a.data)
  {
    var s := a.data;
    var n := Word(s[5], s[6]);
    assert Decode(s) == DecodeExtendedBody(Header(s[0], s[1], s[2], s[3]), s);
    assert n % 256 == Unsigned(s[6]);
    assert FitsSigned(n, true) <==> s[5] >= 0 && s[6] >= 0;
    JavaWordUnsignedRange(s[5], s[6]);
  }

  /** Every ISO encoding whose Lc fits Java's signed reads is valid, and isValidAPDU can be asked of it without an out-of-bounds read. */
  lemma EncodedIsValid(a: CommandAPDU, c: Command)
    requires WellFormed(c) && a.data == Encode(c) && LcFitsSigned(c)
    ensures |a.data| == 6 ==> a.data[4] != 0
    ensures a.IsValidAPDU()
  {
    DecodeEncode(c);
    if |a.data| == 6 {
      assert c.Case3? && !c.extended && |c.body| == 1;
    }
    ValidIffDecodable(a);
  }

  /** The header getters return the command's header. */
  lemma HeaderAgrees(a: CommandAPDU, c: Command)
    requires WellFormed(c) && a.data == Encode(c)
    ensures |a.data| >= 4
    ensures a.GetCla() == c.header.cla && a.GetIns() == c.header.ins
    ensures a.GetP1() == c.header.p1 && a.GetP2() == c.header.p2
  {
    assert a.data[..4] == HeaderBytes(c.header);
  }

  /** isExtendedAPDU names the command's encoding exactly when byte 5 marks it. */
  lemma ExtendedFlagAgrees(a: CommandAPDU, c: Command)
    requires WellFormed(c) && a.data == Encode(c)
    ensures a.IsExtendedAPDU() == IsExtended(c) <==> OffsetFiveMarksExtended(c)
  {
    var s := a.data;
    match c
    case Case1(_) =>
    case Case2(_, ext, le) =>
    case Case3(_, ext, body) =>
      if !ext && |body| >= 2 {
        assert s[5] == body[0];
      }
    case Case4(_, ext, body, _) =>
      if !ext {
        assert s[5] == body[0];
      }
  }

  /** With byte 5 marking the encoding and Lc readable, getLc returns the data length. */
  lemma LcAgrees(a: CommandAPDU, c: Command)
    requires WellFormed(c) && a.data == Encode(c)
    requires OffsetFiveMarksExtended(c) && LcFitsSigned(c)
    ensures |a.data| >= 4 && a.GetLc() == LcOf(c)
  {
    ExtendedFlagAgrees(a, c);
  }

  /** hasData holds exactly for Cases 3 and 4, under the conditions of LcAgrees. */
  lemma HasDataAgrees(a: CommandAPDU, c: Command)
    requires WellFormed(c) && a.data == Encode(c)
    requires OffsetFiveMarksExtended(c) && LcFitsSigned(c)
    ensures |a.data| >= 4 && (a.HasData() <==> c.Case3? || c.Case4?)
  {
    LcAgrees(a, c);
  }

  /** getLe returns the raw Le field, or -1 when there is none. */
  lemma LeAgrees(a: CommandAPDU, c: Command)
    requires WellFormed(c) && a.data == Encode(c)
    requires OffsetFiveMarksExtended(c) && LcFitsSigned(c) && LeFitsSigned(c)
    ensures |a.data| >= 4 && a.GetLe() == LeOf(c)
  {
    ExtendedFlagAgrees(a, c);
    LcAgrees(a, c);
  }

  /** getArgumentData can be called without an exception and returns the data field. */
  lemma ArgumentDataAgrees(a: CommandAPDU, c: Command)
    requires WellFormed(c) && a.data == Encode(c)
    requires OffsetFiveMarksExtended(c) && LcFitsSigned(c)
    ensures |a.data| >= 4 && a.GetLc() >= 0 && (a.GetLc() > 0 ==> a.ArgumentOffset() + a.GetLc() <= |a.data|)
    ensures a.ArgumentBytes() == DataOf(c)
  {
    ExtendedFlagAgrees(a, c);
    LcAgrees(a, c);
  }
}
