/**
 * The Command APDU layout of ISO/IEC 7816-4 (section 5.1, command-response
 * pairs), as the reference against which the Java classifier is measured:
 * an abstract command, its encoding into bytes, and a decoder that reads the
 * length fields as unsigned octets. Decode is the classifier that the class
 * comment of CommandAPDU describes; the Java code departs from it in the
 * ways the lemmas of module Conformance and module Findings make precise.
 */
module Iso7816 {
  import opened JavaInt

  datatype Option<T> = None | Some(value: T)

  /** The four header bytes CLA, INS, P1 and P2. */
  datatype Header = Header(cla: JByte, ins: JByte, p1: JByte, p2: JByte)

  /**
   * The four command cases. `extended` selects the three-byte length
   * encoding; `le` is the raw value of the Le field (0 stands for the maximum
   * and is not remapped here) and `body` is the command data field.
   */
  datatype Command =
    | Case1(header: Header)
    | Case2(header: Header, extended: bool, le: nat)
    | Case3(header: Header, extended: bool, body: seq<JByte>)
    | Case4(header: Header, extended: bool, body: seq<JByte>, le: nat)

  /** One more than the largest value a length field of the encoding can hold. */
  function FieldLimit(extended: bool): nat
  {
    if extended then 65536 else 256
  }

  /** The length fields fit their encoding, and a data field is never empty. */
  predicate WellFormed(c: Command)
  {
    match c
    case Case1(_) => true
    case Case2(_, ext, le) => le < FieldLimit(ext)
    case Case3(_, ext, body) => 0 < |body| < FieldLimit(ext)
    case Case4(_, ext, body, le) => 0 < |body| < FieldLimit(ext) && le < FieldLimit(ext)
  }

  function HeaderBytes(h: Header): seq<JByte>
  {
    [h.cla, h.ins, h.p1, h.p2]
  }

  /** Lc, or the Le of Case 2: one octet, or a zero octet followed by two octets big-endian. */
  function LengthField(n: nat, extended: bool): seq<JByte>
    requires n < FieldLimit(extended)
  {
    if extended then [0, ToJByte(n / 256), ToJByte(n % 256)] else [ToJByte(n)]
  }

  /** The Le field that follows a data field: one octet, or two octets big-endian. */
  function TrailingLe(le: nat, extended: bool): seq<JByte>
    requires le < FieldLimit(extended)
  {
    if extended then [ToJByte(le / 256), ToJByte(le % 256)] else [ToJByte(le)]
  }

  function Encode(c: Command): (s: seq<JByte>)
    requires WellFormed(c)
  {
    match c
    case Case1(h) => HeaderBytes(h)
    case Case2(h, ext, le) => HeaderBytes(h) + LengthField(le, ext)
    case Case3(h, ext, body) => HeaderBytes(h) + LengthField(|body|, ext) + body
    case Case4(h, ext, body, le) => HeaderBytes(h) + LengthField(|body|, ext) + body + TrailingLe(le, ext)
  }

  /** The big-endian unsigned 16-bit value of two octets. */
  function Word(hi: JByte, lo: JByte): nat
  {
    Unsigned(hi) * 256 + Unsigned(lo)
  }

  /**
   * Classifies a byte sequence: the length alone separates Cases 1 and 2
   * (standard), a zero octet at offset 4 marks the extended encoding, and the
   * remaining length must match Lc exactly (Case 3) or Lc plus the Le field
   * (Case 4). Every decoded command re-encodes to the input.
   */
  function Decode(s: seq<JByte>): (r: Option<Command>)
    ensures r.Some? ==> WellFormed(r.value) && Encode(r.value) == s
  {
    if |s| < 4 then None
    else
      var h := Header(s[0], s[1], s[2], s[3]);
      assert s[..4] == HeaderBytes(h);
      if |s| == 4 then
        assert s == HeaderBytes(h);
        Some(Case1(h))
      else if |s| == 5 then
        assert s == HeaderBytes(h) + [s[4]];
        Some(Case2(h, false, Unsigned(s[4])))
      else if s[4] != 0 then DecodeStandardBody(h, s)
      else if |s| == 6 then None
      else DecodeExtendedBody(h, s)
  }

  /** Cases 3 and 4 with a one-octet Lc at offset 4. */
  function DecodeStandardBody(h: Header, s: seq<JByte>): (r: Option<Command>)
    requires |s| > 5 && s[..4] == HeaderBytes(h) && s[4] != 0
    ensures r.Some? ==> WellFormed(r.value) && Encode(r.value) == s
  {
    var n := Unsigned(s[4]);
    if |s| == 5 + n then
      assert s == HeaderBytes(h) + [s[4]] + s[5..];
      Some(Case3(h, false, s[5..]))
    else if |s| == 6 + n then
      assert s == HeaderBytes(h) + [s[4]] + s[5..5 + n] + [s[|s| - 1]];
      Some(Case4(h, false, s[5..5 + n], Unsigned(s[|s| - 1])))
    else None
  }

  /** Cases 2, 3 and 4 behind the zero marker at offset 4, with a two-octet field at offsets 5-6. */
  function DecodeExtendedBody(h: Header, s: seq<JByte>): (r: Option<Command>)
    requires |s| >= 7 && s[..4] == HeaderBytes(h) && s[4] == 0
    ensures r.Some? ==> WellFormed(r.value) && Encode(r.value) == s
  {
    var n := Word(s[5], s[6]);
    assert LengthField(n, true) == [0, s[5], s[6]];
    if |s| == 7 then
      assert s == HeaderBytes(h) + [0, s[5], s[6]];
      Some(Case2(h, true, n))
    else if n == 0 then None
    else if |s| == 7 + n then
      assert s == HeaderBytes(h) + [0, s[5], s[6]] + s[7..];
      Some(Case3(h, true, s[7..]))
    else if |s| == 9 + n then
      var le := Word(s[|s| - 2], s[|s| - 1]);
      assert TrailingLe(le, true) == [s[|s| - 2], s[|s| - 1]];
      assert s == HeaderBytes(h) + [0, s[5], s[6]] + s[7..7 + n] + [s[|s| - 2], s[|s| - 1]];
      Some(Case4(h, true, s[7..7 + n], le))
    else None
  }

  /** Decoding undoes encoding: every well-formed command is recovered from its bytes. */
  lemma {:induction false} DecodeEncode(c: Command)
    requires WellFormed(c)
    ensures Decode(Encode(c)) == Some(c)
  {
    var s := Encode(c);
    assert s[..4] == HeaderBytes(c.header);
    match c
    case Case1(h) =>
    case Case2(h, ext, le) =>
      if ext {
        assert s[4] == 0 && Word(s[5], s[6]) == le;
      }
    case Case3(h, ext, body) =>
      if ext {
        assert s[4] == 0 && Word(s[5], s[6]) == |body|;
        assert s[7..] == body;
      } else {
        assert s[5..] == body;
      }
    case Case4(h, ext, body, le) =>
      if ext {
        assert s[4] == 0 && Word(s[5], s[6]) == |body|;
        assert s[7..7 + |body|] == body;
        assert Word(s[|s| - 2], s[|s| - 1]) == le;
      } else {
        assert s[5..5 + |body|] == body;
      }
  }

  /** The extended-encoding flag of a command; Case 1 has no body to encode. */
  function IsExtended(c: Command): bool
  {
    !c.Case1? && c.extended
  }

  /** The length of the data field, 0 when there is none. */
  function LcOf(c: Command): nat
  {
    if c.Case3? || c.Case4? then |c.body| else 0
  }

  /** The raw Le value, or -1 when the command has no Le field. */
  function LeOf(c: Command): int
  {
    if c.Case2? || c.Case4? then c.le else -1
  }

  /** The command data field, empty when there is none. */
  function DataOf(c: Command): seq<JByte>
  {
    if c.Case3? || c.Case4? then c.body else []
  }
}
