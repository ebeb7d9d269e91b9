# CommandAPDU in Dafny

This project models `ch.fhnw.imvs.smartcard.CommandAPDU`, an immutable Java value
type. It wraps the raw bytes of an ISO/IEC 7816-4 Command APDU and provides:

- a structural validity check over the four command cases;
- a standard/extended length-encoding flag;
- accessors for the header bytes (CLA, INS, P1, P2), Lc, Le and the command data;
- defensive copies of the bytes on the way in and on the way out.

The model follows the Java code, not the idealised standard:

- Bytes are Java's signed `byte`.
- The 16-bit length reads are Java's sign-extending `(hi << 8) | lo`.
- `isExtendedAPDU` tests byte 5, exactly as the source does.

The model then measures that code against an independent rendering of the
ISO/IEC 7816-4 layout from section 5.1 of that standard (command-response pairs).

Modules, one per file:

- `JavaInt` (`java_int.dfy`): the Java `byte` type `JByte` (-128..127) and `JavaWord`, the value of
  `(hi << 8) | lo`. `ShiftOrIsJavaWord` proves `JavaWord` equal to the JVM's 32-bit
  sign-extend, shift and or, for every pair of bytes.
- `Smartcard` (`command_apdu.dfy`): the class `CommandAPDU`.
  - Its private final byte array is never written after construction and never handed out, so it is the
    immutable field `data: seq<JByte>`.
  - `isValidAPDU`, `isExtendedAPDU`, `hasData`, the header getters, `getLc` and `getLe` are functions over
    `data`, branch for branch as in the source.
  - The constructor, `getRaw` and `getArgumentData` allocate a fresh array and fill it through `ArrayCopy`,
    the model of `System.arraycopy`.
- `Iso7816` (`iso7816.dfy`): the reference layout.
  - A `Command` datatype covers Cases 1-4, each standard or extended, with raw Lc/Le values.
  - `Encode` gives its byte layout.
  - `Decode` classifies bytes with unsigned octet reads and the extended marker at offset 4. Both
    directions of the round trip are proved.
- `Conformance` (`conformance.dfy`): the exact relation between the Java code and the reference.
  - `isValidAPDU` accepts exactly the ISO encodings whose Lc survives Java's signed reads, plus two
    layouts ISO rejects.
  - Each accessor returns the encoded command's own field under conditions stated per accessor. The
    byte at offset 5 must mark the encoding, and the length bytes must not have their sign bit set.
- `Findings` (`findings.dfy`): one concrete APDU per departure of the code from the layout its own class
  comment describes (see "## Findings").

Where the source would throw, the member has a `requires` that keeps it from throwing:

- `ArrayIndexOutOfBoundsException` from an index past the end, in `isValidAPDU` on six bytes whose byte 4
  is zero, and in the accessors on short arrays;
- `NegativeArraySizeException` and the out-of-range copy in `getArgumentData`.

The class comment declares the behaviour on invalid APDUs unspecified, including exceptions.

Where the code differs from a plain reading of the standard or of its own comments, the model follows the code:

- Bytes are signed, not unsigned octets.
- `isValidAPDU` can throw (six bytes, byte 4 zero) instead of always answering.
- `getLe` returns -1 when there is no Le and never remaps an explicit 0.
- `getArgumentData` need not return `getLc()` bytes for every valid APDU: it can throw on valid input, as
  `Findings.StandardDataStartingWithZeroMisread` and `Findings.MinusOneLcAccepted` show.

## Model

| member | source | states |
|---|---|---|
| `JavaInt.ShiftOrIsJavaWord` | ch/fhnw/imvs/smartcard/CommandAPDU.java:142 | for every pair of bytes, sign-extending both to 32 bits, shifting the high one left by 8 and or-ing them gives JavaWord(hi, lo): the low byte alone when it is negative, hi * 256 + lo otherwise |
| `JavaInt.JavaWordUnsignedRange` | ch/fhnw/imvs/smartcard/CommandAPDU.java:277 | the 16-bit length that the source reads equals the big-endian unsigned value of the two octets if and only if neither octet has its sign bit set |
| `Smartcard.ArrayCopy` | ch/fhnw/imvs/smartcard/CommandAPDU.java:106 | System.arraycopy: the destination afterwards is its old prefix, the copied source range and its old suffix; the requires are the bounds under which it does not throw |
| `Smartcard.CommandAPDU.constructor` | ch/fhnw/imvs/smartcard/CommandAPDU.java:103-110 | the stored bytes are a copy of the argument's contents, and the empty sequence for null |
| `Smartcard.CommandAPDU.IsValidAPDU` | ch/fhnw/imvs/smartcard/CommandAPDU.java:120-168 | false below 4 bytes; true for 4 and 5 bytes whatever they hold; a valid standard body has a positive signed Lc byte and at most 133 bytes in all; a valid extended APDU is at most 9 + 32639 bytes; it requires that 6 bytes do not have byte 4 zero, the one input on which the source reads past the end |
| `Smartcard.CommandAPDU.GetArgumentData` | ch/fhnw/imvs/smartcard/CommandAPDU.java:292-309 | returns a fresh array of length getLc() holding data[off .. off + getLc()] (off 7 when isExtendedAPDU, else 5), empty when getLc() is 0; requires getLc() >= 0 and the slice in bounds |
| `Smartcard.CommandAPDU.GetRaw` | ch/fhnw/imvs/smartcard/CommandAPDU.java:326-330 | returns a fresh array equal to the stored bytes |
| `Smartcard.CopyIsolation` | ch/fhnw/imvs/smartcard/CommandAPDU.java:103-110 | after the caller overwrites the array it built the APDU from and the array getRaw returned, a second getRaw still returns the original argument bytes (the empty sequence for null) |
| `Iso7816.Decode` | ch/fhnw/imvs/smartcard/CommandAPDU.java:67-86 | the four cases as the class comment lays them out, with unsigned length octets and the extended marker at offset 4; every command it returns is well formed and re-encodes to the input |
| `Iso7816.DecodeEncode` | ch/fhnw/imvs/smartcard/CommandAPDU.java:67-79 | every well-formed command of any case and either encoding is recovered by Decode from its encoding |
| `Conformance.ValidIffDecodable` | ch/fhnw/imvs/smartcard/CommandAPDU.java:120-168 | isValidAPDU holds if and only if the bytes decode as an ISO command whose Lc fits Java's signed reads, or they are the 9-byte extended layout with Lc 0, or the 8-byte extended layout whose Lc low octet is 0xFF |
| `Conformance.StandardValidIff` | ch/fhnw/imvs/smartcard/CommandAPDU.java:153-164 | with a non-zero byte 4 and at least 6 bytes: valid if and only if ISO Case 3 or 4 standard with Lc below 0x80 |
| `Conformance.ExtendedValidIff` | ch/fhnw/imvs/smartcard/CommandAPDU.java:139-151 | with byte 4 zero and at least 8 bytes: valid if and only if ISO Case 3 or 4 extended with both Lc octets below 0x80, or one of the two quirk layouts |
| `Conformance.EncodedIsValid` | ch/fhnw/imvs/smartcard/CommandAPDU.java:113-118 | the encoding of every well-formed command whose Lc fits Java's signed reads can be checked without a read past the end and is valid |
| `Conformance.HeaderAgrees` | ch/fhnw/imvs/smartcard/CommandAPDU.java:185-216 | on an encoded command getCla, getIns, getP1 and getP2 return the command's header bytes |
| `Conformance.ExtendedFlagAgrees` | ch/fhnw/imvs/smartcard/CommandAPDU.java:317-319 | on an encoded command isExtendedAPDU names its encoding if and only if byte 5 marks it: an extended length field below 256, and no standard data field beginning with 0 that reaches offset 5 |
| `Conformance.LcAgrees` | ch/fhnw/imvs/smartcard/CommandAPDU.java:262-283 | when byte 5 marks the encoding and Lc fits the signed reads, getLc returns the data length, 0 for Cases 1 and 2 |
| `Conformance.HasDataAgrees` | ch/fhnw/imvs/smartcard/CommandAPDU.java:176-178 | under the same conditions hasData holds exactly for Cases 3 and 4 |
| `Conformance.LeAgrees` | ch/fhnw/imvs/smartcard/CommandAPDU.java:229-254 | when in addition Le fits the signed reads, getLe returns the raw Le field (0 stays 0) and -1 for Cases 1 and 3 |
| `Conformance.ArgumentDataAgrees` | ch/fhnw/imvs/smartcard/CommandAPDU.java:292-309 | under the conditions of LcAgrees getArgumentData's requires hold and the bytes it returns are the command's data field, empty for Cases 1 and 2 |
| `Findings.ExtendedLcOver255Misread` | ch/fhnw/imvs/smartcard/CommandAPDU.java:317-319 | an extended Case 3 APDU with Lc 256 is valid, yet isExtendedAPDU is false, getLc 0, hasData false and getLe 7 |
| `Findings.StandardDataStartingWithZeroMisread` | ch/fhnw/imvs/smartcard/CommandAPDU.java:317-319 | a valid standard Case 3 APDU with data 00 64 01 is taken as extended, getLc is 100 and the argument copy would run past the end |
| `Findings.StandardLcAbove127Rejected` | ch/fhnw/imvs/smartcard/CommandAPDU.java:155-159 | a standard Case 3 APDU with Lc 0x80 and 128 data bytes decodes under ISO but is not valid |
| `Findings.ExtendedLcLowOctetAbove127Rejected` | ch/fhnw/imvs/smartcard/CommandAPDU.java:142-146 | an extended Case 3 APDU with Lc 0x0080 decodes under ISO but is not valid |
| `Findings.LeOfFFReadsAsAbsent` | ch/fhnw/imvs/smartcard/CommandAPDU.java:236 | a standard Case 2 APDU with Le 0xFF is valid and getLe returns -1, the absent marker, not 255 |
| `Findings.MinusOneLcAccepted` | ch/fhnw/imvs/smartcard/CommandAPDU.java:146 | the 8 bytes header + 00 00 FF 00 decode as no ISO command yet are valid, with getLc -1 |
| `Findings.ZeroLcExtendedAccepted` | ch/fhnw/imvs/smartcard/CommandAPDU.java:146 | the 9 bytes header + 00 00 00 00 05 decode as no ISO command yet are valid, with getLc 0 and getLe 5 |

## Left out

- Java exceptions are not modelled as outcomes. Each throwing input is excluded by a `requires` on the member.
- The interpretation of an explicit Le of 0 as 256 or 65536. The source leaves it to the caller and `getLe` never applies it.
- The class comment's "default 0" for an absent Le. It contradicts `getLe`, which returns -1; the model follows `getLe`.
- Object identity, `equals`/`hashCode` and garbage collection: the class does not define them.
- Aliasing of the private array: it is a value here. The copy-in and copy-out that keep it unaliased are modelled as fresh arrays.
- Idempotence of the accessors: they are functions of an immutable field, so it holds by construction and needs no lemma.

## Findings

| source | as written | input that shows it | evidently intended | confidence | as-written member | corrected member |
|---|---|---|---|---|---|---|
| ch/fhnw/imvs/smartcard/CommandAPDU.java:317-319 | isExtendedAPDU tests byte 5, the high octet of an extended Lc, for zero | header + 00 01 00 + 256 data bytes: valid, but getLc() is 0 and getLe() is the last data byte | the extended flag is the zero marker at byte 4 (length at least 7) | high, not executed | `Findings.ExtendedLcOver255Misread` | `Iso7816.Decode` |
| ch/fhnw/imvs/smartcard/CommandAPDU.java:317-319 | the same test fires on a standard APDU whose first data byte is 0 | header + 03 00 64 01: valid, but getLc() is 100 and getArgumentData copies past the end | standard APDUs are never read as extended | high, not executed | `Findings.StandardDataStartingWithZeroMisread` | `Iso7816.Decode` |
| ch/fhnw/imvs/smartcard/CommandAPDU.java:155-159 | the standard Lc is the signed byte 4 | header + 80 + 128 data bytes: not valid | Lc is the unsigned octet, 1..255 | high, not executed | `Findings.StandardLcAbove127Rejected` | `Iso7816.Decode` |
| ch/fhnw/imvs/smartcard/CommandAPDU.java:142-146 | the extended Lc is data[5] shifted left by 8 and or-ed with data[6], both sign-extended | header + 00 00 80 + 128 data bytes: not valid | Lc is the unsigned big-endian value of the two octets | high, not executed | `Findings.ExtendedLcLowOctetAbove127Rejected` | `Iso7816.Decode` |
| ch/fhnw/imvs/smartcard/CommandAPDU.java:236 | getLe returns the signed byte 4 | header + FF: getLe() is -1, the value meaning "no Le" | Le is the unsigned octet 255 | high, not executed | `Findings.LeOfFFReadsAsAbsent` | `Iso7816.Decode` |
| ch/fhnw/imvs/smartcard/CommandAPDU.java:146 | a sign-extended Lc of -1 makes 7 + Lc + 2 equal 8 | header + 00 00 FF 00: valid, getLc() is -1, getArgumentData throws | rejected: no command has this layout | high, not executed | `Findings.MinusOneLcAccepted` | `Iso7816.Decode` |
| ch/fhnw/imvs/smartcard/CommandAPDU.java:146 | an extended Lc of 0 followed by a 2-byte Le is accepted | header + 00 00 00 00 05: valid | rejected: an Lc field encodes 1..65535 | medium, not executed | `Findings.ZeroLcExtendedAccepted` | `Iso7816.Decode` |
