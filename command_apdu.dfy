/**
 * The class ch.fhnw.imvs.smartcard.CommandAPDU: an immutable Command APDU
 * over the raw bytes it was built from, with a validity check and field
 * accessors. Every accessor recomputes its answer from the bytes with Java's
 * signed `byte` arithmetic, exactly as the source does; where the source would
 * throw (an index past the end, a negative array size) the member requires
 * what keeps it in bounds instead.
 */
module Smartcard {
  import opened JavaInt

  /**
   * Models System.arraycopy from `src[srcPos..]` into `dest[destPos..]`; the
   * requires are the bounds under which the JVM does not throw.
   */
  method ArrayCopy(src: seq<JByte>, srcPos: nat, dest: array<JByte>, destPos: nat, length: nat)
    requires srcPos + length <= |src| && destPos + length <= dest.Length
    modifies dest
    ensures dest[..] == old(dest[..destPos]) + src[srcPos..srcPos + length] + old(dest[destPos + length..])
  {
    forall i | 0 <= i < length {
      dest[destPos + i] := src[srcPos + i];
    }
  }

  class CommandAPDU {
    /**
     * The bytes of the APDU. The source keeps them in a private final array
     * that no member writes or hands out after construction, so they are an
     * immutable sequence here.
     */
    const data: seq<JByte>

    /** Copies the caller's array in; `null` gives the empty APDU. */
    constructor (src: array?<JByte>)
      ensures data == if src == null then [] else src[..]
    {
      if src != null {
        var copy := new JByte[src.Length];
        ArrayCopy(src[..], 0, copy, 0, src.Length);
        data := copy[..];
      } else {
        data := [];
      }
    }

    /**
     * The structural check of the four cases. A six-byte array whose byte 4
     * is zero makes the source read `data[6]`, past the end, so that input is
     * excluded. Because byte 4 is signed, a standard Lc of 0x80 or more never
     * validates, which bounds every valid standard APDU at 133 bytes; the
     * extended length read through JavaWord bounds extended ones likewise.
     */
    function IsValidAPDU(): (valid: bool)
      requires |data| == 6 ==> data[4] != 0
      ensures |data| < 4 ==> !valid
      ensures |data| == 4 || |data| == 5 ==> valid
      ensures valid && |data| > 5 && data[4] != 0 ==> 0 < data[4] && |data| <= 133
      ensures valid && |data| > 7 && data[4] == 0 ==> |data| <= 9 + 127 * 256 + 127
    {
      if |data| < 4 then false
      else if |data| == 4 then true
      else if |data| == 5 then true
      else if |data| == 7 && data[4] == 0 then true
      else if data[4] == 0 then
        if |data| == 7 + JavaWord(data[5], data[6]) then true
        else if |data| == 7 + JavaWord(data[5], data[6]) + 2 then true
        else false
      else
        if |data| == 5 + data[4] as int then true
        else if |data| == 5 + data[4] as int + 1 then true
        else false
    }

    /** The source's extended-format test; it looks at byte 5, not at the marker byte 4. */
    function IsExtendedAPDU(): bool
    {
      |data| >= 7 && data[5] == 0
    }

    function HasData(): bool
      requires |data| >= 4
    {
      GetLc() != 0
    }

    function GetCla(): JByte
      requires |data| >= 1
    {
      data[0]
    }

    function GetIns(): JByte
      requires |data| >= 2
    {
      data[1]
    }

    function GetP1(): JByte
      requires |data| >= 3
    {
      data[2]
    }

    function GetP2(): JByte
      requires |data| >= 4
    {
      data[3]
    }

    /** The raw Le value, -1 when the APDU has no Le field; 0 is not remapped. */
    function GetLe(): int
      requires |data| >= 4
    {
      if |data| == 4 then -1
      else if !IsExtendedAPDU() && |data| == 5 then data[4]
      else if IsExtendedAPDU() && |data| == 7 then JavaWord(data[5], data[6])
      else if |data| == 4 + (if IsExtendedAPDU() then 3 else 1) + GetLc() then -1
      else if IsExtendedAPDU() then JavaWord(data[|data| - 2], data[|data| - 1])
      else data[|data| - 1]
    }

    /** The Lc value, 0 when the APDU has no data field. */
    function GetLc(): int
      requires |data| >= 4
    {
      if |data| == 4 then 0
      else if !IsExtendedAPDU() && |data| == 5 then 0
      else if IsExtendedAPDU() && |data| == 7 then 0
      else if IsExtendedAPDU() then JavaWord(data[5], data[6])
      else data[4]
    }

    /** Where getArgumentData starts copying: after the three-byte or the one-byte Lc. */
    function ArgumentOffset(): nat
    {
      if IsExtendedAPDU() then 7 else 5
    }

    /**
     * The bytes that getArgumentData returns. The requires are the bounds
     * under which the source neither allocates a negative-length array nor
     * copies past the end of `data`.
     */
    function ArgumentBytes(): seq<JByte>
      requires |data| >= 4 && GetLc() >= 0
      requires GetLc() > 0 ==> ArgumentOffset() + GetLc() <= |data|
    {
      if GetLc() == 0 then [] else data[ArgumentOffset()..ArgumentOffset() + GetLc()]
    }

    /** A fresh array holding the argument data; its length is GetLc(). */
    method GetArgumentData() returns (r: array<JByte>)
      requires |data| >= 4 && GetLc() >= 0
      requires GetLc() > 0 ==> ArgumentOffset() + GetLc() <= |data|
      ensures fresh(r)
      ensures r.Length == GetLc() && r[..] == ArgumentBytes()
    {
      if GetLc() == 0 {
        r := new JByte[0];
      } else if IsExtendedAPDU() {
        r := new JByte[GetLc()];
        ArrayCopy(data, 7, r, 0, GetLc());
      } else {
        r := new JByte[GetLc()];
        ArrayCopy(data, 5, r, 0, GetLc());
      }
    }

    /** A fresh copy of the bytes; writing to it cannot reach this APDU. */
    method GetRaw() returns (r: array<JByte>)
      ensures fresh(r)
      ensures r[..] == data
    {
      r := new JByte[|data|];
      ArrayCopy(data, 0, r, 0, |data|);
    }
  }

  /**
   * The copy-in/copy-out discipline: after the caller overwrites the array the
   * APDU was built from, and after it overwrites the array getRaw handed out,
   * a second getRaw still yields the bytes the caller passed in.
   */
  method CopyIsolation(b: array?<JByte>, x: JByte) returns (first: array<JByte>, second: array<JByte>)
    modifies b
    ensures second[..] == if b == null then [] else old(b[..])
  {
    var apdu := new CommandAPDU(b);
    if b != null && b.Length > 0 {
      b[0] := x;
    }
    first := apdu.GetRaw();
    if first.Length > 0 {
      first[0] := x;
    }
    second := apdu.GetRaw();
  }
}
