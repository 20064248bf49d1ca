/**
 * The 256 x 32 byte mask table printed by generate_lut.py.  Entry `mask`
 * spreads the eight bits of `mask` over 32 bytes: byte i is 0xFF when bit
 * i mod 8 of the mask is set and 0x00 otherwise, so that a 32-lane byte
 * comparison can pick the four copies of each selected bit at once.  The
 * printed text is modelled as the sequence of output lines.
 */
module MaskLut {
  import opened Bits

  const EntryLength: nat := 32
  const MaskCount: nat := 256

  /** The entry for `mask`: the bytes the generator's bit loop leaves behind. */
  function Entry(mask: nat): (e: seq<byte>)
    ensures |e| == EntryLength
  {
    seq(EntryLength, i requires 0 <= i < EntryLength => if Bit(mask, i % 8) then 0xFF else 0x00)
  }

  /** Byte i of an entry is 0xFF exactly when bit i mod 8 of the mask is set, and 0x00 otherwise. */
  lemma EntryByte(mask: nat, i: nat)
    requires i < EntryLength
    ensures Entry(mask)[i] == 0xFF <==> Bit(mask, i % 8)
    ensures Entry(mask)[i] == 0x00 <==> !Bit(mask, i % 8)
  {
  }

  /** Every entry repeats with period 8: the four 8-byte lanes are equal. */
  lemma EntryPeriodic(mask: nat, i: nat)
    requires i + 8 < EntryLength
    ensures Entry(mask)[i] == Entry(mask)[i + 8]
  {
    assert (i + 8) % 8 == i % 8;
  }

  /** Mask 0 selects nothing and mask 255 selects every byte. */
  lemma EntryExtremes()
    ensures forall i :: 0 <= i < EntryLength ==> Entry(0)[i] == 0x00
    ensures forall i :: 0 <= i < EntryLength ==> Entry(255)[i] == 0xFF
  {
    forall i | 0 <= i < EntryLength
      ensures Entry(0)[i] == 0x00 && Entry(255)[i] == 0xFF
    {
      ZeroHasNoBit(i % 8);
      BitMask(8, i % 8);
      Pow2Values();
    }
  }

  /** The mask a run of bytes encodes: bit k is set when byte k is 0xFF. */
  function MaskOf(e: seq<byte>): (m: nat)
    ensures m < Pow2(|e|)
  {
    if |e| == 0 then 0 else (if e[0] == 0xFF then 1 else 0) + 2 * MaskOf(e[1..])
  }

  lemma {:induction false} MaskOfBits(e: seq<byte>, k: nat)
    ensures Bit(MaskOf(e), k) <==> k < |e| && e[k] == 0xFF
  {
    if |e| == 0 {
      ZeroHasNoBit(k);
    } else if k > 0 {
      BitSucc(MaskOf(e), k - 1);
      assert MaskOf(e) / 2 == MaskOf(e[1..]);
      MaskOfBits(e[1..], k - 1);
    }
  }

  /** Round trip: the first eight bytes of the entry for a byte-sized mask spell that mask. */
  lemma MaskOfEntry(mask: nat)
    requires mask < MaskCount
    ensures MaskOf(Entry(mask)[..8]) == mask
  {
    Pow2Values();
    forall k: nat ensures Bit(MaskOf(Entry(mask)[..8]), k) == Bit(mask, k) {
      MaskOfBits(Entry(mask)[..8], k);
      if k < 8 {
        EntryByte(mask, k);
      } else {
        BitAbove(mask, 8, k);
      }
    }
    BitExt(MaskOf(Entry(mask)[..8]), mask);
  }

  /** Distinct masks give distinct entries. */
  lemma EntryInjective(m1: nat, m2: nat)
    requires m1 < MaskCount && m2 < MaskCount && Entry(m1) == Entry(m2)
    ensures m1 == m2
  {
    MaskOfEntry(m1);
    MaskOfEntry(m2);
  }

  /**
   * One entry, built as the generator does: a zeroed 32-byte list, then for
   * each set bit the four bytes bit, bit + 8, bit + 16 and bit + 24 set to 0xFF.
   */
  method BuildEntry(mask: nat) returns (entry: array<byte>)
    ensures fresh(entry) && entry[..] == Entry(mask)
  {
    entry := new byte[EntryLength](_ => 0x00);
    for bit: nat := 0 to 8
      invariant entry.Length == EntryLength
      invariant forall i :: 0 <= i < EntryLength ==>
        entry[i] == if i % 8 < bit && Bit(mask, i % 8) then 0xFF else 0x00
    {
      AndPow2(mask, bit);
      if And(mask, Pow2(bit)) != 0 {
        SetLanes(entry, bit, mask);
      }
    }
  }

  /** Sets the four copies of `bit`, leaving the other bytes as they were. */
  method SetLanes(entry: array<byte>, bit: nat, mask: nat)
    requires entry.Length == EntryLength && bit < 8 && Bit(mask, bit)
    requires forall i :: 0 <= i < EntryLength ==>
      entry[i] == if i % 8 < bit && Bit(mask, i % 8) then 0xFF else 0x00
    modifies entry
    ensures forall i :: 0 <= i < EntryLength ==>
      entry[i] == if i % 8 < bit + 1 && Bit(mask, i % 8) then 0xFF else 0x00
  {
    entry[bit] := 0xFF;
    entry[bit + 8] := 0xFF;
    entry[bit + 16] := 0xFF;
    entry[bit + 24] := 0xFF;
    forall i | 0 <= i < EntryLength
      ensures i % 8 == bit <==> i == bit || i == bit + 8 || i == bit + 16 || i == bit + 24
    {
      LaneOf(i, bit);
    }
  }

  lemma LaneOf(i: nat, bit: nat)
    requires i < EntryLength && bit < 8
    ensures i % 8 == bit <==> i == bit || i == bit + 8 || i == bit + 16 || i == bit + 24
  {
  }

  /** Upper-case hexadecimal digit. */
  function HexDigit(d: nat): char
    requires d < 16
  {
    "0123456789ABCDEF"[d]
  }

  function HexValue(c: char): nat {
    if '0' <= c <= '9' then (c - '0') as nat
    else if 'A' <= c <= 'F' then (c - 'A') as nat + 10
    else 0
  }

  lemma HexDigitValue(d: nat)
    requires d < 16
    ensures HexValue(HexDigit(d)) == d
  {
  }

  /** A byte printed as `0x` and two upper-case hexadecimal digits. */
  function HexByte(b: byte): (s: string)
    ensures |s| == 4 && s[..2] == "0x"
  {
    "0x" + [HexDigit(b / 16), HexDigit(b % 16)]
  }

  /** Round trip: the two digits of `HexByte(b)` read back as b. */
  lemma HexByteValue(b: byte)
    ensures 16 * HexValue(HexByte(b)[2]) + HexValue(HexByte(b)[3]) == b
  {
    HexDigitValue(b / 16);
    HexDigitValue(b % 16);
  }

  /** The bytes of an entry printed and joined with commas. */
  function JoinHex(e: seq<byte>): string
  {
    if |e| == 0 then ""
    else if |e| == 1 then HexByte(e[0])
    else HexByte(e[0]) + "," + JoinHex(e[1..])
  }

  /** Byte i occupies the four characters at 5 i, each followed by a comma but the last. */
  lemma {:induction false} JoinHexLayout(e: seq<byte>, i: nat)
    requires 0 < |e| && i < |e|
    ensures |JoinHex(e)| == 5 * |e| - 1
    ensures JoinHex(e)[5 * i..5 * i + 4] == HexByte(e[i])
    ensures i + 1 < |e| ==> JoinHex(e)[5 * i + 4] == ','
  {
    if |e| > 1 {
      var rest := JoinHex(e[1..]);
      assert JoinHex(e) == HexByte(e[0]) + "," + rest;
      if i == 0 {
        JoinHexLayout(e[1..], 0);
      } else {
        JoinHexLayout(e[1..], i - 1);
        assert e[1..][i - 1] == e[i];
      }
    }
  }

  /** One printed table line: the entry in braces, with a trailing comma when asked. */
  function Line(e: seq<byte>, comma: bool): string
  {
    "    {" + JoinHex(e) + "}" + (if comma then "," else "")
  }

  /**
   * A line ends with a comma exactly when one was asked for, and byte i of
   * the entry is printed at column 5 + 5 i.
   */
  lemma LineLayout(e: seq<byte>, comma: bool, i: nat)
    requires 0 < |e| && i < |e|
    ensures |Line(e, comma)| == 5 * |e| + 5 + (if comma then 1 else 0)
    ensures Line(e, comma)[|Line(e, comma)| - 1] == ',' <==> comma
    ensures Line(e, comma)[5 + 5 * i..9 + 5 * i] == HexByte(e[i])
  {
    JoinHexLayout(e, i);
    var j := JoinHex(e);
    assert Line(e, comma)[5 + 5 * i..9 + 5 * i] == j[5 * i..5 * i + 4];
  }

  const Header: seq<string> := [
    "// Auto-generated 32-byte LUT",
    "__attribute__((aligned(16), section(\"__TEXT_CONST,constant_mask\")))",
    "static const uint8_t mask32_lut[256][32] = {"
  ]

  const Footer: string := "};"

  /**
   * The generator: the three header lines, one line per mask in increasing
   * order (each with a comma except the one for mask 255), then the closing line.
   */
  method GenerateLut() returns (out: seq<string>)
    ensures |out| == |Header| + MaskCount + 1
    ensures out[..|Header|] == Header && out[|out| - 1] == Footer
    ensures forall mask :: 0 <= mask < MaskCount ==>
      out[|Header| + mask] == Line(Entry(mask), mask < MaskCount - 1)
  {
    var lines: seq<string> := [];
    for mask: nat := 0 to MaskCount
      invariant |lines| == mask
      invariant forall m :: 0 <= m < mask ==> lines[m] == Line(Entry(m), m < MaskCount - 1)
    {
      var entry := BuildEntry(mask);
      var line := Line(entry[..], mask < MaskCount - 1);
      lines := lines + [line];
    }
    out := Header + lines + [Footer];
  }

  /**
   * Read off the printed table: line 3 + mask holds the 32 bytes of the
   * entry for mask, and only the line for mask 255 lacks the trailing comma.
   */
  lemma TableLines(out: seq<string>, mask: nat, i: nat)
    requires |out| == |Header| + MaskCount + 1
    requires forall m :: 0 <= m < MaskCount ==> out[|Header| + m] == Line(Entry(m), m < MaskCount - 1)
    requires mask < MaskCount && i < EntryLength
    ensures |out[|Header| + mask]| == 5 * EntryLength + 5 + (if mask < MaskCount - 1 then 1 else 0)
    ensures out[|Header| + mask][5 + 5 * i..9 + 5 * i] == HexByte(if Bit(mask, i % 8) then 0xFF else 0x00)
    ensures out[|Header| + mask][|out[|Header| + mask]| - 1] == ',' <==> mask != MaskCount - 1
  {
    LineLayout(Entry(mask), mask < MaskCount - 1, i);
  }
}
