/**
 * The two flag bytes of an ID3v2.4 frame header (section 4.1 of the ID3v2.4.0
 * main structure document): the status flags (`ID3v24Frame.StatusFlags`) and
 * the format flags (`ID3v24Frame.EncodingFlags`). Bits are numbered from 0,
 * the least significant.
 */
module Id3v24Flags {
  import opened Bytes

  function Mask(k: nat): bv8
    requires k < 8
  {
    1 << k
  }

  /** Whether bit k of a flag byte is set. */
  predicate HasBit(f: byte, k: nat)
    requires k < 8
  {
    Bits(f) & Mask(k) != 0
  }

  /** `flags |= mask`. */
  function WithBit(f: byte, k: nat): byte
    requires k < 8
  {
    FromBits(Bits(f) | Mask(k))
  }

  /** `flags &= (byte) ~mask`. */
  function WithoutBit(f: byte, k: nat): byte
    requires k < 8
  {
    FromBits(Bits(f) & !Mask(k))
  }

  /** Setting a bit sets it and leaves every other bit as it was. */
  lemma {:induction false} WithBitOnly(f: byte, k: nat, j: nat)
    requires k < 8 && j < 8
    ensures HasBit(WithBit(f, k), j) <==> j == k || HasBit(f, j)
  {
    ByteOfBits(Bits(f) | Mask(k));
  }

  /** Clearing a bit clears it and leaves every other bit as it was. */
  lemma {:induction false} WithoutBitOnly(f: byte, k: nat, j: nat)
    requires k < 8 && j < 8
    ensures HasBit(WithoutBit(f, k), j) <==> j != k && HasBit(f, j)
  {
    ByteOfBits(Bits(f) & !Mask(k));
  }

  // Status flags.

  const TAG_ALTER_PRESERVATION: nat := 6
  const FILE_ALTER_PRESERVATION: nat := 5
  const READ_ONLY: nat := 4

  /** The v2.3 status flag bits (section 3.3.1 of the ID3v2.3.0 standard). */
  const V23_TAG_ALTER_PRESERVATION: nat := 7
  const V23_FILE_ALTER_PRESERVATION: nat := 6

  /**
   * `modifyFlags`: a frame to discard when the audio changes gets file-alter
   * preservation set and tag-alter preservation cleared; any other frame gets
   * both cleared.
   */
  function ModifiedWriteFlags(w: byte, discardIfFileAltered: bool): byte
  {
    if discardIfFileAltered then WithoutBit(WithBit(w, FILE_ALTER_PRESERVATION), TAG_ALTER_PRESERVATION)
    else WithoutBit(WithoutBit(w, FILE_ALTER_PRESERVATION), TAG_ALTER_PRESERVATION)
  }

  lemma {:induction false} ModifiedWriteFlagsBits(w: byte, discard: bool, j: nat)
    requires j < 8
    ensures HasBit(ModifiedWriteFlags(w, discard), FILE_ALTER_PRESERVATION) <==> discard
    ensures !HasBit(ModifiedWriteFlags(w, discard), TAG_ALTER_PRESERVATION)
    ensures j != FILE_ALTER_PRESERVATION && j != TAG_ALTER_PRESERVATION ==>
              (HasBit(ModifiedWriteFlags(w, discard), j) <==> HasBit(w, j))
  {
    if discard {
      var a := WithBit(w, FILE_ALTER_PRESERVATION);
      WithoutBitOnly(a, TAG_ALTER_PRESERVATION, FILE_ALTER_PRESERVATION);
      WithoutBitOnly(a, TAG_ALTER_PRESERVATION, TAG_ALTER_PRESERVATION);
      WithoutBitOnly(a, TAG_ALTER_PRESERVATION, j);
      WithBitOnly(w, FILE_ALTER_PRESERVATION, FILE_ALTER_PRESERVATION);
      WithBitOnly(w, FILE_ALTER_PRESERVATION, j);
    } else {
      var a := WithoutBit(w, FILE_ALTER_PRESERVATION);
      WithoutBitOnly(a, TAG_ALTER_PRESERVATION, FILE_ALTER_PRESERVATION);
      WithoutBitOnly(a, TAG_ALTER_PRESERVATION, TAG_ALTER_PRESERVATION);
      WithoutBitOnly(a, TAG_ALTER_PRESERVATION, j);
      WithoutBitOnly(w, FILE_ALTER_PRESERVATION, FILE_ALTER_PRESERVATION);
      WithoutBitOnly(w, FILE_ALTER_PRESERVATION, j);
    }
  }

  /** `convertV3ToV4Flags`: the two preservation bits move to their v2.4 places; nothing else is kept. */
  function ConvertV3ToV4Flags(v3: byte): byte
  {
    var a := if HasBit(v3, V23_FILE_ALTER_PRESERVATION) then WithBit(0, FILE_ALTER_PRESERVATION) else 0;
    if HasBit(v3, V23_TAG_ALTER_PRESERVATION) then WithBit(a, TAG_ALTER_PRESERVATION) else a
  }

  lemma {:induction false} ConvertV3ToV4FlagsBits(v3: byte, j: nat)
    requires j < 8
    ensures HasBit(ConvertV3ToV4Flags(v3), j) <==>
              (j == FILE_ALTER_PRESERVATION && HasBit(v3, V23_FILE_ALTER_PRESERVATION)) ||
              (j == TAG_ALTER_PRESERVATION && HasBit(v3, V23_TAG_ALTER_PRESERVATION))
  {
    var a := if HasBit(v3, V23_FILE_ALTER_PRESERVATION) then WithBit(0, FILE_ALTER_PRESERVATION) else 0;
    assert !HasBit(0, j);
    WithBitOnly(0, FILE_ALTER_PRESERVATION, j);
    WithBitOnly(a, TAG_ALTER_PRESERVATION, j);
  }

  /** The status flags of a frame: as read, and as they will be written. */
  class StatusFlags {
    var originalFlags: byte
    var writeFlags: byte

    /** For a frame made from scratch: no flag set. */
    constructor Empty()
      ensures originalFlags == 0 && writeFlags == 0
    {
      originalFlags := 0;
      writeFlags := 0;
    }

    /** `StatusFlags(byte)`: the flags read from a v2.4 header, write flags adjusted by `modifyFlags`. */
    constructor FromByte(flags: byte, discardIfFileAltered: bool)
      ensures originalFlags == flags
      ensures writeFlags == ModifiedWriteFlags(flags, discardIfFileAltered)
    {
      originalFlags := flags;
      writeFlags := flags;
      new;
      ModifyFlags(discardIfFileAltered);
    }

    /** `StatusFlags(ID3v23Frame.StatusFlags)`: the converted v2.3 flags, write flags adjusted by `modifyFlags`. */
    constructor FromV23(v3Flags: byte, discardIfFileAltered: bool)
      ensures originalFlags == ConvertV3ToV4Flags(v3Flags)
      ensures writeFlags == ModifiedWriteFlags(ConvertV3ToV4Flags(v3Flags), discardIfFileAltered)
    {
      originalFlags := ConvertV3ToV4Flags(v3Flags);
      writeFlags := originalFlags;
      new;
      ModifyFlags(discardIfFileAltered);
    }

    method ModifyFlags(discardIfFileAltered: bool)
      modifies this
      ensures originalFlags == old(originalFlags)
      ensures writeFlags == ModifiedWriteFlags(old(writeFlags), discardIfFileAltered)
    {
      if discardIfFileAltered {
        writeFlags := WithBit(writeFlags, FILE_ALTER_PRESERVATION);
        writeFlags := WithoutBit(writeFlags, TAG_ALTER_PRESERVATION);
      } else {
        writeFlags := WithoutBit(writeFlags, FILE_ALTER_PRESERVATION);
        writeFlags := WithoutBit(writeFlags, TAG_ALTER_PRESERVATION);
      }
    }
  }

  // Format (encoding) flags.

  const GROUPING_IDENTITY: nat := 6
  const COMPRESSION: nat := 3
  const ENCRYPTION: nat := 2
  const FRAME_UNSYNCHRONIZATION: nat := 1
  const DATA_LENGTH_INDICATOR: nat := 0

  /** Bits 7, 5 and 4 have no meaning in a v2.4 format flag byte. */
  predicate IsNonStandard(f: byte)
  {
    HasBit(f, 7) || HasBit(f, 5) || HasBit(f, 4)
  }

  /** `unsetNonStandardFlags`: bits 7, 5 and 4 cleared when any of them is set. */
  function WithoutNonStandard(f: byte): byte
  {
    if IsNonStandard(f) then WithoutBit(WithoutBit(WithoutBit(f, 7), 5), 4) else f
  }

  /** Clearing the non-standard flags clears exactly bits 7, 5 and 4. */
  lemma {:induction false} WithoutNonStandardBits(f: byte, j: nat)
    requires j < 8
    ensures HasBit(WithoutNonStandard(f), j) <==> j != 7 && j != 5 && j != 4 && HasBit(f, j)
  {
    if IsNonStandard(f) {
      var a := WithoutBit(f, 7);
      var b := WithoutBit(a, 5);
      WithoutBitOnly(f, 7, j);
      WithoutBitOnly(a, 5, j);
      WithoutBitOnly(b, 4, j);
    }
  }

  /** The format flags of a frame. */
  class EncodingFlags {
    var flags: byte

    constructor Empty()
      ensures flags == 0
    {
      flags := 0;
    }

    constructor FromByte(f: byte)
      ensures flags == f
    {
      flags := f;
    }

    predicate IsCompression() reads this { HasBit(flags, COMPRESSION) }
    predicate IsEncryption() reads this { HasBit(flags, ENCRYPTION) }
    predicate IsGrouping() reads this { HasBit(flags, GROUPING_IDENTITY) }
    predicate IsUnsynchronised() reads this { HasBit(flags, FRAME_UNSYNCHRONIZATION) }
    predicate IsDataLengthIndicator() reads this { HasBit(flags, DATA_LENGTH_INDICATOR) }
    predicate IsNonStandardFlags() reads this { IsNonStandard(flags) }

    method SetCompression()
      modifies this
      ensures flags == WithBit(old(flags), COMPRESSION)
    {
      flags := WithBit(flags, COMPRESSION);
    }

    method SetEncryption()
      modifies this
      ensures flags == WithBit(old(flags), ENCRYPTION)
    {
      flags := WithBit(flags, ENCRYPTION);
    }

    method SetGrouping()
      modifies this
      ensures flags == WithBit(old(flags), GROUPING_IDENTITY)
    {
      flags := WithBit(flags, GROUPING_IDENTITY);
    }

    method SetUnsynchronised()
      modifies this
      ensures flags == WithBit(old(flags), FRAME_UNSYNCHRONIZATION)
    {
      flags := WithBit(flags, FRAME_UNSYNCHRONIZATION);
    }

    method SetDataLengthIndicator()
      modifies this
      ensures flags == WithBit(old(flags), DATA_LENGTH_INDICATOR)
    {
      flags := WithBit(flags, DATA_LENGTH_INDICATOR);
    }

    method UnsetCompression()
      modifies this
      ensures flags == WithoutBit(old(flags), COMPRESSION)
    {
      flags := WithoutBit(flags, COMPRESSION);
    }

    method UnsetEncryption()
      modifies this
      ensures flags == WithoutBit(old(flags), ENCRYPTION)
    {
      flags := WithoutBit(flags, ENCRYPTION);
    }

    method UnsetGrouping()
      modifies this
      ensures flags == WithoutBit(old(flags), GROUPING_IDENTITY)
    {
      flags := WithoutBit(flags, GROUPING_IDENTITY);
    }

    method UnsetUnsynchronised()
      modifies this
      ensures flags == WithoutBit(old(flags), FRAME_UNSYNCHRONIZATION)
    {
      flags := WithoutBit(flags, FRAME_UNSYNCHRONIZATION);
    }

    method UnsetDataLengthIndicator()
      modifies this
      ensures flags == WithoutBit(old(flags), DATA_LENGTH_INDICATOR)
    {
      flags := WithoutBit(flags, DATA_LENGTH_INDICATOR);
    }

    method UnsetNonStandardFlags()
      modifies this
      ensures flags == WithoutNonStandard(old(flags))
    {
      if IsNonStandardFlags() {
        flags := WithoutBit(flags, 7);
        flags := WithoutBit(flags, 5);
        flags := WithoutBit(flags, 4);
      }
    }
  }
}
