/**
 * What the MP4 readers need of `Mp4BoxHeader`: a box (section 4.2 of
 * ISO/IEC 14496-12) starts with a 32-bit size that counts the whole box and
 * a four-character type; the data after this eight-byte header is the size
 * less the header.
 */
module Mp4BoxHeader {
  import opened Bytes

  /** `Mp4BoxHeader.HEADER_LENGTH`: the size field and the type. */
  const HEADER_LENGTH: nat := 8

  /** The identifier and the `int` length of a box header as read. */
  datatype BoxHeader = BoxHeader(id: string, length: Int32)
  {
    /** `getDataLength`: the bytes of the box after its header, in `int` arithmetic. */
    function DataLength(): Int32
    {
      ToInt32(length - HEADER_LENGTH)
    }
  }
}
