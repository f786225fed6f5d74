# ealvatag core: ID3v2.4 frames, the ID3v2.3 tag, the MP4 `stco` box and MP4 cover art

This is a Dafny model of four parts of the ealvatag audio-tagging library, with proofs about them.

- **`ID3v24Frame`.** It reads one ID3v2.4 frame from a `java.nio.ByteBuffer` or from an okio `Buffer`:
  - the identifier, checked against `[A-Z][0-9A-Z]{3}`;
  - the syncsafe frame size, with its heuristic for sizes that were written as plain integers;
  - the status and format flag bytes;
  - the optional grouping, encryption and data-length bytes;
  - the body.

  It also writes a frame back. It converts a v2.3 frame into a v2.4 one, and it keeps the two flag objects (`StatusFlags`, `EncodingFlags`) and their bit operations.
- **`ID3v23Tag`.** This is an ID3v2.3 tag as a container of frames:
  - the tag header flags and the 6- or 10-byte extended header;
  - the two frame-scanning loops and their continue/stop policy for each kind of error;
  - the frame map rules: TYER/TDAT aggregation, duplicate and IPLS merging, and the conversion of v2.4 frames (TDRC split, TIPL/TMCL folded into IPLS);
  - the YEAR field's frames;
  - the tag header written back, and the tag size.
- **`Mp4StcoBox`.** This is the MP4 chunk offset box (section 8.7.5 of ISO/IEC 14496-12). It is read from a buffer or from a stream, and `adjustOffsets` rewrites every 32-bit big-endian offset in place in the shared byte array.
- **`Mp4TagCoverField`.** This is one cover-art image of an MP4 `covr` item, classified as JPEG or PNG either by its class id or by its first byte. `build` copies the image out of the data atom and takes a following `name` atom into its sizes.

Where the library changes state, the model does too:
- buffer cursors are the classes `Buffers.ByteBuffer` and `Buffers.Source`;
- the frame, tag, box and field are classes whose methods change their fields;
- offsets are rewritten in an `array`, and the image is copied into one.

Each such method is proved against a function on the old state. The properties are then proved about those functions:
- round trips: write then read, syncsafe encoding, unsynchronisation, `putInt`/`getInt`, `toString`;
- the exact conditions of each error;
- what each loop leaves unchanged;
- the bit-level effect of every flag operation.

The modules are:

| module | file | models |
|---|---|---|
| `Bytes` | bytes.dfy | bytes, Java `int` narrowing, big-endian `getInt`/`putInt` |
| `Id3Codecs` | id3_codecs.dfy | syncsafe integers (section 6.2 of the ID3v2.4.0 main structure document), unsynchronisation (section 6.1) |
| `Buffers` | buffers.dfy | `ByteBuffer` (position, limit, relative and absolute access, `slice`) and the okio `Buffer` (a sequence consumed from the front) |
| `Id3Frames` | id3_frames.dfy | identifiers, frame bodies, frames as values, frame exceptions, `ID3v23Frames` constant sets |
| `Id3v24Flags` | id3v24_flags.dfy | `ID3v24Frame.StatusFlags`, `ID3v24Frame.EncodingFlags` |
| `Id3v24FrameHeader` | id3v24_frame_header.dfy | frame header reading and writing as functions of the bytes |
| `Id3v24Frame` | id3v24_frame.dfy | the `ID3v24Frame` class |
| `Id3v23Tag` | id3v23_tag.dfy | the `ID3v23Tag` class and its rules |
| `Mp4BoxHeader` | mp4_box_header.dfy | what the MP4 readers use of `Mp4BoxHeader` |
| `Mp4StcoBox` | mp4_stco_box.dfy | the `Mp4StcoBox` class |
| `Mp4TagCoverField` | mp4_cover_field.dfy | the `Mp4TagCoverField` class |

The library's other code is not part of this model. Classes it calls are parameters, given as a record of functions (`FrameEnv`, `ConvertEnv`, `TagEnv`, `CoverEnv`). These include:
- the body readers;
- decompression;
- the v2.3 frame reader;
- the `ID3Tags` identifier maps;
- the superclass's generic map update;
- `Mp4BoxHeader`'s reader.

The tag option `isUnsyncTags` is a parameter of `write`.

## Model

| member | source | states |
|---|---|---|
| Bytes.Int32At | ealvatag/src/main/java/ealvatag/tag/id3/ID3v24Frame.java:659-664 | `peekBufferInt` and `getInt`: a big-endian two's complement `int`, negative exactly when the first byte's high bit is set, otherwise the unsigned big-endian value |
| Bytes.Int32RoundTrip | ealvatag/src/main/java/ealvatag/audio/mp4/atom/Mp4StcoBox.java:84-89 | an `int` written with `putInt` reads back with `getInt` as itself |
| Bytes.Int32BytesOfRead | ealvatag/src/main/java/ealvatag/audio/mp4/atom/Mp4StcoBox.java:84-89 | four bytes read with `getInt` and written back with `putInt` are the same four bytes |
| Buffers.ByteBuffer.Remaining | ealvatag/src/main/java/ealvatag/tag/id3/ID3v24Frame.java:808 | definition of `remaining()`: the limit less the position |
| Buffers.ByteBuffer.Wrap | ealvatag/src/main/java/ealvatag/tag/id3/ID3v23Tag.java:877-880 | a buffer over exactly the given bytes, positioned at the start, with the limit at their end |
| Buffers.ByteBuffer.Window | ealvatag/src/main/java/ealvatag/tag/id3/ID3v24Frame.java:742 | the bytes between position and limit, as many as `remaining()` |
| Buffers.ByteBuffer.Get | ealvatag/src/main/java/ealvatag/tag/id3/ID3v24Frame.java:711-712 | relative `get()`: the byte at the position, the position one further, nothing else changed |
| Buffers.ByteBuffer.GetInt | ealvatag/src/main/java/ealvatag/tag/id3/ID3v23Tag.java:759 | relative `getInt()`: the big-endian `int` at the position, the position four further, nothing else changed |
| Buffers.ByteBuffer.GetBytes | ealvatag/src/main/java/ealvatag/tag/id3/ID3v24Frame.java:868 | relative `get(dst, 0, n)`: the next n bytes, the position n further |
| Buffers.ByteBuffer.SetPosition | ealvatag/src/main/java/ealvatag/tag/id3/ID3v24Frame.java:785 | `position(p)` up to the limit: the position is p, content and limit unchanged |
| Buffers.ByteBuffer.SetLimit | ealvatag/src/main/java/ealvatag/tag/id3/ID3v24Frame.java:743 | `limit(l)` up to the capacity and not below the position: the limit is l, content and position unchanged |
| Buffers.ByteBuffer.Slice | ealvatag/src/main/java/ealvatag/tag/id3/ID3v24Frame.java:742 | `slice()`: a new buffer over exactly the bytes between position and limit, positioned at its start |
| Buffers.Source.Of | ealvatag/src/main/java/ealvatag/tag/id3/ID3v24Frame.java:350-351 | a buffer holding exactly the given bytes |
| Buffers.Source.Size | ealvatag/src/main/java/ealvatag/tag/id3/ID3v24Frame.java:294 | definition of `size()`: the bytes left |
| Buffers.Source.Peek | ealvatag/src/main/java/ealvatag/tag/id3/ID3v24Frame.java:457 | definition of `getByte(i)`: the byte i places ahead, nothing consumed |
| Buffers.Source.ReadByte | ealvatag/src/main/java/ealvatag/tag/id3/ID3v24Frame.java:307-308 | `readByte()` with a byte left: that byte, and the rest left |
| Buffers.Source.ReadInt | ealvatag/src/main/java/ealvatag/tag/id3/ID3v23Tag.java:808 | `readInt()` with four bytes left: their big-endian `int`, and the rest left |
| Buffers.Source.Skip | ealvatag/src/main/java/ealvatag/tag/id3/ID3v24Frame.java:339 | `skip(n)`: succeeds exactly when n is at most the size; nothing is skipped for n of zero or less, n bytes otherwise, and everything when n is too large |
| Buffers.Source.Take | ealvatag/src/main/java/ealvatag/tag/id3/ID3v24Frame.java:351 | `read(sink, n)`: the first n bytes move out, or all of them when fewer are left |
| Id3Codecs.SyncSafeValue | ealvatag/src/main/java/ealvatag/tag/id3/ID3v24Frame.java:796 | definition of `ID3SyncSafeInteger.bufferToValue` on four bytes: seven bits per byte, most significant first; its result is below 2^31, and below 2^28 when no byte has its high bit set |
| Id3Codecs.SyncSafeAt | ealvatag/src/main/java/ealvatag/tag/id3/ID3v24Frame.java:796 | definition: the syncsafe integer at an index of the bytes, below 2^31 |
| Id3Codecs.SyncSafeBytes | ealvatag/src/main/java/ealvatag/tag/id3/ID3v24Frame.java:574 | definition of `ID3SyncSafeInteger.valueToBuffer`: four bytes, each below 0x80; `SyncSafeRoundTrip` and `SyncSafeBytesOfValue` prove it inverse to `SyncSafeValue` |
| Id3Codecs.RequiresUnsync | ealvatag/src/main/java/ealvatag/tag/id3/ID3v24Frame.java:555-556 | definition of `requiresUnsynchronization`: some 0xFF is followed by 0xE0 or more, by 0x00, or by the end of the data; `RequiresUnsyncExactly` proves it decides whether `unsynchronize` changes anything |
| Id3Codecs.Unsync | ealvatag/src/main/java/ealvatag/tag/id3/ID3v24Frame.java:557-558 | definition of `unsynchronize`: a zero byte inserted after each 0xFF that needs one; never shorter and starting with the same byte; `SyncUnsync` and `UnsyncLeavesNoFalseSync` are its properties |
| Id3Codecs.Sync | ealvatag/src/main/java/ealvatag/tag/id3/ID3v24Frame.java:752-753 | definition of `synchronize`: the zero byte after each 0xFF dropped; never longer; `SyncUnsync` proves it undoes `Unsync` |
| Id3Codecs.SyncSafeRoundTrip | ealvatag/src/main/java/ealvatag/tag/id3/ID3v24Frame.java:574 | the syncsafe size `write` puts out is read back as the size modulo 2^28, and exactly as the size below 2^28 |
| Id3Codecs.SyncSafeBytesOfValue | ealvatag/src/main/java/ealvatag/tag/id3/ID3v24Frame.java:796 | four syncsafe bytes decoded and encoded again are the same bytes |
| Id3Codecs.SyncSafeBelowPlain | ealvatag/src/main/java/ealvatag/tag/id3/ID3v24Frame.java:827-853 | for syncsafe bytes the syncsafe reading never exceeds the plain one; they agree exactly when the value is at most `MAX_SAFE_SIZE`, and otherwise differ by at least 128 |
| Id3Codecs.SyncUnsync | ealvatag/src/main/java/ealvatag/tag/id3/ID3v24Frame.java:555-558 | synchronising undoes the unsynchronisation `write` applies |
| Id3Codecs.RequiresUnsyncExactly | ealvatag/src/main/java/ealvatag/tag/id3/ID3v24Frame.java:555-558 | unsynchronisation is required exactly when `unsynchronize` changes the data, so `write` never puts out unchanged data with the flag set, nor data that needed stuffing without it |
| Id3Codecs.UnsyncLeavesNoFalseSync | ealvatag/src/main/java/ealvatag/tag/id3/ID3v24Frame.java:555-558 | after unsynchronisation no false synchronisation is left and the data does not end in 0xFF |
| Id3Codecs.SyncOfClean | ealvatag/src/main/java/ealvatag/tag/id3/ID3v24Frame.java:747-754 | synchronising data with no 0xFF 0x00 pair leaves it unchanged |
| Id3Frames.ValidIdentifierBytes | ealvatag/src/main/java/ealvatag/tag/id3/ID3v24Frame.java:674-677 | an identifier is valid exactly when its first byte is an upper-case letter and the other three are upper-case letters or digits; a valid identifier never starts with a zero byte |
| Id3Frames.IsInvalidFrameException | ealvatag/src/main/java/ealvatag/tag/id3/ID3v23Tag.java:231 | definition of what `catch (InvalidFrameException)` catches: `InvalidFrameException` and its subclasses for an invalid identifier, padding and an empty frame |
| Id3v24Flags.WithBitOnly | ealvatag/src/main/java/ealvatag/tag/id3/ID3v24Frame.java:1195-1213 | `flags \|= mask` sets its bit and leaves every other bit as it was |
| Id3v24Flags.WithoutBitOnly | ealvatag/src/main/java/ealvatag/tag/id3/ID3v24Frame.java:1215-1233 | `flags &= ~mask` clears its bit and leaves every other bit as it was |
| Id3v24Flags.ModifiedWriteFlags | ealvatag/src/main/java/ealvatag/tag/id3/ID3v24Frame.java:1024-1033 | definition of `modifyFlags` on the write byte; `ModifiedWriteFlagsBits` states it bit by bit |
| Id3v24Flags.ConvertV3ToV4Flags | ealvatag/src/main/java/ealvatag/tag/id3/ID3v24Frame.java:1053-1062 | definition of `convertV3ToV4Flags`; `ConvertV3ToV4FlagsBits` states it bit by bit |
| Id3v24Flags.ModifiedWriteFlagsBits | ealvatag/src/main/java/ealvatag/tag/id3/ID3v24Frame.java:1024-1033 | after `modifyFlags` file-alter preservation is set exactly when the identifier is discard-if-file-altered, tag-alter preservation is always clear, every other bit is kept |
| Id3v24Flags.ConvertV3ToV4FlagsBits | ealvatag/src/main/java/ealvatag/tag/id3/ID3v24Frame.java:1053-1062 | a converted v2.3 status byte has bit 5 exactly when the v2.3 bit 6 was set, bit 6 exactly when the v2.3 bit 7 was set, and no other bit |
| Id3v24Flags.WithoutNonStandardBits | ealvatag/src/main/java/ealvatag/tag/id3/ID3v24Frame.java:1235-1243 | `unsetNonStandardFlags` clears exactly bits 7, 5 and 4 and keeps the others |
| Id3v24Flags.StatusFlags.Empty | ealvatag/src/main/java/ealvatag/tag/id3/ID3v24Frame.java:1006-1008 | a frame made from scratch has no status flag set |
| Id3v24Flags.StatusFlags.FromByte | ealvatag/src/main/java/ealvatag/tag/id3/ID3v24Frame.java:1015-1019 | the original flags are the byte read; the write flags are that byte after `modifyFlags` |
| Id3v24Flags.StatusFlags.FromV23 | ealvatag/src/main/java/ealvatag/tag/id3/ID3v24Frame.java:1040-1044 | the original flags are the converted v2.3 flags; the write flags are those after `modifyFlags` |
| Id3v24Flags.StatusFlags.ModifyFlags | ealvatag/src/main/java/ealvatag/tag/id3/ID3v24Frame.java:1024-1033 | the write flags become `ModifiedWriteFlags` of the old ones; the original flags are unchanged |
| Id3v24Flags.EncodingFlags.Empty | ealvatag/src/main/java/ealvatag/tag/id3/ID3v24Frame.java:1115-1117 | no format flag set |
| Id3v24Flags.EncodingFlags.FromByte | ealvatag/src/main/java/ealvatag/tag/id3/ID3v24Frame.java:1124-1127 | the format flags are the byte read |
| Id3v24Flags.EncodingFlags.SetCompression | ealvatag/src/main/java/ealvatag/tag/id3/ID3v24Frame.java:1195-1197 | the compression bit is set on the old flags |
| Id3v24Flags.EncodingFlags.SetEncryption | ealvatag/src/main/java/ealvatag/tag/id3/ID3v24Frame.java:1199-1201 | the encryption bit is set on the old flags |
| Id3v24Flags.EncodingFlags.SetGrouping | ealvatag/src/main/java/ealvatag/tag/id3/ID3v24Frame.java:1203-1205 | the grouping bit is set on the old flags |
| Id3v24Flags.EncodingFlags.SetUnsynchronised | ealvatag/src/main/java/ealvatag/tag/id3/ID3v24Frame.java:1207-1209 | the unsynchronisation bit is set on the old flags |
| Id3v24Flags.EncodingFlags.SetDataLengthIndicator | ealvatag/src/main/java/ealvatag/tag/id3/ID3v24Frame.java:1211-1213 | the data-length bit is set on the old flags |
| Id3v24Flags.EncodingFlags.UnsetCompression | ealvatag/src/main/java/ealvatag/tag/id3/ID3v24Frame.java:1215-1217 | the compression bit is cleared from the old flags |
| Id3v24Flags.EncodingFlags.UnsetEncryption | ealvatag/src/main/java/ealvatag/tag/id3/ID3v24Frame.java:1219-1221 | the encryption bit is cleared from the old flags |
| Id3v24Flags.EncodingFlags.UnsetGrouping | ealvatag/src/main/java/ealvatag/tag/id3/ID3v24Frame.java:1223-1225 | the grouping bit is cleared from the old flags |
| Id3v24Flags.EncodingFlags.UnsetUnsynchronised | ealvatag/src/main/java/ealvatag/tag/id3/ID3v24Frame.java:1227-1229 | the unsynchronisation bit is cleared from the old flags |
| Id3v24Flags.EncodingFlags.UnsetDataLengthIndicator | ealvatag/src/main/java/ealvatag/tag/id3/ID3v24Frame.java:1231-1233 | the data-length bit is cleared from the old flags |
| Id3v24Flags.EncodingFlags.UnsetNonStandardFlags | ealvatag/src/main/java/ealvatag/tag/id3/ID3v24Frame.java:1235-1243 | the flags lose exactly bits 7, 5 and 4 |
| Id3v24FrameHeader.ByteBufferFrameSize | ealvatag/src/main/java/ealvatag/tag/id3/ID3v24Frame.java:793-939 | definition of `getFrameSize(ByteBuffer)` with the corrected `remaining - 2` bound: empty frame at size zero, invalid beyond what remains, the plain reading chosen by the look-ahead; `ByteBufferFrameSizeChoice`, `ByteBufferInvalidSize` and `ByteBufferFrameSizeFits` state its cases |
| Id3v24FrameHeader.ByteBufferFrameSizeAsWritten | ealvatag/src/main/java/ealvatag/tag/id3/ID3v24Frame.java:825-939 | definition of the same size read with the bound as the source writes it at line 848, `remaining - -2`; `ByteBufferBoundAsWrittenTooLoose` shows where the two differ |
| Id3v24FrameHeader.SourceFrameSize | ealvatag/src/main/java/ealvatag/tag/id3/ID3v24Frame.java:391-522 | definition of `getFrameSize(Buffer)`, with the bounds counting the four size bytes still in the buffer; `SourceInvalidSize` and `SourceSizeReadBack` state its cases |
| Id3v24FrameHeader.ParseByteBufferHeader | ealvatag/src/main/java/ealvatag/tag/id3/ID3v24Frame.java:694-739 | definition of `read(ByteBuffer)` up to the body; never takes more than the bytes given; `ByteBufferIdentifierRule` and `AssembledReadBack` state what it accepts |
| Id3v24FrameHeader.ParseByteBufferSizeAndFlags | ealvatag/src/main/java/ealvatag/tag/id3/ID3v24Frame.java:708-739 | definition of the size, flag bytes and extra bytes after a valid identifier; never takes more than the bytes given; `ByteBufferSizeAndFlagsCases` states its cases |
| Id3v24FrameHeader.ParseSourceHeader | ealvatag/src/main/java/ealvatag/tag/id3/ID3v24Frame.java:293-333 | definition of `read(Buffer, boolean)` up to the body; never takes more than the bytes left |
| Id3v24FrameHeader.ByteBufferLookAheadSize | ealvatag/src/main/java/ealvatag/tag/id3/ID3v24Frame.java:855-937 | the look-ahead of the `ByteBuffer` heuristic keeps either the syncsafe or the plain size |
| Id3v24FrameHeader.SourceLookAheadSize | ealvatag/src/main/java/ealvatag/tag/id3/ID3v24Frame.java:446-519 | the look-ahead of the `Buffer` heuristic keeps either the syncsafe or the plain size |
| Id3v24FrameHeader.ByteBufferFrameSizeChoice | ealvatag/src/main/java/ealvatag/tag/id3/ID3v24Frame.java:793-939 | zero size is an empty frame and nothing else is; an accepted size is the syncsafe or the plain reading, the syncsafe one whenever it is at most `MAX_SAFE_SIZE`; on success the syncsafe size fits too; syncsafe bytes whose size fits are always accepted |
| Id3v24FrameHeader.ByteBufferPlainSizeChosen | ealvatag/src/main/java/ealvatag/tag/id3/ID3v24Frame.java:825-939 | the plain size replaces a different syncsafe one exactly when the syncsafe size exceeds `MAX_SAFE_SIZE` and fits, and either the bytes are not syncsafe and the plain size fits, or the look-ahead after the syncsafe size finds neither a frame nor padding while that after the plain size finds one |
| Id3v24FrameHeader.ByteBufferExactEndUnreachable | ealvatag/src/main/java/ealvatag/tag/id3/ID3v24Frame.java:921-929 | the fallback for a plain size that ends exactly at the limit can never fire: there are always bytes left there |
| Id3v24FrameHeader.ByteBufferInvalidSize | ealvatag/src/main/java/ealvatag/tag/id3/ID3v24Frame.java:796-811 | for syncsafe bytes the `ByteBuffer` reader refuses a non-zero size exactly when it exceeds the remaining bytes less the two flag bytes |
| Id3v24FrameHeader.SourceInvalidSize | ealvatag/src/main/java/ealvatag/tag/id3/ID3v24Frame.java:391-410 | the `Buffer` reader, which has not consumed the size field, refuses a syncsafe size exactly when it exceeds the bytes after the size field plus two |
| Id3v24FrameHeader.ByteBufferFrameSizeFits | ealvatag/src/main/java/ealvatag/tag/id3/ID3v24Frame.java:808-853 | every size the corrected heuristic accepts fits in the remaining bytes less the flag bytes |
| Id3v24FrameHeader.ByteBufferBoundAsWrittenTooLoose | ealvatag/src/main/java/ealvatag/tag/id3/ID3v24Frame.java:848 | with the source's bound `remaining - -2`, size bytes 00 00 01 80 followed by 383 bytes give the plain size 384, which does not fit; the corrected bound refuses that frame |
| Id3v24FrameHeader.ReadExtras | ealvatag/src/main/java/ealvatag/tag/id3/ID3v24Frame.java:717-736 | a successful read of the extra header bytes ends, and the body starts, just after the grouping, encryption and data-length bytes the flags announce |
| Id3v24FrameHeader.ExtrasLayout | ealvatag/src/main/java/ealvatag/tag/id3/ID3v24Frame.java:717-739 | grouping, then encryption, then the syncsafe data length, from just after the flag bytes; no data length gives -1; `realFrameSize` is the declared size less the extra bytes |
| Id3v24FrameHeader.ByteBufferIdentifierRule | ealvatag/src/main/java/ealvatag/tag/id3/ID3v24Frame.java:695-705 | past the length and padding checks, a frame is refused as an invalid identifier exactly when its first four bytes do not match `[A-Z][0-9A-Z]{3}`, and then the position is one byte after the frame's start |
| Id3v24FrameHeader.ByteBufferSizeRules | ealvatag/src/main/java/ealvatag/tag/id3/ID3v24Frame.java:796-811 | a zero size is an empty frame with the size field and both flag bytes consumed; a syncsafe size beyond the bytes left less the flag bytes is an invalid frame |
| Id3v24FrameHeader.ByteBufferSizeAndFlagsCases | ealvatag/src/main/java/ealvatag/tag/id3/ID3v24Frame.java:708-736 | a failed size ends the read (after the flag bytes for an empty frame); an accepted size goes on to the flag bytes and the extras |
| Id3v24FrameHeader.Latin1 | ealvatag/src/main/java/ealvatag/tag/id3/ID3v24Frame.java:568 | `getBytes(ISO_8859_1)`: one byte per character, `?` for a character beyond U+00FF |
| Id3v24FrameHeader.Latin1OfIdentifier | ealvatag/src/main/java/ealvatag/tag/id3/ID3v24Frame.java:568 | a valid identifier written as ISO-8859-1 reads back as itself |
| Id3v24FrameHeader.SignedLowByte | ealvatag/src/main/java/ealvatag/tag/id3/ID3v24Frame.java:598-604 | a grouping or encryption value written with `write(int)` is read back with `get()` as itself |
| Id3v24FrameHeader.PaddedIdentifier | ealvatag/src/main/java/ealvatag/tag/id3/ID3v24Frame.java:565-567 | a three-character identifier gets a space appended; any other is left as it is |
| Id3v24FrameHeader.WrittenEncodingFlags | ealvatag/src/main/java/ealvatag/tag/id3/ID3v24Frame.java:581-592 | definition of the format byte `write` puts out; `WrittenEncodingFlagsBits` states it bit by bit |
| Id3v24FrameHeader.ExtraBytes | ealvatag/src/main/java/ealvatag/tag/id3/ID3v24Frame.java:598-604 | one extra byte for each of the grouping and encryption flags that is set, and no other |
| Id3v24FrameHeader.AssembledFrame | ealvatag/src/main/java/ealvatag/tag/id3/ID3v24Frame.java:594-607 | the corrected layout a reader expects: ten header bytes, the announced extra bytes and the data, in that length; `AssembledReadBack` reads it back |
| Id3v24FrameHeader.AssembledFrameAsWritten | ealvatag/src/main/java/ealvatag/tag/id3/ID3v24Frame.java:594-607 | definition of the layout the source writes: the size of the data alone, the encryption byte before the grouping byte |
| Id3v24FrameHeader.WrittenEncodingFlagsBits | ealvatag/src/main/java/ealvatag/tag/id3/ID3v24Frame.java:581-592 | the written format flags have the unsynchronisation bit exactly when the body was unsynchronised, and otherwise exactly the old bits other than 7, 5, 4, compression and data length |
| Id3v24FrameHeader.WrittenFlagsExtras | ealvatag/src/main/java/ealvatag/tag/id3/ID3v24Frame.java:581-592 | written flags never announce compression or a data length, so the extras are only the grouping and encryption bytes |
| Id3v24FrameHeader.AssembledLayout | ealvatag/src/main/java/ealvatag/tag/id3/ID3v24Frame.java:594-607 | where the identifier, the syncsafe size, the flags, the extra bytes, the data and what follows lie in an assembled frame |
| Id3v24FrameHeader.WrittenFrame | ealvatag/src/main/java/ealvatag/tag/id3/ID3v24Frame.java:565-568 | writing fails exactly when the padded identifier has fewer than four characters |
| Id3v24FrameHeader.ByteBufferSizeReadBack | ealvatag/src/main/java/ealvatag/tag/id3/ID3v24Frame.java:793-939 | a syncsafe size followed by that many bytes and then a frame, padding or fewer than four bytes is read back as written |
| Id3v24FrameHeader.SourceSizeReadBack | ealvatag/src/main/java/ealvatag/tag/id3/ID3v24Frame.java:391-420 | the same for the `Buffer` reader |
| Id3v24FrameHeader.AssembledExtrasReadBack | ealvatag/src/main/java/ealvatag/tag/id3/ID3v24Frame.java:717-739 | the grouping and encryption bytes of an assembled frame read back as written, and the body starts after them |
| Id3v24FrameHeader.AssembledReadBack | ealvatag/src/main/java/ealvatag/tag/id3/ID3v24Frame.java:694-739 | an assembled frame reads back through both readers field for field, with the position at the data and the real size equal to the data's length |
| Id3v24FrameHeader.WrittenFrameReadBack | ealvatag/src/main/java/ealvatag/tag/id3/ID3v24Frame.java:540-612 | what the corrected `write` puts out is read back by either reader with the same identifier, flags, grouping and encryption values, and with exactly the body given to `write` (unsynchronisation undone) |
| Id3v24FrameHeader.GroupedFrameAsWritten | ealvatag/src/main/java/ealvatag/tag/id3/ID3v24Frame.java:596-607 | the source's `write` puts out a grouped `TIT2` frame with a one-byte body as 54 49 54 32 00 00 00 01 00 40 05 41 |
| Id3v24FrameHeader.GroupedFrameAsRead | ealvatag/src/main/java/ealvatag/tag/id3/ID3v24Frame.java:717-739 | those bytes read back with grouping byte 5, a declared size of one and the body starting at byte 11 |
| Id3v24FrameHeader.WrittenFrameAsWritten | ealvatag/src/main/java/ealvatag/tag/id3/ID3v24Frame.java:540-612 | definition of `write` as the source has it; `WrittenFrameAsWrittenMisread` shows a frame it writes that reads back wrong |
| Id3v24FrameHeader.WrittenFrameAsWrittenMisread | ealvatag/src/main/java/ealvatag/tag/id3/ID3v24Frame.java:572-607 | the source's writer loses data: that frame is read back with no body at all |
| Id3v24Frame.ByteBufferBody | ealvatag/src/main/java/ealvatag/tag/id3/ID3v24Frame.java:739-786 | definition of `read(ByteBuffer)` after the header: the data must fit before the limit and the position moves on by it; never takes more than the bytes given; `ByteBufferBodyPosition` and `ByteBufferBodyTooLarge` state its cases |
| Id3v24Frame.ByteBufferBodyRead | ealvatag/src/main/java/ealvatag/tag/id3/ID3v24Frame.java:757-777 | which body reader `read(ByteBuffer)` uses: decompression, decryption or the plain reader; takes no more than the frame's bytes |
| Id3v24Frame.SourceBodyTry | ealvatag/src/main/java/ealvatag/tag/id3/ID3v24Frame.java:337-375 | definition of the `try` block of `read(Buffer, boolean)`: artwork skipped, unsynchronised data moved out and synchronised; takes no more than the bytes left |
| Id3v24Frame.SourceBody | ealvatag/src/main/java/ealvatag/tag/id3/ID3v24Frame.java:335-388 | definition of `read(Buffer, boolean)` after the header, with the `finally` skip; takes no more than the bytes left; `SourceBodyLeavesAtMost` states what the skip leaves |
| Id3v24Frame.WrapBody | ealvatag/src/main/java/ealvatag/tag/id3/ID3v24Frame.java:778-782 | wrapping a body as deprecated fails exactly when the read failed, with the same error |
| Id3v24Frame.SourceBodyLeavesAtMost | ealvatag/src/main/java/ealvatag/tag/id3/ID3v24Frame.java:376-382 | after `read(Buffer, boolean)` at most `sizeBeforeRead - realFrameSize` bytes are left, whatever the body readers did |
| Id3v24Frame.ByteBufferBodyPosition | ealvatag/src/main/java/ealvatag/tag/id3/ID3v24Frame.java:783-786 | after a body read from a `ByteBuffer` the position is at least past the data, and exactly at its end when the frame is neither compressed nor encrypted |
| Id3v24Frame.ByteBufferBodyTooLarge | ealvatag/src/main/java/ealvatag/tag/id3/ID3v24Frame.java:742-743 | a real frame size that is negative or beyond the limit ends the read with an unchecked exception and no bytes consumed |
| Id3v24Frame.ConvertedFromV23 | ealvatag/src/main/java/ealvatag/tag/id3/ID3v24Frame.java:167-216 | the conversion fails, with a `ClassCastException`, exactly for a non-`TXXX` body of a mapped `TXXX` frame, or an unknown v2.3 frame whose body is not `FrameBodyUnsupported` |
| Id3v24Frame.ConvertedUnsupportedKeepsId | ealvatag/src/main/java/ealvatag/tag/id3/ID3v24Frame.java:174-179 | an unsupported body is carried over under the original identifier |
| Id3v24Frame.ConvertedMood | ealvatag/src/main/java/ealvatag/tag/id3/ID3v24Frame.java:180-191 | a `TXXX` described as MOOD becomes a `TMOO` frame with the same text and encoding; any other `TXXX` keeps its body under the mapped identifier |
| Id3v24Frame.ConvertedDeprecated | ealvatag/src/main/java/ealvatag/tag/id3/ID3v24Frame.java:194-208 | a known v2.3 identifier with no v2.4 equivalent keeps its identifier, with its body wrapped as deprecated |
| Id3v24Frame.ID3v24Frame.Empty | ealvatag/src/main/java/ealvatag/tag/id3/ID3v24Frame.java:95-96 | a new frame has no identifier, no size and no body |
| Id3v24Frame.ID3v24Frame.ReadIdentifier | ealvatag/src/main/java/ealvatag/tag/id3/ID3v24Frame.java:695 | ten bytes or fewer left: invalid frame, nothing consumed; an all-zero identifier: padding; otherwise the four bytes as ISO-8859-1 characters, with the position moved past them |
| Id3v24Frame.ID3v24Frame.GetFrameSize | ealvatag/src/main/java/ealvatag/tag/id3/ID3v24Frame.java:793-814 | the result is `ByteBufferFrameSize` of the size bytes and what follows; the position moves past the size field, and also past the flag bytes for an empty frame |
| Id3v24Frame.ID3v24Frame.ReadAhead | ealvatag/src/main/java/ealvatag/tag/id3/ID3v24Frame.java:860-871 | a look-ahead reads the four bytes at the offset when there are four, and puts the position back |
| Id3v24Frame.ID3v24Frame.CheckIfFrameSizeThatIsNotSyncSafe | ealvatag/src/main/java/ealvatag/tag/id3/ID3v24Frame.java:825-939 | the heuristic's result is `ByteBufferFrameSize`, `frameSize` holds it, and the position is where it was |
| Id3v24Frame.ID3v24Frame.LookAheadFrameSize | ealvatag/src/main/java/ealvatag/tag/id3/ID3v24Frame.java:855-937 | the look-ahead part keeps `ByteBufferLookAheadSize` and leaves the position unchanged |
| Id3v24Frame.ID3v24Frame.ReadHeader | ealvatag/src/main/java/ealvatag/tag/id3/ID3v24Frame.java:694-739 | the header read is `ParseByteBufferHeader` of the bytes to the limit, the position moves by what it consumes, and on success the fields hold the header |
| Id3v24Frame.ID3v24Frame.ReadSizeAndFlags | ealvatag/src/main/java/ealvatag/tag/id3/ID3v24Frame.java:708-739 | after the identifier the read follows `ParseByteBufferSizeAndFlags` |
| Id3v24Frame.ID3v24Frame.ReadFlagsAndExtras | ealvatag/src/main/java/ealvatag/tag/id3/ID3v24Frame.java:711-739 | after the size the read follows `ReadExtras` |
| Id3v24Frame.ID3v24Frame.ReadFlagBytes | ealvatag/src/main/java/ealvatag/tag/id3/ID3v24Frame.java:711-712 | the two bytes read become the status flags (write flags after `modifyFlags`) and the format flags |
| Id3v24Frame.ID3v24Frame.ReadExtraHeaderBytes | ealvatag/src/main/java/ealvatag/tag/id3/ID3v24Frame.java:717-736 | the extra header bytes are read as `ReadExtras` says, and the grouping and encryption fields take the values announced |
| Id3v24Frame.ID3v24Frame.ReadBody | ealvatag/src/main/java/ealvatag/tag/id3/ID3v24Frame.java:739-786 | the body and the final position are those of `ByteBufferBody`; the header fields are unchanged |
| Id3v24Frame.ID3v24Frame.ReadBodyContent | ealvatag/src/main/java/ealvatag/tag/id3/ID3v24Frame.java:742-777 | the body reader is chosen and called as `ByteBufferBodyRead` says |
| Id3v24Frame.ID3v24Frame.Read | ealvatag/src/main/java/ealvatag/tag/id3/ID3v24Frame.java:694-787 | `read(ByteBuffer)`: a header error is reported with the position the source leaves; otherwise the fields hold the header, the position is past the header and the body, and the body or its error is as read |
| Id3v24Frame.ID3v24Frame.ReadSourceIdentifier | ealvatag/src/main/java/ealvatag/tag/id3/ID3v24Frame.java:297 | the `Buffer` variant of `readIdentifier`, consuming the four identifier bytes |
| Id3v24Frame.ID3v24Frame.PeekAhead | ealvatag/src/main/java/ealvatag/tag/id3/ID3v24Frame.java:451-458 | a `Buffer` look-ahead peeks the four bytes at the offset when there are four, consuming nothing |
| Id3v24Frame.ID3v24Frame.CheckSourceFrameSize | ealvatag/src/main/java/ealvatag/tag/id3/ID3v24Frame.java:422-522 | the `Buffer` heuristic's result is `SourceFrameSize` and nothing is consumed |
| Id3v24Frame.ID3v24Frame.PeekFrameSize | ealvatag/src/main/java/ealvatag/tag/id3/ID3v24Frame.java:446-519 | the `Buffer` look-ahead keeps `SourceLookAheadSize` |
| Id3v24Frame.ID3v24Frame.GetSourceFrameSize | ealvatag/src/main/java/ealvatag/tag/id3/ID3v24Frame.java:391-420 | the size is `SourceFrameSize` of the bytes left; the size field is skipped on success, and it and the flag bytes on an empty frame |
| Id3v24Frame.ID3v24Frame.ReadSourceExtraHeaderBytes | ealvatag/src/main/java/ealvatag/tag/id3/ID3v24Frame.java:313-333 | the extra header bytes of the `Buffer` variant follow `ReadExtras`, with a read past the end reported as an invalid frame |
| Id3v24Frame.ID3v24Frame.ReadSourceHeader | ealvatag/src/main/java/ealvatag/tag/id3/ID3v24Frame.java:293-333 | `read(Buffer, boolean)` up to the body follows `ParseSourceHeader` |
| Id3v24Frame.ID3v24Frame.ReadSourceFlagsAndExtras | ealvatag/src/main/java/ealvatag/tag/id3/ID3v24Frame.java:307-333 | after the size, the flag bytes and extras follow `ReadExtras` |
| Id3v24Frame.ID3v24Frame.ReadSourceBodyTry | ealvatag/src/main/java/ealvatag/tag/id3/ID3v24Frame.java:337-375 | the `try` block (skip artwork, or synchronise and read the body) follows `SourceBodyTry` |
| Id3v24Frame.ID3v24Frame.ReadSourceBody | ealvatag/src/main/java/ealvatag/tag/id3/ID3v24Frame.java:335-388 | the `try` and `finally` blocks and the exception mapping follow `SourceBody` |
| Id3v24Frame.ID3v24Frame.ReadSource | ealvatag/src/main/java/ealvatag/tag/id3/ID3v24Frame.java:293-389 | `read(Buffer, boolean)`: the bytes consumed, the header fields and the body or error are exactly those of `ParseSourceHeader` and `SourceBody` |
| Id3v24Frame.ID3v24Frame.AssembleFrame | ealvatag/src/main/java/ealvatag/tag/id3/ID3v24Frame.java:594-607 | the frame is laid out as `AssembledFrame` says |
| Id3v24Frame.ID3v24Frame.FromV23 | ealvatag/src/main/java/ealvatag/tag/id3/ID3v24Frame.java:142-216 | building a v2.4 frame from a v2.3 one fails exactly when `ConvertedFromV23` does; otherwise it has the converted identifier and body, the converted status flags after `modifyFlags`, and the same format flags |
| Id3v24Frame.ID3v24Frame.UnsynchronisedBody | ealvatag/src/main/java/ealvatag/tag/id3/ID3v24Frame.java:550-560 | the body is unsynchronised exactly when the option is on and it needs it |
| Id3v24Frame.ID3v24Frame.RewriteEncodingFlags | ealvatag/src/main/java/ealvatag/tag/id3/ID3v24Frame.java:581-591 | the format flags become `WrittenEncodingFlags` of the old ones |
| Id3v24Frame.ID3v24Frame.Write | ealvatag/src/main/java/ealvatag/tag/id3/ID3v24Frame.java:540-612 | `write` puts out `WrittenFrame` of the frame's fields and body, pads a three-character identifier, and rewrites the format flags only when the identifier could be written |
| Id3v23Tag.HeaderFlagsApplied | ealvatag/src/main/java/ealvatag/tag/id3/ID3v23Tag.java:711-749 | definition of `readHeaderFlags` on the tag fields |
| Id3v23Tag.WrittenTagFlags | ealvatag/src/main/java/ealvatag/tag/id3/ID3v23Tag.java:1091-1119 | definition of the flag byte `writeHeaderToBuffer` puts out, with extended and experimental cleared first; `WrittenTagFlagsReadBack` reads it back |
| Id3v23Tag.WrittenTagFlagsReadBack | ealvatag/src/main/java/ealvatag/tag/id3/ID3v23Tag.java:711-749 | the flag byte `writeHeaderToBuffer` puts out is read back with the unsynchronisation flag as written, never extended or experimental, and nothing else changed |
| Id3v23Tag.ExtendedHeaderRead | ealvatag/src/main/java/ealvatag/tag/id3/ID3v23Tag.java:757-804 | definition of `readExtendedHeader(ByteBuffer, int)`; never moves past the bytes given; `ExtendedHeaderSizes` and `ExtendedHeaderReadBack` state its cases |
| Id3v23Tag.SourceExtendedHeaderRead | ealvatag/src/main/java/ealvatag/tag/id3/ID3v23Tag.java:806-852 | definition of `readExtendedHeader(Buffer)`; never takes more than the bytes left; `ExtendedHeaderVariantsAgree` relates it to the `ByteBuffer` variant |
| Id3v23Tag.ExtendedDataRead | ealvatag/src/main/java/ealvatag/tag/id3/ID3v23Tag.java:761-797 | the part of an extended header after its size never takes more bytes than there are |
| Id3v23Tag.ExtendedHeaderSizes | ealvatag/src/main/java/ealvatag/tag/id3/ID3v23Tag.java:757-804 | only declared sizes 6 and 10 read anything: both read the CRC flag and the padding size, only 10 the CRC; any other size changes nothing and moves the position back over the size field |
| Id3v23Tag.ExtendedHeaderReadBack | ealvatag/src/main/java/ealvatag/tag/id3/ID3v23Tag.java:757-804 | an extended header laid out as section 3.2 of the ID3v2.3.0 standard says is read back with its CRC flag, padding size and CRC |
| Id3v23Tag.ExtendedHeaderBytes | ealvatag/src/main/java/ealvatag/tag/id3/ID3v23Tag.java:1135-1156 | an extended header takes 14 bytes with a CRC and 10 without |
| Id3v23Tag.ExtendedHeaderVariantsAgree | ealvatag/src/main/java/ealvatag/tag/id3/ID3v23Tag.java:806-852 | the two `readExtendedHeader` variants read the same fields from a well-formed header; the `Buffer` one alone throws on another size, having consumed the size field |
| Id3v23Tag.WithDuplicate | ealvatag/src/main/java/ealvatag/tag/id3/ID3v23Tag.java:593-596 | a duplicate identifier joins the list, `;`-separated |
| Id3v23Tag.TyerTdatAggregated | ealvatag/src/main/java/ealvatag/tag/id3/ID3v23Tag.java:598-617 | a TYER and a non-empty TDAT, in either order, end up as one aggregate, TYER first, and neither key remains |
| Id3v23Tag.TyerTdatDuplicates | ealvatag/src/main/java/ealvatag/tag/id3/ID3v23Tag.java:584-597 | an empty TDAT is dropped; a TYER or TDAT meeting its key or the aggregate key leaves the map as it was, joins the duplicate list and adds its size |
| Id3v23Tag.LoadedIntoSpecifiedMap | ealvatag/src/main/java/ealvatag/tag/id3/ID3v23Tag.java:578-620 | definition of `loadFrameIntoSpecifiedMap`; `TyerTdatAggregated` and `TyerTdatDuplicates` state its cases |
| Id3v23Tag.LoadedIntoMap | ealvatag/src/main/java/ealvatag/tag/id3/ID3v23Tag.java:571-576 | loading a frame into the map changes neither the invalid-frame count nor the empty-frame bytes |
| Id3v23Tag.ScanFrames | ealvatag/src/main/java/ealvatag/tag/id3/ID3v23Tag.java:972-1013 | the `ByteBuffer` scan ends at a position between where it started and the end |
| Id3v23Tag.ScanFramesCounters | ealvatag/src/main/java/ealvatag/tag/id3/ID3v23Tag.java:959-1014 | the invalid-frame count and the empty-frame bytes only grow, the latter by whole frame headers |
| Id3v23Tag.ScanPolicy | ealvatag/src/main/java/ealvatag/tag/id3/ID3v23Tag.java:984-1012 | definition of the `catch` clauses of `readFrames(ByteBuffer, int)`; `ScanStepPolicy` states which errors end the scan |
| Id3v23Tag.SourceScanPolicy | ealvatag/src/main/java/ealvatag/tag/id3/ID3v23Tag.java:1023-1059 | definition of the `catch` clauses of `readFrames(Buffer, int)` |
| Id3v23Tag.ScanStepPolicy | ealvatag/src/main/java/ealvatag/tag/id3/ID3v23Tag.java:984-1012 | padding stops with nothing counted; an invalid identifier or frame stops with one more invalid frame; an empty frame goes on with ten more empty bytes; a corrupt frame goes on with one more invalid frame |
| Id3v23Tag.ScanSourceFrames | ealvatag/src/main/java/ealvatag/tag/id3/ID3v23Tag.java:1023-1059 | the `Buffer` scan never has more bytes left than it began with |
| Id3v23Tag.ScanSourceFinished | ealvatag/src/main/java/ealvatag/tag/id3/ID3v23Tag.java:1016-1060 | a `Buffer` scan that ends normally with bytes left stopped at padding, an invalid identifier or an invalid frame |
| Id3v23Tag.ConvertedFrames | ealvatag/src/main/java/ealvatag/tag/id3/ID3v23Tag.java:237-281 | definition of `convertFrame`; `ConvertedFramesShape` states what each kind of frame gives |
| Id3v23Tag.ConvertedFramesShape | ealvatag/src/main/java/ealvatag/tag/id3/ID3v23Tag.java:237-281 | TDRC gives TYER, TDAT and TIME in that order for its non-empty components, with their text; TIPL or TMCL gives one IPLS frame with the same pairs and encoding; any other frame gives exactly its v2.3 conversion |
| Id3v23Tag.DuplicateProcessed | ealvatag/src/main/java/ealvatag/tag/id3/ID3v23Tag.java:554-569 | a processed duplicate leaves the map with the old keys and the new frame's |
| Id3v23Tag.DuplicateIplsMerged | ealvatag/src/main/java/ealvatag/tag/id3/ID3v23Tag.java:556-562 | a duplicate IPLS keeps the existing frame, with its own pairs first and the new ones appended in order, and every other key unchanged |
| Id3v23Tag.CopiedIntoMap | ealvatag/src/main/java/ealvatag/tag/id3/ID3v23Tag.java:224 | the assumed `AbstractID3v2Tag.copyFrameIntoMap` (see Left out): a new key stored, a frame merged by `processDuplicateFrame`, a list appended to |
| Id3v23Tag.CopiedAllIntoMap | ealvatag/src/main/java/ealvatag/tag/id3/ID3v23Tag.java:226-229 | definition of the loop of `addFrame` over the converted frames, the first failure ending it; `CopiedAllStep` and `CopiedAllFailureSticks` are its properties |
| Id3v23Tag.AddedFrame | ealvatag/src/main/java/ealvatag/tag/id3/ID3v23Tag.java:220-234 | definition of `addFrame` on the map; `AddedFrameConversionFailure` states its `catch` |
| Id3v23Tag.AddedFrameConversionFailure | ealvatag/src/main/java/ealvatag/tag/id3/ID3v23Tag.java:220-234 | a failed conversion leaves the map as it was exactly when the error is `InvalidFrameException` or one of its subclasses (invalid identifier, padding, empty frame); any other error reaches the caller |
| Id3v23Tag.CopiedAllStep | ealvatag/src/main/java/ealvatag/tag/id3/ID3v23Tag.java:227-229 | copying one more converted frame copies it into what the earlier ones left, unless they failed |
| Id3v23Tag.CopiedAllFailureSticks | ealvatag/src/main/java/ealvatag/tag/id3/ID3v23Tag.java:222-233 | once copying a converted frame fails, the rest are not copied |
| Id3v23Tag.AddedTiplMergesIntoIpls | ealvatag/src/main/java/ealvatag/tag/id3/ID3v23Tag.java:221-281 | adding a v2.4 TIPL list to a tag with an IPLS frame appends its pairs to that frame, adding no key |
| Id3v23Tag.YearFields | ealvatag/src/main/java/ealvatag/tag/id3/ID3v23Tag.java:396-446 | definition of `createField(YEAR, value)`; `YearFieldsShape` states the frames it gives |
| Id3v23Tag.YearFieldsShape | ealvatag/src/main/java/ealvatag/tag/id3/ID3v23Tag.java:396-446 | an empty value gives nothing; the year is four characters, zero-padded on the left when shorter, the first four otherwise; a TDAT exists exactly from seven characters, day then month, the day from characters 8 and 9 when there are ten, otherwise 01 |
| Id3v23Tag.TagSize | ealvatag/src/main/java/ealvatag/tag/id3/ID3v23Tag.java:630-640 | definition of `getSize`; `TagHeaderReadBack` relates it to the written header |
| Id3v23Tag.TagReadFrom | ealvatag/src/main/java/ealvatag/tag/id3/ID3v23Tag.java:858-886 | definition of `read(ByteBuffer)` on the bytes; `TagHeadersRead` and `WrittenHeaderRead` state what it reads |
| Id3v23Tag.TagHeaderBytes | ealvatag/src/main/java/ealvatag/tag/id3/ID3v23Tag.java:1087-1132 | the written tag header has ten bytes |
| Id3v23Tag.TagHeaderReadBack | ealvatag/src/main/java/ealvatag/tag/id3/ID3v23Tag.java:630-640 | the written header reads back as "ID3" 3.0 with the unsynchronisation flag and the size written; without an extended header `getSize` is the ten header bytes plus the frames |
| Id3v23Tag.TagHeadersRead | ealvatag/src/main/java/ealvatag/tag/id3/ID3v23Tag.java:858-875 | the headers never take more bytes than there are |
| Id3v23Tag.WrittenHeaderRead | ealvatag/src/main/java/ealvatag/tag/id3/ID3v23Tag.java:858-886 | a tag that starts with the written header is read with the flags and size written, and its frames are scanned as they were before unsynchronisation |
| Id3v23Tag.ID3v23Tag.constructor | ealvatag/src/main/java/ealvatag/tag/id3/ID3v23Tag.java:135-137 | a new tag has no flags, no frames and nothing counted |
| Id3v23Tag.ID3v23Tag.ReadHeaderFlags | ealvatag/src/main/java/ealvatag/tag/id3/ID3v23Tag.java:711-749 | the flags are applied as `HeaderFlagsApplied` says: bits 7, 6 and 5 set unsynchronisation, extended and experimental, nothing else changes |
| Id3v23Tag.ID3v23Tag.ReadExtendedHeader | ealvatag/src/main/java/ealvatag/tag/id3/ID3v23Tag.java:757-804 | the outcome, the fields and the position are those of `ExtendedHeaderRead` |
| Id3v23Tag.ID3v23Tag.ReadExtendedData | ealvatag/src/main/java/ealvatag/tag/id3/ID3v23Tag.java:761-797 | the part after the size follows `ExtendedDataRead` |
| Id3v23Tag.ID3v23Tag.ReadSourceExtendedHeader | ealvatag/src/main/java/ealvatag/tag/id3/ID3v23Tag.java:806-852 | the result, the fields and the bytes consumed are those of `SourceExtendedHeaderRead` |
| Id3v23Tag.ID3v23Tag.ReadSourceExtendedData | ealvatag/src/main/java/ealvatag/tag/id3/ID3v23Tag.java:810-843 | the part after the size follows `ExtendedDataRead` |
| Id3v23Tag.ID3v23Tag.ProcessDuplicateFrame | ealvatag/src/main/java/ealvatag/tag/id3/ID3v23Tag.java:554-569 | the map becomes `DuplicateProcessed` of the old one, or stays as it was when a cast fails |
| Id3v23Tag.ID3v23Tag.CopyFrameIntoMap | ealvatag/src/main/java/ealvatag/tag/id3/ID3v23Tag.java:224 | the map becomes `CopiedIntoMap` of the old one, or stays as it was on failure |
| Id3v23Tag.ID3v23Tag.AddFrame | ealvatag/src/main/java/ealvatag/tag/id3/ID3v23Tag.java:220-234 | the map becomes `AddedFrame` of the old one, which keeps the map when the conversion fails with `InvalidFrameException` or a subclass; on any other failure only the map may have changed |
| Id3v23Tag.ID3v23Tag.LoadFrameIntoSpecifiedMap | ealvatag/src/main/java/ealvatag/tag/id3/ID3v23Tag.java:578-620 | the map and the duplicate bookkeeping become those of `LoadedIntoSpecifiedMap`; nothing else changes |
| Id3v23Tag.ID3v23Tag.LoadFrameIntoMap | ealvatag/src/main/java/ealvatag/tag/id3/ID3v23Tag.java:571-576 | the scan state becomes `LoadedIntoMap` of the old one |
| Id3v23Tag.ID3v23Tag.ApplyRead | ealvatag/src/main/java/ealvatag/tag/id3/ID3v23Tag.java:984-1058 | whether the loop goes on, how it ends and what is counted follow `ScanPolicy` (or `SourceScanPolicy`) |
| Id3v23Tag.ID3v23Tag.ReadOneFrame | ealvatag/src/main/java/ealvatag/tag/id3/ID3v23Tag.java:972-1013 | one turn of the loop either ends the scan as `ScanFrames` says or moves on to a later position with the same outcome ahead |
| Id3v23Tag.ID3v23Tag.ReadFrames | ealvatag/src/main/java/ealvatag/tag/id3/ID3v23Tag.java:959-1014 | `readFrames(ByteBuffer, int)` clears the maps, records the size and leaves the state and position that `ScanFrames` gives |
| Id3v23Tag.ID3v23Tag.ReadSourceFrames | ealvatag/src/main/java/ealvatag/tag/id3/ID3v23Tag.java:1016-1060 | `readFrames(Buffer, int)` clears the maps, records the size and leaves the state and bytes that `ScanSourceFrames` gives |
| Id3v23Tag.ID3v23Tag.Read | ealvatag/src/main/java/ealvatag/tag/id3/ID3v23Tag.java:858-886 | `read(ByteBuffer)` ends and leaves the fields as `TagReadFrom` says |
| Id3v23Tag.ID3v23Tag.ReadHeaders | ealvatag/src/main/java/ealvatag/tag/id3/ID3v23Tag.java:858-875 | the headers part follows `TagHeadersRead` |
| Id3v23Tag.ID3v23Tag.WriteHeaderToBuffer | ealvatag/src/main/java/ealvatag/tag/id3/ID3v23Tag.java:1087-1160 | the extended, experimental and CRC flags are cleared and the header is `TagHeaderBytes` of the unsynchronisation flag and padding plus size |
| Id3v23Tag.ID3v23Tag.GetSize | ealvatag/src/main/java/ealvatag/tag/id3/ID3v23Tag.java:630-640 | the size is `TagSize` of the flags and the frames' size |
| Mp4BoxHeader.BoxHeader.DataLength | ealvatag/src/main/java/ealvatag/audio/mp4/atom/Mp4StcoBox.java:57 | definition of `getDataLength`: the box length less the eight header bytes, in `int` arithmetic |
| Mp4StcoBox.WithIntReads | ealvatag/src/main/java/ealvatag/audio/mp4/atom/Mp4StcoBox.java:84-89 | an `int` written with the absolute `putInt` reads back as itself |
| Mp4StcoBox.WithIntOther | ealvatag/src/main/java/ealvatag/audio/mp4/atom/Mp4StcoBox.java:84-89 | an `int` that does not overlap the four bytes written reads as before |
| Mp4StcoBox.PutInt | ealvatag/src/main/java/ealvatag/audio/mp4/atom/Mp4StcoBox.java:89 | the array becomes `WithInt` of the old bytes |
| Mp4StcoBox.Adjusted | ealvatag/src/main/java/ealvatag/audio/mp4/atom/Mp4StcoBox.java:79-91 | definition of the bytes after `adjustOffsets`, the same length as before; `AdjustedReads`, `AdjustedKeepsOthers` and `AdjustedTwice` are its properties |
| Mp4StcoBox.AdjustedKeepsOthers | ealvatag/src/main/java/ealvatag/audio/mp4/atom/Mp4StcoBox.java:79-91 | adjusting leaves every byte before the first offset and after the last rewritten one unchanged |
| Mp4StcoBox.AdjustedKeepsNext | ealvatag/src/main/java/ealvatag/audio/mp4/atom/Mp4StcoBox.java:83-90 | adjusting the first offsets leaves the next one as it was |
| Mp4StcoBox.AdjustedReads | ealvatag/src/main/java/ealvatag/audio/mp4/atom/Mp4StcoBox.java:83-90 | each rewritten offset reads as its old value plus the adjustment, wrapped to 32 bits |
| Mp4StcoBox.AdjustedTwice | ealvatag/src/main/java/ealvatag/audio/mp4/atom/Mp4StcoBox.java:79-91 | adjusting by a and then by b is adjusting by a + b |
| Mp4StcoBox.AdjustedStep | ealvatag/src/main/java/ealvatag/audio/mp4/atom/Mp4StcoBox.java:84-89 | one more turn of the loop rewrites the next offset from the value it still has |
| Mp4StcoBox.RewrittenEntries | ealvatag/src/main/java/ealvatag/audio/mp4/atom/Mp4StcoBox.java:83 | the offsets rewritten are the count when it fits, none when it is negative, and those that fit otherwise |
| Mp4StcoBox.EntriesThatFit | ealvatag/src/main/java/ealvatag/audio/mp4/atom/Mp4StcoBox.java:83-84 | the number of offset entries that end within the box buffer, and no more |
| Mp4StcoBox.AdjustEntry | ealvatag/src/main/java/ealvatag/audio/mp4/atom/Mp4StcoBox.java:84-89 | one turn of the loop: the bytes go from `Adjusted` for i entries to `Adjusted` for i + 1, the entry read, added to with `int` wrap-around and written back in place |
| Mp4StcoBox.AdjustEntries | ealvatag/src/main/java/ealvatag/audio/mp4/atom/Mp4StcoBox.java:82-90 | the loop succeeds exactly when the count fits and leaves the bytes `Adjusted` by the entries it rewrites |
| Mp4StcoBox.AudioHeader.constructor | ealvatag/src/main/java/ealvatag/audio/GenericAudioHeader.java:33-35 | a new audio header records the file size, with the defaults start 1, end -1 and length -1 |
| Mp4StcoBox.StcoBox.Init | ealvatag/src/main/java/ealvatag/audio/mp4/atom/Mp4StcoBox.java:37-51 | a box holds the header, the count, the first offset and its buffer |
| Mp4StcoBox.StcoBox.FromBuffer | ealvatag/src/main/java/ealvatag/audio/mp4/atom/Mp4StcoBox.java:37-51 | reading from a buffer succeeds exactly when the version, flags, count and first offset are there; the count and first offset are the big-endian `int`s at bytes 4 and 8, and the box shares the buffer |
| Mp4StcoBox.StcoBox.AdjustOffsets | ealvatag/src/main/java/ealvatag/audio/mp4/atom/Mp4StcoBox.java:79-91 | every offset that fits is rewritten plus the adjustment with wrap-around, success exactly when the count fits, count and first offset unchanged; a box without a buffer fails |
| Mp4StcoBox.StcoBox.StreamRest | ealvatag/src/main/java/ealvatag/audio/mp4/atom/Mp4StcoBox.java:57-69 | definition of `dataSize` at the final `skip`: the data length less the four flag bytes and the two `int`s, each step in `int` arithmetic |
| Mp4StcoBox.StcoBox.FromSource | ealvatag/src/main/java/ealvatag/audio/mp4/atom/Mp4StcoBox.java:53-77 | reading from a stream needs the `stco` identifier, the twelve fixed bytes and the rest of the data as the `int` data length less twelve; on success the count and first offset are read, the audio runs from the first offset to the end of the file, and exactly that is consumed. A wrong identifier changes nothing; a short stream fails with `EndOfStream`, having consumed what the `skip` and `readInt` calls took (everything, once both offsets were read) and, once both ints were read, having set the audio start, end and length |
| Mp4TagCoverField.BuiltFrom | src/org/jaudiotagger/tag/mp4/field/Mp4TagCoverField.java:144-179 | the sizes are `int`s; a successful `build` consumes at least the header, the pre-data and the image, and never moves past the limit |
| Mp4TagCoverField.AfterImage | src/org/jaudiotagger/tag/mp4/field/Mp4TagCoverField.java:162-176 | what follows the image: the image is kept, the sizes are `int`s, and the cursor stops after the image or after a `name` header |
| Mp4TagCoverField.BuiltFromImage | src/org/jaudiotagger/tag/mp4/field/Mp4TagCoverField.java:144-160 | once the header, the pre-data and the image fit, `build`'s result is decided by what follows the image |
| Mp4TagCoverField.BuiltLayout | src/org/jaudiotagger/tag/mp4/field/Mp4TagCoverField.java:144-179 | for every data atom laid out as a header, the pre-data, an image of the header's data length less the pre-data and a tail, `build` gives back exactly that image; with a short tail or another atom's header the sizes are the data atom's and the cursor stops after the image; after a `name` header the sizes include that atom's (with `int` wrap-around) and the cursor stops after the `name` header; an unreadable header fails |
| Mp4TagCoverField.NatToStringValue | src/org/jaudiotagger/tag/mp4/field/Mp4TagCoverField.java:136 | the decimal digits of a count read back as the count |
| Mp4TagCoverField.Description | src/org/jaudiotagger/tag/mp4/field/Mp4TagCoverField.java:131-142 | definition of the text `toString` gives for each image type; `DescriptionReadBack` proves the type and the count read back from it |
| Mp4TagCoverField.DescriptionReadBack | src/org/jaudiotagger/tag/mp4/field/Mp4TagCoverField.java:131-142 | the description "jpeg:<n>bytes" or "png<n>bytes" reads back as the image type and the byte count |
| Mp4TagCoverField.CoverField.Init | src/org/jaudiotagger/tag/mp4/field/Mp4TagCoverField.java:71-82 | a field holds its type, image and sizes |
| Mp4TagCoverField.CoverField.ToString | src/org/jaudiotagger/tag/mp4/field/Mp4TagCoverField.java:131-142 | the description reads back as the field's image type and its image length |
| Mp4TagCoverField.CoverField.FromData | src/org/jaudiotagger/tag/mp4/field/Mp4TagCoverField.java:95-113 | a field from an image exists exactly when the image is not empty, holds that array, and has the type its first byte gives |
| Mp4TagCoverField.CoverField.FromBuffer | src/org/jaudiotagger/tag/mp4/field/Mp4TagCoverField.java:71-82 | a field from a `covr` buffer exists exactly when `build` succeeds; it is JPEG exactly for the JPEG class id, and has the image, the `int` sizes and the position `BuiltFrom` gives |
| Mp4TagCoverField.CoverField.CopyOut | src/org/jaudiotagger/tag/mp4/field/Mp4TagCoverField.java:154-158 | the copy loop: a new array of n bytes, filled exactly with the next n bytes when that many are left, and failing otherwise |
| Mp4TagCoverField.CoverField.ReadNameAtom | src/org/jaudiotagger/tag/mp4/field/Mp4TagCoverField.java:162-176 | the end of `build` follows `AfterImage`: a `name` atom's sizes added with `int` wrap-around, any other header left unread |
| Mp4TagCoverField.CoverField.ReadImage | src/org/jaudiotagger/tag/mp4/field/Mp4TagCoverField.java:154-176 | the image copy and the `name` atom together follow `AfterImage` on the bytes after the pre-data, and fail when the image does not fit |
| Mp4TagCoverField.CoverField.Build | src/org/jaudiotagger/tag/mp4/field/Mp4TagCoverField.java:144-179 | `build` succeeds exactly when `BuiltFrom` does, with its image copied into a new array, its `int` sizes and its position |

## Left out

- Logging, `createStructure`, `equals`, `isCommon`, `setEncoding` and the getters that only return a field are not modelled.
- The Lyrics3 constructor, the copy constructors, `ID3v24Frame(String)` and the v2.2 path of `ID3v24Frame(AbstractID3v2Frame)` are left out. Each needs classes that are not part of this model.
- `ID3v23Tag`: `read(FileOperator, int)`, `read(Buffer, Id3v2Header)`, `write(File, long)`, `write(WritableByteChannel, int)` and the field and artwork accessors are left out. They are file I/O, or they depend on the generic tag API, which is not part of this model. The extended-header and frame-scan pieces that `read(Buffer, Id3v2Header)` uses are modelled (`ReadSourceExtendedHeader`, `ReadSourceFrames`).
- The body readers, `ID3Compression`, `decompressPartOfBuffer`, the frame-body classes, `ID3Tags` and `ID3v23Frame` are not part of this model. They come in as function parameters with no contract beyond their types.
- The superclass `AbstractID3v2Tag` is not part of this model either. Its `copyFrameIntoMap`, which `addFrame` calls, is an assumed collaborator given a body in `CopiedIntoMap`: a new key is stored, a key holding a frame goes through `processDuplicateFrame`, a key holding a list gets the frame appended, and a TYER/TDAT aggregate is left as it is.
- The same holds for `AbstractID3v2Frame.readIdentifier`. `ReadIdentifier` takes it to refuse ten bytes or fewer and to report four zero bytes as padding.
- `FrameBodyTDRC.findMatchingMaskAndExtractV3Values` is not part of this model. A TDRC body is given with its year, date and time already extracted.
- `ID3SyncSafeInteger`, `ID3Unsynchronization` and `Id3SynchronizingSink` are given bodies that follow sections 6.1 and 6.2 of the ID3v2.4.0 main structure document. `requiresUnsynchronization` is taken to report every place where section 6.1 inserts a zero byte: an 0xFF followed by 0xE0 or more, by 0x00, or by the end. The decoder shifts whole bytes, as the library's callers expect.
- Of `Mp4BoxHeader`, the model has `HEADER_LENGTH`, a header's identifier and `int` length, and `getDataLength` with its `int` wrap-around. Reading a header from bytes is not modelled: `Mp4TagCoverField` takes the reader as a parameter (`CoverEnv.readHeader`), and `Mp4StcoBox` takes the header already read. `Mp4DataBox.PRE_DATA_LENGTH` and the JPEG class id are parameters too.
- `Mp4StcoBox.getStco` walks a file to find the box, and it is left out.
- `Mp4StcoBox.StcoBox.FromSource`: the audio header's positions and lengths are `long` in the source. Here they are unbounded integers, because the values involved fit in a `long`.
- `Mp4TagCoverField.CoverField.FromData`: `dataSize` and `dataAndHeaderSize` are left at zero. The superclass `Mp4TagBinaryField`, which would set them, is not part of this model.
- `Mp4TagCoverField.BuiltFrom`: an image is copied in full or not at all. The source fails part-way through the copy loop with a `BufferUnderflowException`, leaving what it copied in the new array. The model reports the failure and does not keep the partial array.
- `Id3v23Tag.ID3v23Tag.AddFrame`: when copying a converted frame fails after others were copied, the contract states only the map and not which frames were already stored. `CopiedAllIntoMap` and `CopiedAllStep` describe that order.
- `Id3v23Tag.ScanFrames`: a frame reader that takes no bytes and lets the loop go on would make the source loop forever. The model ends such a scan as `Stuck`.
- The `LinkedHashMap` order of the frame maps is not modelled: a `map` has no order.
- The okio `Buffer` is a sequence consumed from the front. A `readByte` or `readInt` with too few bytes left consumes nothing and raises an unchecked exception: the extended-header reader reports it as `Unchecked`, and `read(Buffer, boolean)` turns it into `InvalidFrame`. Only `skip` past the end consumes everything and gives `EndOfStream`. The stream `Mp4StcoBox` reads is an okio `BufferedSource`. The model takes a short `readInt` there to raise `EOFException` without consuming anything, as `RealBufferedSource` does, so a short read of either kind is `EndOfStream`.
- `isUnsyncTags` is passed in as a parameter instead of being read from the options singleton.
- Strings are sequences of Unicode scalar values. Java's `length()` and `substring` count UTF-16 code units, so `Id3v23Tag.YearFields` and `Id3v24FrameHeader.PaddedIdentifier` differ from the source on text with characters outside the Basic Multilingual Plane. Years and identifiers are ASCII in practice.
- `Id3v24Frame.ID3v24Frame.GetFrameSize`: the test for a negative size is left out, because a syncsafe reading is never negative.
- The source's `remaining - -2` bound (see Findings) is modelled as written only in `Id3v24FrameHeader.ByteBufferFrameSizeAsWritten`. The members below use the corrected `remaining - 2`, so a frame with such a size ends as an invalid frame, where the source ends it with an unchecked exception when the body's limit is set:
- Id3v24Frame.ID3v24Frame.CheckIfFrameSizeThatIsNotSyncSafe: uses the corrected bound `remaining - 2`, not the `remaining - -2` of line 848.
- Id3v24Frame.ID3v24Frame.GetFrameSize: inherits the corrected bound from `CheckIfFrameSizeThatIsNotSyncSafe`.
- Id3v24Frame.ID3v24Frame.ReadSizeAndFlags: inherits the corrected bound through `GetFrameSize`.
- Id3v24Frame.ID3v24Frame.ReadHeader: inherits the corrected bound through `ReadSizeAndFlags`.
- Id3v24Frame.ID3v24Frame.Read: inherits the corrected bound through `ReadHeader`.
- Id3v24FrameHeader.ByteBufferFrameSize: states the corrected bound; `ByteBufferFrameSizeAsWritten` has the source's.
- Id3v24FrameHeader.ByteBufferPlainSizeChosen: is about the corrected bound.
- Id3v24FrameHeader.ParseByteBufferSizeAndFlags: reads the size with the corrected bound.
- Id3v24FrameHeader.ParseByteBufferHeader: reads the size with the corrected bound.
- The source's `write` puts the encryption byte first and leaves both extra bytes out of the size (see Findings). That layout is modelled as written only in `Id3v24FrameHeader.AssembledFrameAsWritten` and `Id3v24FrameHeader.WrittenFrameAsWritten`. The members below produce the corrected layout:
- Id3v24Frame.ID3v24Frame.Write: writes the corrected layout, grouping byte first and the size counting the extra bytes.
- Id3v24Frame.ID3v24Frame.AssembleFrame: assembles the corrected layout.
- Id3v24FrameHeader.WrittenFrame: is the corrected layout of `write`.
- Id3v24FrameHeader.AssembledLayout: is about the corrected layout.
- Id3v24FrameHeader.AssembledFrame: is the corrected layout.

## Findings

| source | as written | input that shows it | evidently intended | confidence | as-written member | corrected member |
|---|---|---|---|---|---|---|
| ealvatag/src/main/java/ealvatag/tag/id3/ID3v24Frame.java:848 | a plain size that is not syncsafe is accepted when it is at most `remaining - -2`, that is `remaining + 2`. That is four bytes more than fit after the flag bytes, so `limit(realFrameSize)` later throws an unchecked exception, and `readFrames` does not catch it | size bytes 00 00 01 80 followed by 383 bytes: syncsafe 256 fits, and plain 384 passes that bound although only 381 bytes follow the flags | `remaining - 2`, as in the other bounds of the same method: the frame is an invalid frame | high (not executed) | Id3v24FrameHeader.ByteBufferBoundAsWrittenTooLoose | Id3v24FrameHeader.ByteBufferFrameSizeFits |
| ealvatag/src/main/java/ealvatag/tag/id3/ID3v24Frame.java:572-604 | `write` puts the body length alone in the size field, and writes the encryption byte before the grouping byte. The readers count both bytes in the size and read grouping first | a `TIT2` frame with the grouping flag, group 5 and the one-byte body 41: written `54 49 54 32 00 00 00 01 00 40 05 41`, read back with a real size of 0, so the body is lost | the size counts the extra header bytes, and grouping comes before encryption (section 4.1.2 of the ID3v2.4.0 main structure document) | high (not executed) | Id3v24FrameHeader.WrittenFrameAsWrittenMisread | Id3v24FrameHeader.WrittenFrameReadBack |
