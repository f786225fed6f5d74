/**
 * How `ID3v24Frame` reads a frame header, as functions of the bytes it
 * looks at: the identifier, the declared size with its recovery heuristic for
 * sizes written as plain integers, the two flag bytes and the optional
 * grouping, encryption and data-length bytes. The `read` methods of
 * `Id3v24Frame.ID3v24Frame` are proved to follow these definitions.
 *
 * Two cursor kinds are read: a `ByteBuffer` (`read(ByteBuffer)`) and an okio
 * `Buffer` (`read(Buffer, boolean)`). They differ in their bounds and in what
 * they consume before an error.
 */
module Id3v24FrameHeader {
  import opened Bytes
  import opened Id3Codecs
  import opened Id3Frames
  import opened Id3v24Flags

  const FRAME_GROUPING_INDICATOR_SIZE: nat := 1
  const FRAME_ENCRYPTION_INDICATOR_SIZE: nat := 1
  const FRAME_DATA_LENGTH_SIZE: nat := 4

  /** The bytes that follow the header for the given format flags: grouping (1), encryption (1), data length (4). */
  function ExtraHeaderBytes(enc: byte): (r: nat)
    ensures r <= 6
  {
    (if HasBit(enc, GROUPING_IDENTITY) then 1 else 0)
    + (if HasBit(enc, ENCRYPTION) then 1 else 0)
    + (if HasBit(enc, DATA_LENGTH_INDICATOR) then 4 else 0)
  }

  /** The look-ahead test: four bytes that start another frame, or padding. */
  predicate StartsFrameOrPadding(s: seq<byte>)
  {
    |s| == 4 && (IsValidIdentifier(CharsOf(s)) || AllZero(s))
  }

  /**
   * `getFrameSize(ByteBuffer)` with `checkIfFrameSizeThatIsNotSyncSafe`: `sz`
   * are the four size bytes and `rest` everything from just after them to
   * the limit. A size of zero is an empty frame; a syncsafe size beyond what
   * remains after the flag bytes is invalid. A syncsafe size above
   * `MAX_SAFE_SIZE` is replaced by the plain big-endian reading when its bytes
   * are not syncsafe (and the plain size fits as well), or when the frame the
   * syncsafe size points to is neither a frame nor padding while the one the
   * plain size points to is. The bound on a plain size that is not syncsafe
   * is the intended one, `remaining - 2`; `ByteBufferFrameSizeAsWritten`
   * has the source's `remaining - -2`.
   */
  function ByteBufferFrameSize(sz: seq<byte>, rest: seq<byte>): (r: Result<int>)
    requires |sz| == 4
  {
    var ss := SyncSafeAt(sz, 0);
    var ns := Int32At(sz, 0);
    var remaining := |rest|;
    if ss == 0 then Failure(EmptyFrame)
    else if ss > remaining - FRAME_FLAGS_SIZE then Failure(InvalidFrame)
    else if ss <= MAX_SAFE_SIZE then Success(ss)
    else if NotSyncSafe(sz, 0) then
      if ns > remaining - FRAME_FLAGS_SIZE then Failure(InvalidFrame) else Success(ns)
    else Success(ByteBufferLookAheadSize(ss, ns, rest))
  }

  /**
   * The look-ahead of `checkIfFrameSizeThatIsNotSyncSafe(ByteBuffer)` for
   * syncsafe size bytes: the syncsafe size `ss` stands when the bytes after
   * it start a frame or padding (or are too few to look at), or when the
   * plain size `ns` does not fit; otherwise the plain size is taken when the
   * bytes after it start a frame or padding.
   */
  function ByteBufferLookAheadSize(ss: nat, ns: nat, rest: seq<byte>): (r: int)
    requires ss + FRAME_FLAGS_SIZE <= |rest|
    ensures r == ss || r == ns
  {
    var remaining := |rest|;
    if remaining - (ss + FRAME_FLAGS_SIZE) < FRAME_ID_SIZE then ss
    else if StartsFrameOrPadding(rest[ss + 2..ss + 6]) then ss
    else if ns > remaining - FRAME_FLAGS_SIZE then ss
    else if remaining - (ns + FRAME_FLAGS_SIZE) >= FRAME_ID_SIZE then
      if StartsFrameOrPadding(rest[ns + 2..ns + 6]) then ns else ss
    else if remaining == 0 then ns
    else ss
  }

  /** `ByteBufferFrameSize` with the bound the source writes for a plain size that is not syncsafe: `remaining - -2`. */
  function ByteBufferFrameSizeAsWritten(sz: seq<byte>, rest: seq<byte>): (r: Result<int>)
    requires |sz| == 4
  {
    var ss := SyncSafeAt(sz, 0);
    var ns := Int32At(sz, 0);
    var remaining := |rest|;
    if ss > MAX_SAFE_SIZE && ss <= remaining - FRAME_FLAGS_SIZE && NotSyncSafe(sz, 0) then
      if ns > remaining - -(FRAME_FLAGS_SIZE as int) then Failure(InvalidFrame) else Success(ns)
    else ByteBufferFrameSize(sz, rest)
  }

  /**
   * Every size the (corrected) `ByteBuffer` heuristic accepts fits in what
   * remains after the size field, less the two flag bytes.
   */
  lemma {:induction false} ByteBufferFrameSizeFits(sz: seq<byte>, rest: seq<byte>)
    requires |sz| == 4
    ensures ByteBufferFrameSize(sz, rest).Success? ==> ByteBufferFrameSize(sz, rest).value <= |rest| - FRAME_FLAGS_SIZE
  {
    ByteBufferFrameSizeChoice(sz, rest);
  }

  /**
   * The source's bound lets through a plain size that does not fit: size
   * bytes 00 00 01 80 with 383 bytes after them read as 256 syncsafe (which
   * fits) and, not being syncsafe, as 384 plain, which passes `384 > 383 + 2`
   * although only 381 bytes follow the flag bytes. The corrected bound
   * refuses the frame.
   */
  lemma {:induction false} ByteBufferBoundAsWrittenTooLoose(rest: seq<byte>)
    requires |rest| == 383
    ensures ByteBufferFrameSizeAsWritten([0x00, 0x00, 0x01, 0x80], rest) == Success(384)
    ensures 384 > |rest| - FRAME_FLAGS_SIZE
    ensures ByteBufferFrameSize([0x00, 0x00, 0x01, 0x80], rest) == Failure(InvalidFrame)
  {
    var sz: seq<byte> := [0x00, 0x00, 0x01, 0x80];
    assert SyncSafeAt(sz, 0) == 256;
    assert Int32At(sz, 0) == 384 by {
      assert BigEndian(sz[0], sz[1], sz[2], sz[3]) == 384;
    }
    assert NotSyncSafe(sz, 0);
  }

  /**
   * `getFrameSize(Buffer)` with its `checkIfFrameSizeThatIsNotSyncSafe`: `s`
   * is everything left in the buffer, starting at the size bytes (which are
   * only peeked at). The bounds are therefore taken with the four size bytes
   * still counted.
   */
  function SourceFrameSize(s: seq<byte>): (r: Result<int>)
    requires |s| >= 4
  {
    var ss := SyncSafeAt(s, 0);
    var ns := Int32At(s, 0);
    var size := |s|;
    if ss == 0 then Failure(EmptyFrame)
    else if ss > size - FRAME_FLAGS_SIZE then Failure(InvalidFrame)
    else if ss <= MAX_SAFE_SIZE then Success(ss)
    else if NotSyncSafe(s, 0) then
      if ns > size + INTEGRAL_SIZE then Failure(InvalidFrame) else Success(ns)
    else Success(SourceLookAheadSize(ss, ns, s))
  }

  /**
   * The look-ahead of `checkIfFrameSizeThatIsNotSyncSafe(Buffer)`, with the
   * offsets counted from the size field and the bound on the plain size
   * taken with the size field counted.
   */
  function SourceLookAheadSize(ss: nat, ns: nat, s: seq<byte>): (r: int)
    requires ss + FRAME_FLAGS_SIZE <= |s|
    ensures r == ss || r == ns
  {
    var size := |s|;
    if size - (4 + 2 + ss) < FRAME_ID_SIZE then ss
    else if StartsFrameOrPadding(s[6 + ss..10 + ss]) then ss
    else if ns > size + INTEGRAL_SIZE then ss
    else if size - (4 + 2 + ns) >= FRAME_ID_SIZE then
      if StartsFrameOrPadding(s[6 + ns..10 + ns]) then ns else ss
    else if size + INTEGRAL_SIZE == 0 then ns
    else ss
  }

  /** What the size heuristic chooses, as the properties of both variants share them. */
  lemma {:induction false} ByteBufferFrameSizeChoice(sz: seq<byte>, rest: seq<byte>)
    requires |sz| == 4
    ensures var r := ByteBufferFrameSize(sz, rest);
            var ss := SyncSafeAt(sz, 0);
            var ns := Int32At(sz, 0);
            && (r == Failure(EmptyFrame) <==> ss == 0)
            && (r.Success? ==> r.value == ss || r.value == ns)
            && (r.Success? && ss <= MAX_SAFE_SIZE ==> r.value == ss)
            && (r.Success? && !NotSyncSafe(sz, 0) ==> 0 < r.value <= |rest| - FRAME_FLAGS_SIZE)
            && (r.Success? ==> 0 < ss <= |rest| - FRAME_FLAGS_SIZE)
            && (!NotSyncSafe(sz, 0) && 0 < ss <= |rest| - FRAME_FLAGS_SIZE ==> r.Success?)
  {
    var ss := SyncSafeAt(sz, 0);
    var ns := Int32At(sz, 0);
    if !NotSyncSafe(sz, 0) {
      SyncSafeBelowPlain(sz[0], sz[1], sz[2], sz[3]);
    }
  }

  /**
   * When the plain reading replaces the syncsafe one (`read(ByteBuffer)`):
   * exactly when the syncsafe size is above `MAX_SAFE_SIZE` and fits, and
   * either the bytes are not syncsafe and the plain size passes the bound, or
   * the look-ahead at the syncsafe end finds neither a frame nor padding and
   * the look-ahead at the plain end finds one.
   */
  lemma {:induction false} ByteBufferPlainSizeChosen(sz: seq<byte>, rest: seq<byte>)
    requires |sz| == 4
    ensures var ss := SyncSafeAt(sz, 0);
            var ns := Int32At(sz, 0);
            var r := |rest|;
            ByteBufferFrameSize(sz, rest) == Success(ns) && ns != ss <==>
              && MAX_SAFE_SIZE < ss <= r - 2 && ns != ss
              && ((NotSyncSafe(sz, 0) && ns <= r - 2)
                  || (&& !NotSyncSafe(sz, 0)
                      && ss + 6 <= r && !StartsFrameOrPadding(rest[ss + 2..ss + 6])
                      && ns + 6 <= r && StartsFrameOrPadding(rest[ns + 2..ns + 6])))
  {
    var ss := SyncSafeAt(sz, 0);
    var ns := Int32At(sz, 0);
    if MAX_SAFE_SIZE < ss && !NotSyncSafe(sz, 0) {
      SyncSafeBelowPlain(sz[0], sz[1], sz[2], sz[3]);
      assert ns >= ss + 128;
    }
  }

  /** The `ByteBuffer` variant's last fallback (a plain size that reaches exactly the end) can never be taken. */
  lemma {:induction false} ByteBufferExactEndUnreachable(sz: seq<byte>, rest: seq<byte>)
    requires |sz| == 4
    requires var ss := SyncSafeAt(sz, 0);
             var ns := Int32At(sz, 0);
             MAX_SAFE_SIZE < ss <= |rest| - 2 && !NotSyncSafe(sz, 0) && ns <= |rest| - 2
    ensures |rest| != 0
  {
  }

  /**
   * For syncsafe size bytes the `ByteBuffer` variant refuses a non-zero size
   * exactly when it exceeds what remains after the size field less the flag
   * bytes.
   */
  lemma {:induction false} ByteBufferInvalidSize(sz: seq<byte>, rest: seq<byte>)
    requires |sz| == 4 && !NotSyncSafe(sz, 0)
    ensures ByteBufferFrameSize(sz, rest) == Failure(InvalidFrame) <==>
              0 < SyncSafeAt(sz, 0) && SyncSafeAt(sz, 0) > |rest| - 2
  {
    ByteBufferFrameSizeChoice(sz, rest);
  }

  /**
   * The `Buffer` variant's bound is looser by the four size bytes it has not
   * consumed yet: over the same bytes it refuses a syncsafe size only when the
   * size exceeds the remaining bytes after the size field plus two.
   */
  lemma {:induction false} SourceInvalidSize(s: seq<byte>)
    requires |s| >= 4 && !NotSyncSafe(s, 0)
    ensures SourceFrameSize(s) == Failure(InvalidFrame) <==> SyncSafeAt(s, 0) > (|s| - 4) + 2
  {
  }

  /** A frame header as read: the fields `read` assigns, and where the body starts. */
  datatype Header = Header(
    id: string,
    frameSize: int,
    statusFlags: byte,
    encodingFlags: byte,
    groupIdentifier: int,
    encryptionMethod: int,
    dataLengthSize: int,
    bodyStart: nat)
  {
    /** `realFrameSize`: the declared size less the extra header bytes. */
    function RealFrameSize(): int
    {
      frameSize - ExtraHeaderBytes(encodingFlags)
    }
  }

  /**
   * The bytes `read(ByteBuffer)` hands to `readBody` when the frame is
   * neither compressed nor encrypted: the frame's data after the extra
   * header bytes, synchronised when the unsynchronisation flag is set.
   */
  function BodyInput(h: Header, wb: seq<byte>): seq<byte>
    requires 0 <= h.RealFrameSize() <= |wb|
  {
    var data := wb[..h.RealFrameSize()];
    if HasBit(h.encodingFlags, FRAME_UNSYNCHRONIZATION) then Sync(data) else data
  }

  /**
   * The grouping, encryption and data-length bytes, read in that order from
   * index k of w, after the identifier, size and flags. `missing` is the error
   * a read past the end raises.
   */
  function ReadExtras(w: seq<byte>, k: nat, id: string, frameSize: int, status: byte, enc: byte,
                      missing: FrameError): (r: Step<Header>)
    requires k <= |w|
    ensures r.result.Success? ==> r.consumed == r.result.value.bodyStart == k + ExtraHeaderBytes(enc)
    ensures r.consumed <= |w|
  {
    var g := HasBit(enc, GROUPING_IDENTITY);
    var e := HasBit(enc, ENCRYPTION);
    var d := HasBit(enc, DATA_LENGTH_INDICATOR);
    if g && k >= |w| then Step(Failure(missing), k)
    else
      var group := if g then SignedByte(w[k]) else 0;
      var k1 := if g then k + 1 else k;
      if e && k1 >= |w| then Step(Failure(missing), k1)
      else
        var encMethod := if e then SignedByte(w[k1]) else 0;
        var k2 := if e then k1 + 1 else k1;
        if d && k2 + 4 > |w| then Step(Failure(missing), k2)
        else
          var dataLength := if d then SyncSafeAt(w, k2) else -1;
          var k3 := if d then k2 + 4 else k2;
          Step(Success(Header(id, frameSize, status, enc, group, encMethod, dataLength, k3)), k3)
  }

  /**
   * `read(ByteBuffer)` up to the body: w holds the bytes from the frame's
   * first byte to the limit. `readIdentifier` refuses a frame when ten bytes
   * or fewer remain and reports an all-zero identifier as padding.
   */
  function ParseByteBufferHeader(w: seq<byte>): (r: Step<Header>)
    ensures r.consumed <= |w|
  {
    if |w| <= FRAME_HEADER_SIZE then Step(Failure(InvalidFrame), 0)
    else if AllZero(w[..4]) then Step(Failure(Padding), 4)
    else if !IsValidIdentifier(CharsOf(w[..4])) then Step(Failure(InvalidFrameIdentifier), 1)
    else ParseByteBufferSizeAndFlags(w)
  }

  /** `read(ByteBuffer)` after a valid identifier: the size, the flag bytes and the extra header bytes. */
  function ParseByteBufferSizeAndFlags(w: seq<byte>): (r: Step<Header>)
    requires |w| > FRAME_HEADER_SIZE
    ensures r.consumed <= |w|
  {
    match ByteBufferFrameSize(w[4..8], w[8..])
    case Failure(EmptyFrame) => Step(Failure(EmptyFrame), 10)
    case Failure(e) => Step(Failure(e), 8)
    case Success(frameSize) => ReadExtras(w, 10, CharsOf(w[..4]), frameSize, w[8], w[9], Unchecked)
  }

  /** The two ways `ParseByteBufferSizeAndFlags` goes, by the outcome of the size heuristic. */
  lemma {:induction false} ByteBufferSizeAndFlagsCases(w: seq<byte>)
    requires |w| > FRAME_HEADER_SIZE
    ensures var size := ByteBufferFrameSize(w[4..8], w[8..]);
            && (size.Failure? ==>
                  ParseByteBufferSizeAndFlags(w) == Step(Failure(size.error), if size.error == EmptyFrame then 10 else 8))
            && (size.Success? ==>
                  ParseByteBufferSizeAndFlags(w) == ReadExtras(w, 10, CharsOf(w[..4]), size.value, w[8], w[9], Unchecked))
  {
  }

  /**
   * `read(Buffer, boolean)` up to the body: s holds everything left in the
   * buffer. An invalid identifier is not given back; a read past the end of
   * the extra header bytes is an unchecked exception, which `read` reports as
   * an invalid frame.
   */
  function ParseSourceHeader(s: seq<byte>): (r: Step<Header>)
    ensures r.consumed <= |s|
  {
    if |s| <= FRAME_HEADER_SIZE then Step(Failure(InvalidFrame), 0)
    else if AllZero(s[..4]) then Step(Failure(Padding), 4)
    else if !IsValidIdentifier(CharsOf(s[..4])) then Step(Failure(InvalidFrameIdentifier), 4)
    else match SourceFrameSize(s[4..])
      case Failure(EmptyFrame) => Step(Failure(EmptyFrame), 10)
      case Failure(e) => Step(Failure(e), 4)
      case Success(frameSize) => ReadExtras(s, 10, CharsOf(s[..4]), frameSize, s[8], s[9], InvalidFrame)
  }

  /**
   * The identifier rule of `read(ByteBuffer)`: past the length and padding
   * checks, a frame is refused as having an invalid identifier exactly when
   * its first four bytes do not match `[A-Z][0-9A-Z]{3}`, and the cursor then
   * ends one byte after where the frame began.
   */
  lemma {:induction false} ByteBufferIdentifierRule(w: seq<byte>)
    requires |w| > FRAME_HEADER_SIZE && !AllZero(w[..4])
    ensures ParseByteBufferHeader(w).result == Failure(InvalidFrameIdentifier) <==>
              !IsValidIdentifier(CharsOf(w[..4]))
    ensures !IsValidIdentifier(CharsOf(w[..4])) ==> ParseByteBufferHeader(w).consumed == 1
  {
    if IsValidIdentifier(CharsOf(w[..4])) {
      assert ParseByteBufferHeader(w) == ParseByteBufferSizeAndFlags(w);
    }
  }

  /**
   * The size rules of `read(ByteBuffer)` for a frame with a valid identifier:
   * a zero size is an empty frame with the size field and both flag bytes
   * consumed; a syncsafe size beyond the remaining bytes less the flag bytes
   * is an invalid frame; otherwise the header is read.
   */
  lemma {:induction false} ByteBufferSizeRules(w: seq<byte>)
    requires |w| > FRAME_HEADER_SIZE && !AllZero(w[..4]) && IsValidIdentifier(CharsOf(w[..4]))
    ensures var ss := SyncSafeAt(w, 4);
            && (ss == 0 <==> ParseByteBufferHeader(w) == Step(Failure(EmptyFrame), 10))
            && (0 < ss && ss > |w| - 8 - FRAME_FLAGS_SIZE ==> ParseByteBufferHeader(w) == Step(Failure(InvalidFrame), 8))
  {
    var sz := w[4..8];
    assert sz[0] == w[4] && sz[1] == w[5] && sz[2] == w[6] && sz[3] == w[7];
  }

  /**
   * The extra header bytes of a header that was read: grouping first, then
   * encryption, then the syncsafe data length, right after the two flag bytes,
   * and the body starts after them.
   */
  lemma {:induction false} ExtrasLayout(w: seq<byte>, k: nat, id: string, frameSize: int, status: byte, enc: byte,
                                        missing: FrameError)
    requires k <= |w|
    requires ReadExtras(w, k, id, frameSize, status, enc, missing).result.Success?
    ensures var h := ReadExtras(w, k, id, frameSize, status, enc, missing).result.value;
            var g := if HasBit(enc, GROUPING_IDENTITY) then 1 else 0;
            var e := if HasBit(enc, ENCRYPTION) then 1 else 0;
            && (HasBit(enc, GROUPING_IDENTITY) ==> h.groupIdentifier == SignedByte(w[k]))
            && (HasBit(enc, ENCRYPTION) ==> h.encryptionMethod == SignedByte(w[k + g]))
            && (HasBit(enc, DATA_LENGTH_INDICATOR) ==> h.dataLengthSize == SyncSafeAt(w, k + g + e))
            && (!HasBit(enc, DATA_LENGTH_INDICATOR) ==> h.dataLengthSize == -1)
            && h.bodyStart == k + ExtraHeaderBytes(enc)
            && h.RealFrameSize() == frameSize - ExtraHeaderBytes(enc)
            && h.id == id && h.frameSize == frameSize && h.statusFlags == status && h.encodingFlags == enc
  {
  }

  // Writing a frame header.

  /** `String.getBytes(ISO_8859_1)`: a character beyond U+00FF becomes `?`. */
  function Latin1(s: string): (r: seq<byte>)
    ensures |r| == |s|
    ensures forall k :: 0 <= k < |s| ==> r[k] == if s[k] as int < 0x100 then s[k] as int as byte else 0x3F
  {
    if |s| == 0 then [] else [if s[0] as int < 0x100 then s[0] as int as byte else 0x3F] + Latin1(s[1..])
  }

  /** A valid identifier survives being written as ISO-8859-1 bytes and read back. */
  lemma {:induction false} Latin1OfIdentifier(id: string)
    requires IsValidIdentifier(id)
    ensures CharsOf(Latin1(id)) == id
  {
    var c := CharsOf(Latin1(id));
    forall k | 0 <= k < 4
      ensures c[k] == id[k]
    {
      assert IsUpperOrDigit(id[k]) || IsUpper(id[k]);
    }
  }

  /** An identifier of three characters (a converted v2.2 one) is written with a space after it. */
  function PaddedIdentifier(id: string): (r: string)
    ensures |id| == 3 ==> r == id + " "
    ensures |id| != 3 ==> r == id
  {
    if |id| == 3 then id + " " else id
  }

  /** `ByteArrayOutputStream.write(int)`: the low eight bits. */
  function LowByte(x: int): byte
  {
    (x % 0x100) as byte
  }

  lemma {:induction false} SignedLowByte(x: int)
    requires -128 <= x < 128
    ensures SignedByte(LowByte(x)) == x
  {
  }

  /**
   * The format flags `write` puts out: the non-standard bits, compression
   * and the data-length indicator cleared, and the unsynchronisation bit set
   * exactly when the body was unsynchronised.
   */
  function WrittenEncodingFlags(enc: byte, unsync: bool): byte
  {
    var f := WithoutNonStandard(enc);
    var g := if unsync then WithBit(f, FRAME_UNSYNCHRONIZATION) else WithoutBit(f, FRAME_UNSYNCHRONIZATION);
    WithoutBit(WithoutBit(g, COMPRESSION), DATA_LENGTH_INDICATOR)
  }

  lemma {:induction false} WrittenEncodingFlagsBits(enc: byte, unsync: bool, j: nat)
    requires j < 8
    ensures HasBit(WrittenEncodingFlags(enc, unsync), j) <==>
              if j == FRAME_UNSYNCHRONIZATION then unsync
              else j != 7 && j != 5 && j != 4 && j != COMPRESSION && j != DATA_LENGTH_INDICATOR && HasBit(enc, j)
  {
    var f := WithoutNonStandard(enc);
    var g := if unsync then WithBit(f, FRAME_UNSYNCHRONIZATION) else WithoutBit(f, FRAME_UNSYNCHRONIZATION);
    WithoutNonStandardBits(enc, j);
    if unsync { WithBitOnly(f, FRAME_UNSYNCHRONIZATION, j); } else { WithoutBitOnly(f, FRAME_UNSYNCHRONIZATION, j); }
    WithoutBitOnly(g, COMPRESSION, j);
    WithoutBitOnly(WithoutBit(g, COMPRESSION), DATA_LENGTH_INDICATOR, j);
  }

  /** What `write` is given: the frame's header fields and the bytes its body writes. */
  datatype FrameToWrite = FrameToWrite(
    id: string, writeFlags: byte, encodingFlags: byte, groupIdentifier: int, encryptionMethod: int, body: seq<byte>)

  /** Whether `write` unsynchronises: the option is on and the body needs it. */
  predicate Unsynchronises(body: seq<byte>, unsyncTags: bool)
  {
    unsyncTags && RequiresUnsync(body)
  }

  function WrittenData(body: seq<byte>, unsyncTags: bool): seq<byte>
  {
    if Unsynchronises(body, unsyncTags) then Unsync(body) else body
  }

  /**
   * The grouping and encryption bytes in the order the standard puts them
   * (section 4.1.2 of the ID3v2.4.0 structure document: additions follow the
   * order of the flags that announce them).
   */
  function ExtraBytes(flags: byte, group: int, encryption: int): (r: seq<byte>)
    ensures |r| == (if HasBit(flags, GROUPING_IDENTITY) then 1 else 0) + (if HasBit(flags, ENCRYPTION) then 1 else 0)
  {
    (if HasBit(flags, GROUPING_IDENTITY) then [LowByte(group)] else [])
    + (if HasBit(flags, ENCRYPTION) then [LowByte(encryption)] else [])
  }

  /**
   * `write` as the source has it: the size field counts only the body, and
   * the encryption byte is written before the grouping byte. A reader counts
   * both in the size and expects grouping first (`WrittenFrameAsWrittenMisread`).
   */
  function WrittenFrameAsWritten(f: FrameToWrite, unsyncTags: bool): (r: Result<seq<byte>>)
  {
    var unsync := Unsynchronises(f.body, unsyncTags);
    var data := WrittenData(f.body, unsyncTags);
    var idBytes := Latin1(PaddedIdentifier(f.id));
    if |idBytes| < FRAME_ID_SIZE then Failure(Unchecked)
    else
      var flags := WrittenEncodingFlags(f.encodingFlags, unsync);
      Success(AssembledFrameAsWritten(idBytes[..4], f.writeFlags, flags, f.groupIdentifier, f.encryptionMethod, data))
  }

  /** The layout the source's `write` produces: size of the data only, encryption byte before grouping byte. */
  function AssembledFrameAsWritten(id4: seq<byte>, status: byte, flags: byte, group: int, encryption: int,
                                   data: seq<byte>): seq<byte>
  {
    id4 + SyncSafeBytes(|data|) + [status, flags]
    + (if HasBit(flags, ENCRYPTION) then [LowByte(encryption)] else [])
    + (if HasBit(flags, GROUPING_IDENTITY) then [LowByte(group)] else [])
    + data
  }

  /**
   * A frame header and body laid out the way a reader expects them: the
   * identifier bytes, the syncsafe size of everything after the header, the
   * status and format flag bytes, the grouping and encryption bytes the
   * format flags announce (grouping first) and the data.
   */
  function AssembledFrame(id4: seq<byte>, status: byte, flags: byte, group: int, encryption: int,
                          data: seq<byte>): (r: seq<byte>)
    requires |id4| == FRAME_ID_SIZE
    ensures |r| == FRAME_HEADER_SIZE + |ExtraBytes(flags, group, encryption)| + |data|
  {
    var extra := ExtraBytes(flags, group, encryption);
    id4 + SyncSafeBytes(|extra| + |data|) + [status, flags] + extra + data
  }

  /**
   * `write` corrected: the size field counts the grouping and encryption
   * bytes with the body, and grouping comes first. The identifier must have
   * at least four ISO-8859-1 bytes once padded (`put(bytes, 0, 4)`).
   */
  function WrittenFrame(f: FrameToWrite, unsyncTags: bool): (r: Result<seq<byte>>)
    ensures r.Failure? <==> |PaddedIdentifier(f.id)| < FRAME_ID_SIZE
  {
    var unsync := Unsynchronises(f.body, unsyncTags);
    var data := WrittenData(f.body, unsyncTags);
    var idBytes := Latin1(PaddedIdentifier(f.id));
    if |idBytes| < FRAME_ID_SIZE then Failure(Unchecked)
    else
      var flags := WrittenEncodingFlags(f.encodingFlags, unsync);
      Success(AssembledFrame(idBytes[..4], f.writeFlags, flags, f.groupIdentifier, f.encryptionMethod, data))
  }

  /** Where each part of an assembled frame, followed by further bytes, ends up. */
  lemma {:induction false} AssembledLayout(id4: seq<byte>, status: byte, flags: byte, group: int, encryption: int,
                                           data: seq<byte>, next: seq<byte>)
    requires |id4| == FRAME_ID_SIZE
    ensures var extra := ExtraBytes(flags, group, encryption);
            var w := AssembledFrame(id4, status, flags, group, encryption, data) + next;
            && w[..4] == id4 && w[4..8] == SyncSafeBytes(|extra| + |data|)
            && w[8] == status && w[9] == flags
            && w[10..10 + |extra|] == extra
            && w[10 + |extra|..][..|data|] == data
            && w[8..][2 + |extra| + |data|..] == next
            && |w[4..]| == 6 + |extra| + |data| + |next|
  {
    var extra := ExtraBytes(flags, group, encryption);
    var w := AssembledFrame(id4, status, flags, group, encryption, data) + next;
    assert w == id4 + SyncSafeBytes(|extra| + |data|) + [status, flags] + extra + data + next;
    assert w[..4] == id4;
    assert w[4..8] == SyncSafeBytes(|extra| + |data|);
    assert w[10..10 + |extra|] == extra;
    assert w[10 + |extra|..][..|data|] == data;
    assert w[8..][2 + |extra| + |data|..] == next;
  }

  /**
   * A syncsafe size field followed by the flag bytes and exactly that many
   * bytes is read back by the `ByteBuffer` heuristic as written, provided
   * what follows the frame is too short to look at, or starts a frame or
   * padding.
   */
  lemma {:induction false} ByteBufferSizeReadBack(n: nat, rest: seq<byte>)
    requires 0 < n < 0x1000_0000 && n + FRAME_FLAGS_SIZE <= |rest|
    requires var next := rest[n + 2..]; |next| < 4 || StartsFrameOrPadding(next[..4])
    ensures ByteBufferFrameSize(SyncSafeBytes(n), rest) == Success(n)
  {
    var sz := SyncSafeBytes(n);
    SyncSafeRoundTrip(n);
    assert !NotSyncSafe(sz, 0);
    if |rest| - (n + 2) >= 4 {
      assert rest[n + 2..n + 6] == rest[n + 2..][..4];
    }
  }

  /** The same for the `Buffer` heuristic, which looks at the size field in place. */
  lemma {:induction false} SourceSizeReadBack(n: nat, s: seq<byte>)
    requires 0 < n < 0x1000_0000 && |s| >= 6 + n && s[..4] == SyncSafeBytes(n)
    requires var next := s[6 + n..]; |next| < 4 || StartsFrameOrPadding(next[..4])
    ensures SourceFrameSize(s) == Success(n)
  {
    var sz := SyncSafeBytes(n);
    SyncSafeRoundTrip(n);
    assert s[0] == sz[0] && s[1] == sz[1] && s[2] == sz[2] && s[3] == sz[3];
    assert SyncSafeAt(s, 0) == SyncSafeAt(sz, 0);
    assert !NotSyncSafe(s, 0);
    if |s| - (6 + n) >= 4 {
      assert s[6 + n..10 + n] == s[6 + n..][..4];
    }
  }

  /**
   * The extra header bytes of an assembled frame, read back from just after
   * its flag bytes: the grouping identifier and the encryption method come
   * back (as signed bytes), and the body starts right after them.
   */
  lemma {:induction false} AssembledExtrasReadBack(id4: seq<byte>, status: byte, flags: byte, group: int, encryption: int,
                                                   data: seq<byte>, next: seq<byte>, missing: FrameError)
    requires |id4| == FRAME_ID_SIZE && !HasBit(flags, DATA_LENGTH_INDICATOR)
    requires -128 <= group < 128 && -128 <= encryption < 128
    ensures var out := AssembledFrame(id4, status, flags, group, encryption, data);
            var h := Header(CharsOf(id4), |out| - FRAME_HEADER_SIZE, status, flags,
                            if HasBit(flags, GROUPING_IDENTITY) then group else 0,
                            if HasBit(flags, ENCRYPTION) then encryption else 0,
                            -1, |out| - |data|);
            && ReadExtras(out + next, 10, CharsOf(id4), |out| - FRAME_HEADER_SIZE, status, flags, missing)
               == Step(Success(h), h.bodyStart)
            && h.RealFrameSize() == |data|
  {
    var extra := ExtraBytes(flags, group, encryption);
    var w := AssembledFrame(id4, status, flags, group, encryption, data) + next;
    AssembledLayout(id4, status, flags, group, encryption, data, next);
    var g := HasBit(flags, GROUPING_IDENTITY);
    if g {
      assert w[10] == extra[0] == LowByte(group);
      SignedLowByte(group);
    }
    if HasBit(flags, ENCRYPTION) {
      var k1 := if g then 11 else 10;
      assert w[k1] == extra[k1 - 10] == LowByte(encryption);
      SignedLowByte(encryption);
    }
  }

  /**
   * The format flags `write` puts out never announce compression or a data
   * length, so the extras are the grouping and encryption bytes; the
   * unsynchronisation flag is set exactly when the body was unsynchronised.
   */
  lemma {:induction false} WrittenFlagsExtras(enc: byte, unsync: bool, group: int, encryption: int)
    ensures var flags := WrittenEncodingFlags(enc, unsync);
            && !HasBit(flags, COMPRESSION) && !HasBit(flags, DATA_LENGTH_INDICATOR)
            && ExtraHeaderBytes(flags) == |ExtraBytes(flags, group, encryption)|
            && (HasBit(flags, FRAME_UNSYNCHRONIZATION) <==> unsync)
  {
    WrittenEncodingFlagsBits(enc, unsync, COMPRESSION);
    WrittenEncodingFlagsBits(enc, unsync, DATA_LENGTH_INDICATOR);
    WrittenEncodingFlagsBits(enc, unsync, FRAME_UNSYNCHRONIZATION);
  }

  /**
   * Reading an assembled frame back with `read(ByteBuffer)`: the header comes
   * back field for field, the cursor stops where the data starts, and the
   * declared size less the extras is exactly the data.
   */
  lemma {:induction false} AssembledReadBack(id4: seq<byte>, status: byte, flags: byte, group: int, encryption: int,
                                             data: seq<byte>, next: seq<byte>)
    requires |id4| == FRAME_ID_SIZE && IsValidIdentifier(CharsOf(id4)) && !HasBit(flags, DATA_LENGTH_INDICATOR)
    requires -128 <= group < 128 && -128 <= encryption < 128
    requires FRAME_HEADER_SIZE < |AssembledFrame(id4, status, flags, group, encryption, data)| <= 0x1000_0000
    requires |next| < 4 || StartsFrameOrPadding(next[..4])
    ensures var out := AssembledFrame(id4, status, flags, group, encryption, data);
            var h := Header(CharsOf(id4), |out| - FRAME_HEADER_SIZE, status, flags,
                            if HasBit(flags, GROUPING_IDENTITY) then group else 0,
                            if HasBit(flags, ENCRYPTION) then encryption else 0,
                            -1, |out| - |data|);
            && ParseByteBufferHeader(out + next) == Step(Success(h), h.bodyStart)
            && ParseSourceHeader(out + next) == Step(Success(h), h.bodyStart)
            && h.RealFrameSize() == |data|
            && (out + next)[h.bodyStart..][..|data|] == data
  {
    var extra := ExtraBytes(flags, group, encryption);
    var out := AssembledFrame(id4, status, flags, group, encryption, data);
    var w := out + next;
    var n := |extra| + |data|;
    AssembledLayout(id4, status, flags, group, encryption, data, next);
    AssembledExtrasReadBack(id4, status, flags, group, encryption, data, next, Unchecked);
    AssembledExtrasReadBack(id4, status, flags, group, encryption, data, next, InvalidFrame);
    assert !AllZero(w[..4]) by {
      ValidIdentifierBytes(id4);
      assert w[..4][0] != 0;
    }
    ByteBufferSizeReadBack(n, w[8..]);
    assert w[4..][..4] == w[4..8];
    assert w[4..][6 + n..] == w[8..][2 + n..];
    SourceSizeReadBack(n, w[4..]);
  }

  /**
   * The reader takes back what the corrected `write` puts out: a frame with a
   * valid identifier, signed-byte grouping and encryption values, under the
   * syncsafe size limit and followed by another frame, padding or fewer than
   * four bytes, is read by either `read` to a header with the written
   * identifier and flags, the grouping and encryption values it announces,
   * the cursor at the start of the data, and a body input that is the body
   * given to `write` (unsynchronisation undone).
   */
  lemma {:induction false} WrittenFrameReadBack(f: FrameToWrite, unsyncTags: bool, next: seq<byte>)
    requires IsValidIdentifier(f.id)
    requires -128 <= f.groupIdentifier < 128 && -128 <= f.encryptionMethod < 128
    requires FRAME_HEADER_SIZE < |WrittenFrame(f, unsyncTags).value| <= 0x1000_0000
    requires |next| < 4 || StartsFrameOrPadding(next[..4])
    ensures var out := WrittenFrame(f, unsyncTags).value;
            var flags := WrittenEncodingFlags(f.encodingFlags, Unsynchronises(f.body, unsyncTags));
            var r := ParseByteBufferHeader(out + next);
            && r == ParseSourceHeader(out + next)
            && r.result.Success?
            && var h := r.result.value;
               && h.id == f.id && h.statusFlags == f.writeFlags && h.encodingFlags == flags
               && (HasBit(flags, GROUPING_IDENTITY) ==> h.groupIdentifier == f.groupIdentifier)
               && (HasBit(flags, ENCRYPTION) ==> h.encryptionMethod == f.encryptionMethod)
               && h.frameSize == |out| - FRAME_HEADER_SIZE
               && r.consumed == h.bodyStart
               && 0 <= h.RealFrameSize() && h.bodyStart + h.RealFrameSize() <= |out + next|
               && BodyInput(h, (out + next)[h.bodyStart..]) == f.body
  {
    var unsync := Unsynchronises(f.body, unsyncTags);
    var data := WrittenData(f.body, unsyncTags);
    var flags := WrittenEncodingFlags(f.encodingFlags, unsync);
    var idBytes := Latin1(f.id);
    var out := AssembledFrame(idBytes, f.writeFlags, flags, f.groupIdentifier, f.encryptionMethod, data);
    assert WrittenFrame(f, unsyncTags) == Success(out) by {
      assert PaddedIdentifier(f.id) == f.id;
      assert idBytes[..4] == idBytes;
    }
    Latin1OfIdentifier(f.id);
    WrittenFlagsExtras(f.encodingFlags, unsync, f.groupIdentifier, f.encryptionMethod);
    AssembledReadBack(idBytes, f.writeFlags, flags, f.groupIdentifier, f.encryptionMethod, data, next);
    if unsync {
      SyncUnsync(f.body);
    }
  }

  /** Writing the flags of a grouped frame with no other flag leaves them as they are. */
  lemma {:induction false} GroupedFlagsWritten()
    ensures WrittenEncodingFlags(0x40, false) == 0x40
  {
    assert !IsNonStandard(0x40);
    assert WithoutBit(0x40, FRAME_UNSYNCHRONIZATION) == 0x40;
    assert WithoutBit(0x40, COMPRESSION) == 0x40;
    assert WithoutBit(0x40, DATA_LENGTH_INDICATOR) == 0x40;
  }

  /** The bytes the source's writer puts out for a grouped `TIT2` frame with a one-byte body. */
  lemma {:induction false} GroupedFrameAsWritten()
    ensures WrittenFrameAsWritten(FrameToWrite("TIT2", 0, 0x40, 5, 0, [0x41]), false)
            == Success([0x54, 0x49, 0x54, 0x32, 0, 0, 0, 1, 0, 0x40, 5, 0x41])
  {
    assert SyncSafeBytes(1) == [0, 0, 0, 1];
    assert LowByte(5) == 5;
    var f := FrameToWrite("TIT2", 0, 0x40, 5, 0, [0x41]);
    var idBytes: seq<byte> := [0x54, 0x49, 0x54, 0x32];
    assert WrittenFrameAsWritten(f, false)
           == Success(AssembledFrameAsWritten(idBytes, 0, WrittenEncodingFlags(0x40, false), 5, 0, [0x41])) by {
      assert !Unsynchronises(f.body, false);
      assert PaddedIdentifier("TIT2") == "TIT2";
      var l := Latin1("TIT2");
      assert l[0] == 0x54 && l[1] == 0x49 && l[2] == 0x54 && l[3] == 0x32;
      assert l[..4] == idBytes;
    }
    GroupedFlagsWritten();
    assert AssembledFrameAsWritten(idBytes, 0, 0x40, 5, 0, [0x41])
           == [0x54, 0x49, 0x54, 0x32, 0, 0, 0, 1, 0, 0x40, 5, 0x41] by {
      assert !HasBit(0x40, ENCRYPTION) && HasBit(0x40, GROUPING_IDENTITY);
    }
  }

  /** How a reader takes those bytes apart: grouping byte 5, and a declared size of one that leaves no data. */
  lemma {:induction false} GroupedFrameAsRead()
    ensures ParseByteBufferHeader([0x54, 0x49, 0x54, 0x32, 0, 0, 0, 1, 0, 0x40, 5, 0x41])
            == Step(Success(Header("TIT2", 1, 0, 0x40, 5, 0, -1, 11)), 11)
  {
    var w: seq<byte> := [0x54, 0x49, 0x54, 0x32, 0, 0, 0, 1, 0, 0x40, 5, 0x41];
    assert w[..4] == [0x54, 0x49, 0x54, 0x32];
    assert CharsOf(w[..4]) == "TIT2";
    assert !AllZero(w[..4]) by { assert w[..4][0] != 0; }
    assert w[4..8] == [0, 0, 0, 1];
    assert SyncSafeAt(w[4..8], 0) == 1;
    assert ByteBufferFrameSize(w[4..8], w[8..]) == Success(1);
    assert HasBit(0x40, GROUPING_IDENTITY) && !HasBit(0x40, ENCRYPTION) && !HasBit(0x40, DATA_LENGTH_INDICATOR);
  }

  /** That header declares one byte, all of it taken by the grouping byte, so the body is empty. */
  lemma {:induction false} GroupedHeaderLeavesNoData()
    ensures Header("TIT2", 1, 0, 0x40, 5, 0, -1, 11).RealFrameSize() == 0
    ensures BodyInput(Header("TIT2", 1, 0, 0x40, 5, 0, -1, 11), [0x41]) == []
  {
    assert HasBit(0x40, GROUPING_IDENTITY) && !HasBit(0x40, ENCRYPTION) && !HasBit(0x40, DATA_LENGTH_INDICATOR);
    assert !HasBit(0x40, FRAME_UNSYNCHRONIZATION);
  }

  /**
   * The source's writer loses data: a grouped frame with a one-byte body is
   * read back with its grouping byte, but with no data at all, since the
   * size field did not count the grouping byte.
   */
  lemma {:induction false} WrittenFrameAsWrittenMisread()
    ensures var w: seq<byte> := [0x54, 0x49, 0x54, 0x32, 0, 0, 0, 1, 0, 0x40, 5, 0x41];
            var h := Header("TIT2", 1, 0, 0x40, 5, 0, -1, 11);
            && WrittenFrameAsWritten(FrameToWrite("TIT2", 0, 0x40, 5, 0, [0x41]), false) == Success(w)
            && ParseByteBufferHeader(w).result == Success(h)
            && h.RealFrameSize() == 0
            && w[h.bodyStart..] == [0x41]
            && BodyInput(h, [0x41]) == []
  {
    GroupedFrameAsWritten();
    GroupedFrameAsRead();
    GroupedHeaderLeavesNoData();
  }
}
