/**
 * `ID3v23Tag`: an ID3v2.3 tag as a container of frames. It reads the tag
 * header flags and the optional extended header (sections 3.1 and 3.2 of the
 * ID3v2.3.0 standard), scans the frames one after the other, keeps them in a
 * map keyed by identifier (joining TYER and TDAT into one entry and merging
 * IPLS frames), converts v2.4 frames into their v2.3 equivalents, builds the
 * YEAR field's frames and writes the tag header back.
 *
 * The frame reader (`ID3v23Frame`), the frame size, the generic map update of
 * the superclass and the frame conversions are the library's other code and
 * come in through a `TagEnv`.
 */
module Id3v23Tag {
  import opened Bytes
  import opened Id3Codecs
  import opened Id3Frames
  import opened Id3v24Flags
  import opened Buffers

  const TAG_HEADER_LENGTH: nat := 10
  const TAG_EXT_HEADER_LENGTH: nat := 10
  const TAG_EXT_HEADER_CRC_LENGTH: nat := 4
  const FIELD_TAG_EXT_SIZE_LENGTH: nat := 4
  const TAG_EXT_HEADER_DATA_LENGTH: nat := 6

  /** "ID3", the major version 3 and the revision 0. */
  const TAG_ID: seq<byte> := [0x49, 0x44, 0x33]
  const MAJOR_VERSION: byte := 3
  const REVISION: byte := 0

  /** Tag header flag bits (section 3.1 of the ID3v2.3.0 standard). */
  const UNSYNCHRONIZATION_BIT: nat := 7
  const EXTENDED_HEADER_BIT: nat := 6
  const EXPERIMENTAL_BIT: nat := 5
  /** Extended header flag bit: CRC data present. */
  const CRC_DATA_PRESENT_BIT: nat := 7

  /**
   * What the frame map holds under one key: a frame, a list of frames (for
   * identifiers that may repeat, and for duplicates), or the aggregate of a
   * TYER and a TDAT frame, TYER first.
   */
  datatype MapEntry =
    | Single(frame: Frame)
    | Many(frames: seq<Frame>)
    | TyerTdat(tyer: Frame, tdat: Frame)

  type FrameMap = map<string, MapEntry>

  /** The collaborators of the tag. */
  datatype TagEnv = TagEnv(
    /** `AbstractID3v2Tag.seek(ByteBuffer)`: how many bytes the tag identifier and version take, or none when absent */
    seek: seq<byte> -> Option<nat>,
    /** `new ID3v23Frame(ByteBuffer, name)`, on the bytes from the position to the limit */
    readFrame: seq<byte> -> Step<Frame>,
    /** `new ID3v23Frame(Buffer, name)`, on the bytes left in the buffer */
    readSourceFrame: seq<byte> -> Step<Frame>,
    /** `AbstractID3v2Frame.getSize` */
    frameSize: Frame -> int,
    /** `AbstractID3v2Tag.loadFrameIntoSpecifiedMap`, for identifiers other than TYER and TDAT */
    loadOther: (FrameMap, string, Frame) -> FrameMap,
    /** `new ID3v23Frame(AbstractID3v2Frame)` */
    asV23: Frame -> Result<Frame>,
    /** `new ID3v23Frame(ID3v24Frame, identifier)`: the header converted, under a new identifier */
    asV23Header: (Frame, string) -> Frame)

  /** The counters and maps a frame scan fills in. */
  datatype ScanState = ScanState(
    frameMap: FrameMap,
    encryptedFrameMap: FrameMap,
    invalidFrames: int,
    emptyFrameBytes: int,
    duplicateFrameId: string,
    duplicateBytes: int)

  /** Every field of a tag. */
  datatype TagFields = TagFields(
    unsynchronization: bool,
    extended: bool,
    experimental: bool,
    crcDataFlag: bool,
    crc32: int,
    paddingSize: int,
    fileReadSize: int,
    scan: ScanState)

  // Tag header flags.

  /** `readHeaderFlags`: bits 7, 6 and 5 set unsynchronisation, extended header and experimental; bits 4 to 0 are only logged. */
  function HeaderFlagsApplied(t: TagFields, flags: byte): (r: TagFields)
  {
    t.(unsynchronization := HasBit(flags, UNSYNCHRONIZATION_BIT),
       extended := HasBit(flags, EXTENDED_HEADER_BIT),
       experimental := HasBit(flags, EXPERIMENTAL_BIT))
  }

  /** The flag byte `writeHeaderToBuffer` puts out: only the unsynchronisation bit can be set. */
  function WrittenTagFlags(unsync: bool): byte
  {
    if unsync then WithBit(0, UNSYNCHRONIZATION_BIT) else 0
  }

  /** The written flag byte is read back as unsynchronised exactly as written, never extended, never experimental. */
  lemma {:induction false} WrittenTagFlagsReadBack(t: TagFields, unsync: bool)
    ensures var r := HeaderFlagsApplied(t, WrittenTagFlags(unsync));
            r.unsynchronization == unsync && !r.extended && !r.experimental
            && r.crcDataFlag == t.crcDataFlag && r.scan == t.scan && r.fileReadSize == t.fileReadSize
  {
    assert !HasBit(0, EXTENDED_HEADER_BIT) && !HasBit(0, EXPERIMENTAL_BIT) && !HasBit(0, UNSYNCHRONIZATION_BIT);
    if unsync {
      WithBitOnly(0, UNSYNCHRONIZATION_BIT, UNSYNCHRONIZATION_BIT);
      WithBitOnly(0, UNSYNCHRONIZATION_BIT, EXTENDED_HEADER_BIT);
      WithBitOnly(0, UNSYNCHRONIZATION_BIT, EXPERIMENTAL_BIT);
    }
  }

  // The extended header.

  /** What reading an extended header did: the outcome, the new fields and how many bytes it took. */
  datatype ExtendedRead = ExtendedRead(outcome: Outcome, fields: TagFields, consumed: nat)

  /** What reading the part of an extended header after its size did: whether it was all there, the new fields and how many bytes it took. */
  datatype DataRead = DataRead(complete: bool, fields: TagFields, consumed: nat)

  /**
   * The part of an extended header after its size, on the bytes d that
   * follow the size, as both `readExtendedHeader` variants read it: the flag
   * byte with the CRC bit, a second flag byte that is skipped, the padding
   * size and, for the declared size 10, the CRC. A read with too few bytes
   * left stops it; the fields set before it stay set.
   */
  function ExtendedDataRead(d: seq<byte>, t: TagFields, withCrc: bool): (r: DataRead)
    ensures r.consumed <= |d|
  {
    if |d| < 1 then DataRead(false, t, 0)
    else
      var c := t.(crcDataFlag := HasBit(d[0], CRC_DATA_PRESENT_BIT));
      if |d| < 2 then DataRead(false, c, 1)
      else if |d| < 6 then DataRead(false, c, 2)
      else
        var p := c.(paddingSize := Int32At(d, 2));
        if !withCrc then DataRead(true, p, 6)
        else if |d| < 10 then DataRead(false, p, 6)
        else DataRead(true, p.(crc32 := Int32At(d, 6)), 10)
  }

  /**
   * `readExtendedHeader(ByteBuffer, int)` on the bytes from the position: a
   * declared size of 6 reads the flags and the padding size, one of 10 also
   * the CRC; any other size moves the position back over the size field.
   * A relative get with too few bytes left throws `BufferUnderflowException`
   * and leaves the position where that get started; the fields set before it
   * stay set.
   */
  function ExtendedHeaderRead(w: seq<byte>, t: TagFields): (r: ExtendedRead)
    ensures r.consumed <= |w|
  {
    if |w| < 4 then ExtendedRead(Err(Unchecked), t, 0)
    else
      var n := Int32At(w, 0);
      if n != TAG_EXT_HEADER_DATA_LENGTH && n != TAG_EXT_HEADER_DATA_LENGTH + TAG_EXT_HEADER_CRC_LENGTH then
        ExtendedRead(Ok, t, 0)
      else
        var d := ExtendedDataRead(w[4..], t, n == TAG_EXT_HEADER_DATA_LENGTH + TAG_EXT_HEADER_CRC_LENGTH);
        ExtendedRead(if d.complete then Ok else Err(Unchecked), d.fields, 4 + d.consumed)
  }

  /**
   * Only declared sizes 6 and 10 read anything: both read the CRC flag and
   * the padding size, only 10 reads the CRC; any other size changes nothing
   * and leaves the position where it was.
   */
  lemma {:induction false} ExtendedHeaderSizes(w: seq<byte>, t: TagFields)
    requires |w| >= 14
    ensures var r := ExtendedHeaderRead(w, t);
            var n := Int32At(w, 0);
            && r.outcome == Ok
            && (n == 6 ==> r.consumed == 10 && r.fields == t.(crcDataFlag := HasBit(w[4], 7), paddingSize := Int32At(w, 6)))
            && (n == 10 ==>
                  r.consumed == 14
                  && r.fields == t.(crcDataFlag := HasBit(w[4], 7), paddingSize := Int32At(w, 6), crc32 := Int32At(w, 10)))
            && (n != 6 && n != 10 ==> r.consumed == 0 && r.fields == t)
  {
  }

  /** An extended header of any size that the standard allows is read back as written. */
  lemma {:induction false} ExtendedHeaderReadBack(t: TagFields, crc: bool, padding: int, crc32: int, rest: seq<byte>)
    requires IsInt32(padding) && IsInt32(crc32)
    ensures var w := ExtendedHeaderBytes(crc, padding, crc32) + rest;
            var r := ExtendedHeaderRead(w, t);
            && r.outcome == Ok && r.consumed == |ExtendedHeaderBytes(crc, padding, crc32)|
            && r.fields.crcDataFlag == crc && r.fields.paddingSize == padding
            && (crc ==> r.fields.crc32 == crc32)
            && (!crc ==> r.fields.crc32 == t.crc32)
            && r.fields.scan == t.scan && r.fields.unsynchronization == t.unsynchronization
  {
    var e := ExtendedHeaderBytes(crc, padding, crc32);
    var w := e + rest;
    var n: int := if crc then 10 else 6;
    Int32RoundTrip(n);
    Int32RoundTrip(padding);
    assert w[0..4] == Int32Bytes(n);
    Int32BytesOfRead(w, 0);
    assert w[6..10] == Int32Bytes(padding);
    Int32BytesOfRead(w, 6);
    assert Int32At(w, 0) == n && Int32At(w, 6) == padding;
    FlagBit7(crc);
    assert w[4] == (if crc then WithBit(0, CRC_DATA_PRESENT_BIT) else 0);
    if crc {
      Int32RoundTrip(crc32);
      assert w[10..14] == Int32Bytes(crc32);
      Int32BytesOfRead(w, 10);
    }
  }

  lemma {:induction false} FlagBit7(crc: bool)
    ensures HasBit(if crc then WithBit(0, CRC_DATA_PRESENT_BIT) else 0, CRC_DATA_PRESENT_BIT) == crc
  {
    assert !HasBit(0, CRC_DATA_PRESENT_BIT);
    WithBitOnly(0, CRC_DATA_PRESENT_BIT, CRC_DATA_PRESENT_BIT);
  }

  /**
   * An extended header as section 3.2 of the ID3v2.3.0 standard lays it
   * out: its size (6 or 10), the flag bytes with the CRC bit, the padding
   * size and, when flagged, the CRC.
   */
  function ExtendedHeaderBytes(crc: bool, padding: int, crc32: int): (r: seq<byte>)
    ensures |r| == if crc then 14 else 10
  {
    Int32Bytes(if crc then 10 else 6) + [if crc then WithBit(0, CRC_DATA_PRESENT_BIT) else 0, 0] + Int32Bytes(padding)
    + (if crc then Int32Bytes(crc32) else [])
  }

  /**
   * `readExtendedHeader(Buffer)` on the bytes left: like the `ByteBuffer`
   * variant, except that a size other than 6 or 10 throws
   * `InvalidTagHeaderException` with the size field consumed, and the size
   * read is returned. A read with too few bytes left consumes nothing.
   */
  function SourceExtendedHeaderRead(t: seq<byte>, f: TagFields): (r: (Result<int>, TagFields, nat))
    ensures r.2 <= |t|
  {
    if |t| < 4 then (Failure(Unchecked), f, 0)
    else
      var n := Int32At(t, 0);
      if n != TAG_EXT_HEADER_DATA_LENGTH && n != TAG_EXT_HEADER_DATA_LENGTH + TAG_EXT_HEADER_CRC_LENGTH then
        (Failure(InvalidTag), f, 4)
      else
        var d := ExtendedDataRead(t[4..], f, n == TAG_EXT_HEADER_DATA_LENGTH + TAG_EXT_HEADER_CRC_LENGTH);
        (if d.complete then Success(n) else Failure(Unchecked), d.fields, 4 + d.consumed)
  }

  /** The two variants agree on a well-formed extended header, and differ only in refusing a bad size. */
  lemma {:induction false} ExtendedHeaderVariantsAgree(w: seq<byte>, t: TagFields)
    ensures var b := ExtendedHeaderRead(w, t);
            var s := SourceExtendedHeaderRead(w, t);
            && (s.0.Success? <==> b.outcome == Ok && b.consumed > 0)
            && (b.outcome == Ok && b.consumed > 0 ==> s.1 == b.fields && s.2 == b.consumed && s.0.value == Int32At(w, 0))
            && (|w| >= 4 && b.outcome == Ok && b.consumed == 0 ==> s == (Failure(InvalidTag), t, 4))
  {
  }

  // Loading frames into the map.

  /** The map and duplicate bookkeeping after one frame is loaded. */
  datatype Loaded = Loaded(m: FrameMap, duplicateFrameId: string, duplicateBytes: int)

  /** A duplicate identifier joins the `;`-separated list. */
  function WithDuplicate(ids: string, id: string): (r: string)
    ensures |ids| == 0 ==> r == id
    ensures |ids| > 0 ==> r == ids + ";" + id
  {
    if |ids| > 0 then ids + ";" + id else id
  }

  /**
   * `loadFrameIntoSpecifiedMap`: identifiers other than TYER and TDAT go to
   * the superclass; an empty TDAT is dropped; a TYER or TDAT whose key or
   * the aggregate key is already present is recorded as a duplicate; a TYER
   * meeting a stored TDAT (or a TDAT meeting a stored TYER) replaces it by
   * their aggregate, TYER first. The stored frame is cast to a frame, which
   * fails on a list.
   */
  function LoadedIntoSpecifiedMap(env: TagEnv, m: FrameMap, dupId: string, dupBytes: int, frameId: string, f: Frame)
    : (r: Result<Loaded>)
  {
    if frameId != TYER && frameId != TDAT then Success(Loaded(env.loadOther(m, frameId, f), dupId, dupBytes))
    else if frameId == TDAT && |Content(f.body)| == 0 then Success(Loaded(m, dupId, dupBytes))
    else if frameId in m || TYER_TDAT in m then
      Success(Loaded(m, WithDuplicate(dupId, frameId), dupBytes + env.frameSize(f)))
    else if frameId == TYER then
      if TDAT in m then
        match m[TDAT]
        case Single(tdat) => Success(Loaded(m - {TDAT} + map[TYER_TDAT := TyerTdat(f, tdat)], dupId, dupBytes))
        case _ => Failure(Unchecked)
      else Success(Loaded(m[TYER := Single(f)], dupId, dupBytes))
    else
      if TYER in m then
        match m[TYER]
        case Single(tyer) => Success(Loaded(m - {TYER} + map[TYER_TDAT := TyerTdat(tyer, f)], dupId, dupBytes))
        case _ => Failure(Unchecked)
      else Success(Loaded(m[TDAT := Single(f)], dupId, dupBytes))
  }

  /** A TYER and a non-empty TDAT arriving in either order end up as one aggregate, TYER first, and neither key remains. */
  lemma {:induction false} TyerTdatAggregated(env: TagEnv, m: FrameMap, dupId: string, dupBytes: int, tyer: Frame, tdat: Frame)
    requires TYER !in m && TDAT !in m && TYER_TDAT !in m
    requires |Content(tdat.body)| > 0
    ensures var a := LoadedIntoSpecifiedMap(env, m, dupId, dupBytes, TYER, tyer);
            var b := LoadedIntoSpecifiedMap(env, a.value.m, dupId, dupBytes, TDAT, tdat);
            a.Success? && b.Success? && b.value == Loaded(m + map[TYER_TDAT := TyerTdat(tyer, tdat)], dupId, dupBytes)
    ensures var a := LoadedIntoSpecifiedMap(env, m, dupId, dupBytes, TDAT, tdat);
            var b := LoadedIntoSpecifiedMap(env, a.value.m, dupId, dupBytes, TYER, tyer);
            a.Success? && b.Success? && b.value == Loaded(m + map[TYER_TDAT := TyerTdat(tyer, tdat)], dupId, dupBytes)
  {
    var m1 := m[TYER := Single(tyer)];
    assert m1 - {TYER} + map[TYER_TDAT := TyerTdat(tyer, tdat)] == m + map[TYER_TDAT := TyerTdat(tyer, tdat)];
    var m2 := m[TDAT := Single(tdat)];
    assert m2 - {TDAT} + map[TYER_TDAT := TyerTdat(tyer, tdat)] == m + map[TYER_TDAT := TyerTdat(tyer, tdat)];
  }

  /**
   * A TYER or TDAT that meets its own key or the aggregate key leaves the
   * map as it was and is recorded: its identifier joins the list and its
   * size is added; an empty TDAT is dropped without a trace.
   */
  lemma {:induction false} TyerTdatDuplicates(env: TagEnv, m: FrameMap, dupId: string, dupBytes: int, frameId: string, f: Frame)
    requires frameId == TYER || frameId == TDAT
    ensures frameId == TDAT && |Content(f.body)| == 0 ==>
              LoadedIntoSpecifiedMap(env, m, dupId, dupBytes, frameId, f) == Success(Loaded(m, dupId, dupBytes))
    ensures (frameId == TYER || |Content(f.body)| > 0) && (frameId in m || TYER_TDAT in m) ==>
              LoadedIntoSpecifiedMap(env, m, dupId, dupBytes, frameId, f)
                == Success(Loaded(m, WithDuplicate(dupId, frameId), dupBytes + env.frameSize(f)))
  {
  }

  /**
   * `loadFrameIntoMap`: a genre body is switched to the v2.3 format; the
   * superclass then puts an encrypted body into the encrypted frame map and
   * every other one into the frame map.
   */
  function LoadedIntoMap(env: TagEnv, s: ScanState, frameId: string, f: Frame): (r: Result<ScanState>)
    ensures r.Success? ==> r.value.invalidFrames == s.invalidFrames && r.value.emptyFrameBytes == s.emptyFrameBytes
  {
    var g := if f.body.GenreBody? then f.(body := f.body.(v23Format := true)) else f;
    if g.body.EncryptedBody? then
      match LoadedIntoSpecifiedMap(env, s.encryptedFrameMap, s.duplicateFrameId, s.duplicateBytes, frameId, g)
      case Success(l) => Success(s.(encryptedFrameMap := l.m, duplicateFrameId := l.duplicateFrameId, duplicateBytes := l.duplicateBytes))
      case Failure(e) => Failure(e)
    else
      match LoadedIntoSpecifiedMap(env, s.frameMap, s.duplicateFrameId, s.duplicateBytes, frameId, g)
      case Success(l) => Success(s.(frameMap := l.m, duplicateFrameId := l.duplicateFrameId, duplicateBytes := l.duplicateBytes))
      case Failure(e) => Failure(e)
  }

  // Scanning the frames.

  /**
   * How a frame scan ends: normally (the end of the data, padding, or a
   * frame that cannot be found), with an exception the loop does not catch,
   * or never: a reader that takes no bytes and lets the loop go on would be
   * called again on the same bytes forever.
   */
  datatype ScanEnd = Finished | Stuck | Thrown(error: FrameError)

  datatype Scanned = Scanned(end: ScanEnd, state: ScanState, position: nat)

  /**
   * What the `catch` clauses of `readFrames(ByteBuffer, int)` make of one
   * read: `None` ends the loop, `Some` goes on with the new state.
   */
  function ScanPolicy(env: TagEnv, s: ScanState, st: Result<Frame>): (r: (Option<ScanState>, ScanEnd))
  {
    match st
    case Success(f) =>
      (match LoadedIntoMap(env, s, f.id, f)
       case Success(s2) => (Some(s2), Finished)
       case Failure(e) => (None, Thrown(e)))
    case Failure(Padding) => (None, Finished)
    case Failure(EmptyFrame) => (Some(s.(emptyFrameBytes := s.emptyFrameBytes + FRAME_HEADER_SIZE)), Finished)
    case Failure(InvalidFrameIdentifier) => (None, Finished)
    case Failure(InvalidFrame) => (None, Finished)
    case Failure(InvalidDataType) => (Some(s.(invalidFrames := s.invalidFrames + 1)), Finished)
    case Failure(e) => (None, Thrown(e))
  }

  /** The state a scan that ends on this read is left in: an unfound frame counts as invalid. */
  function StoppedState(s: ScanState, st: Result<Frame>): ScanState
  {
    if st == Failure(InvalidFrameIdentifier) || st == Failure(InvalidFrame) then s.(invalidFrames := s.invalidFrames + 1)
    else s
  }

  /**
   * `readFrames(ByteBuffer, int)` from position pos: frames are read while
   * the position is below size. Padding ends the scan; an invalid
   * identifier or an invalid frame counts as invalid and ends it; an empty
   * frame adds a header's length to the empty bytes and a corrupt frame
   * counts as invalid, and the scan goes on.
   */
  function ScanFrames(env: TagEnv, w: seq<byte>, pos: nat, size: int, s: ScanState): (r: Scanned)
    requires pos <= |w|
    ensures pos <= r.position <= |w|
    decreases |w| - pos
  {
    if pos >= size then Scanned(Finished, s, pos)
    else
      var st := env.readFrame(w[pos..]);
      var next := pos + Min(st.consumed, |w| - pos);
      var p := ScanPolicy(env, s, st.result);
      match p.0
      case None => Scanned(p.1, StoppedState(s, st.result), next)
      case Some(s2) => if next == pos then Scanned(Stuck, s2, next) else ScanFrames(env, w, next, size, s2)
  }

  /** The counters only grow, and the empty-frame bytes grow by whole frame headers. */
  lemma {:induction false} ScanFramesCounters(env: TagEnv, w: seq<byte>, pos: nat, size: int, s: ScanState)
    requires pos <= |w|
    ensures var r := ScanFrames(env, w, pos, size, s);
            && r.state.invalidFrames >= s.invalidFrames
            && r.state.emptyFrameBytes >= s.emptyFrameBytes
            && (r.state.emptyFrameBytes - s.emptyFrameBytes) % FRAME_HEADER_SIZE == 0
    decreases |w| - pos
  {
    if pos < size {
      var st := env.readFrame(w[pos..]);
      var next := pos + Min(st.consumed, |w| - pos);
      var p := ScanPolicy(env, s, st.result);
      if p.0.Some? && next != pos {
        ScanFramesCounters(env, w, next, size, p.0.value);
      }
    }
  }

  /**
   * The continue/stop policy of one read: padding stops with nothing
   * counted; an invalid identifier or frame stops with one more invalid
   * frame; an empty frame goes on with a header's length more empty bytes;
   * a corrupt frame goes on with one more invalid frame.
   */
  lemma {:induction false} ScanStepPolicy(env: TagEnv, w: seq<byte>, pos: nat, size: int, s: ScanState)
    requires pos < |w| && pos < size
    ensures var st := env.readFrame(w[pos..]);
            var next := pos + Min(st.consumed, |w| - pos);
            var r := ScanFrames(env, w, pos, size, s);
            && (st.result == Failure(Padding) ==> r == Scanned(Finished, s, next))
            && (st.result == Failure(InvalidFrameIdentifier) || st.result == Failure(InvalidFrame) ==>
                  r == Scanned(Finished, s.(invalidFrames := s.invalidFrames + 1), next))
            && (st.result == Failure(EmptyFrame) && next > pos ==>
                  r == ScanFrames(env, w, next, size, s.(emptyFrameBytes := s.emptyFrameBytes + FRAME_HEADER_SIZE)))
            && (st.result == Failure(InvalidDataType) && next > pos ==>
                  r == ScanFrames(env, w, next, size, s.(invalidFrames := s.invalidFrames + 1)))
  {
  }

  /**
   * What the `catch` clauses of `readFrames(Buffer, int)` make of one read:
   * those of the `ByteBuffer` variant, and an `IOException` or another
   * `InvalidTagException` counts as invalid and the loop goes on.
   */
  function SourceScanPolicy(env: TagEnv, s: ScanState, st: Result<Frame>): (r: (Option<ScanState>, ScanEnd))
  {
    if st == Failure(EndOfStream) || st == Failure(InvalidTag) then (Some(s.(invalidFrames := s.invalidFrames + 1)), Finished)
    else ScanPolicy(env, s, st)
  }

  /**
   * `readFrames(Buffer, int)` on the bytes t left in the buffer: frames are
   * read while any byte is left. Besides the `ByteBuffer` policy, an
   * `IOException` or another `InvalidTagException` counts as invalid and
   * the scan goes on.
   */
  function ScanSourceFrames(env: TagEnv, t: seq<byte>, s: ScanState): (r: (ScanEnd, ScanState, seq<byte>))
    ensures |r.2| <= |t|
    decreases |t|
  {
    if |t| == 0 then (Finished, s, t)
    else
      var st := env.readSourceFrame(t);
      var rest := t[Min(st.consumed, |t|)..];
      var p := SourceScanPolicy(env, s, st.result);
      match p.0
      case None => (p.1, StoppedState(s, st.result), rest)
      case Some(s2) => if |rest| == |t| then (Stuck, s2, rest) else ScanSourceFrames(env, rest, s2)
  }

  /** A `Buffer` scan that ends normally has read everything, or stopped at padding or a frame it could not find. */
  lemma {:induction false} ScanSourceFinished(env: TagEnv, t: seq<byte>, s: ScanState)
    ensures var r := ScanSourceFrames(env, t, s);
            r.0 == Finished && |r.2| > 0 ==>
              exists k :: 0 <= k < |t| && t[k..] != [] &&
                (var st := env.readSourceFrame(t[k..]);
                 st.result in {Failure(Padding), Failure(InvalidFrameIdentifier), Failure(InvalidFrame)})
    decreases |t|
  {
    var r := ScanSourceFrames(env, t, s);
    if r.0 == Finished && |r.2| > 0 {
      var st := env.readSourceFrame(t);
      var rest := t[Min(st.consumed, |t|)..];
      if st.result in {Failure(Padding), Failure(InvalidFrameIdentifier), Failure(InvalidFrame)} {
        assert t[0..] == t;
      } else {
        var p := SourceScanPolicy(env, s, st.result);
        ScanSourceFinished(env, rest, p.0.value);
        var k :| 0 <= k < |rest| && rest[k..] != [] &&
                 (var st2 := env.readSourceFrame(rest[k..]);
                  st2.result in {Failure(Padding), Failure(InvalidFrameIdentifier), Failure(InvalidFrame)});
        var d := Min(st.consumed, |t|);
        assert rest[k..] == t[d + k..];
      }
    }
  }

  // Converting frames from v2.4 and duplicates.

  /** A v2.3 frame made from scratch: no flags set. */
  function NewFrame(id: string, body: FrameBody): Frame
  {
    Frame(id, 0, 0, body)
  }

  /**
   * `convertFrame`: a TDRC date gives TYER, TDAT and TIME frames, in that
   * order, for its non-empty components; a TIPL or TMCL list gives one IPLS
   * frame with the same pairs and text encoding; any other frame gives its
   * v2.3 conversion.
   */
  function ConvertedFrames(env: TagEnv, f: Frame): (r: Result<seq<Frame>>)
  {
    if f.id == TDRC && f.body.DateBody? then
      var b := f.body;
      Success((if b.year != "" then [NewFrame(TYER, DatePartBody(TYER, b.year, false))] else [])
              + (if b.date != "" then [NewFrame(TDAT, DatePartBody(TDAT, b.date, b.monthOnly))] else [])
              + (if b.time != "" then [NewFrame(TIME, DatePartBody(TIME, b.time, b.hoursOnly))] else []))
    else if (f.id == TIPL || f.id == TMCL) && f.body.PairsBody? && f.body.pairsId == f.id then
      Success([env.asV23Header(f, IPLS).(body := PairsBody(IPLS, f.body.encoding, f.body.pairs))])
    else
      match env.asV23(f)
      case Success(g) => Success([g])
      case Failure(e) => Failure(e)
  }

  /** The identifiers that come out of a TDRC date: those of the non-empty components, in order. */
  function DateParts(b: FrameBody): seq<string>
    requires b.DateBody?
  {
    (if b.year != "" then [TYER] else []) + (if b.date != "" then [TDAT] else []) + (if b.time != "" then [TIME] else [])
  }

  /**
   * Converting a TDRC date yields exactly its non-empty components as
   * TYER, TDAT and TIME frames in that order, each carrying its text; a
   * TIPL or TMCL list yields one IPLS frame with the same pairs and
   * encoding; any other frame yields exactly one frame.
   */
  lemma {:induction false} ConvertedFramesShape(env: TagEnv, f: Frame)
    ensures f.id == TDRC && f.body.DateBody? ==>
              var r := ConvertedFrames(env, f);
              && r.Success? && |r.value| == |DateParts(f.body)|
              && (forall i :: 0 <= i < |r.value| ==> r.value[i].id == DateParts(f.body)[i] && r.value[i].body.DatePartBody?)
              && (forall i :: 0 <= i < |r.value| ==>
                    Content(r.value[i].body) == (if r.value[i].id == TYER then f.body.year
                                                 else if r.value[i].id == TDAT then f.body.date else f.body.time))
    ensures (f.id == TIPL || f.id == TMCL) && f.body.PairsBody? && f.body.pairsId == f.id ==>
              var r := ConvertedFrames(env, f);
              && r.Success? && |r.value| == 1
              && r.value[0].body == PairsBody(IPLS, f.body.encoding, f.body.pairs)
    ensures !(f.id == TDRC && f.body.DateBody?) && !((f.id == TIPL || f.id == TMCL) && f.body.PairsBody? && f.body.pairsId == f.id) ==>
              var r := ConvertedFrames(env, f);
              (r.Success? <==> env.asV23(f).Success?) && (r.Success? ==> r.value == [env.asV23(f).value])
  {
    if f.id == TDRC && f.body.DateBody? {
      var b := f.body;
      var y := if b.year != "" then [NewFrame(TYER, DatePartBody(TYER, b.year, false))] else [];
      var d := if b.date != "" then [NewFrame(TDAT, DatePartBody(TDAT, b.date, b.monthOnly))] else [];
      var t := if b.time != "" then [NewFrame(TIME, DatePartBody(TIME, b.time, b.hoursOnly))] else [];
      var r := y + d + t;
      assert ConvertedFrames(env, f) == Success(r);
      var ps := DateParts(b);
      assert ps == (if b.year != "" then [TYER] else []) + (if b.date != "" then [TDAT] else [])
                   + (if b.time != "" then [TIME] else []);
      forall i | 0 <= i < |r|
        ensures r[i].id == ps[i] && r[i].body.DatePartBody?
        ensures Content(r[i].body) == (if r[i].id == TYER then b.year else if r[i].id == TDAT then b.date else b.time)
      {
        if i < |y| {
          assert r[i] == y[i];
        } else if i < |y| + |d| {
          assert r[i] == d[i - |y|];
        } else {
          assert r[i] == t[i - |y| - |d|];
        }
      }
    }
  }

  /** A body that the cast to `FrameBodyIPLS` accepts. */
  predicate IsIplsBody(b: FrameBody)
  {
    b.PairsBody? && b.pairsId == IPLS
  }

  /**
   * `processDuplicateFrame`: a second IPLS frame is not stored; its pairs
   * are appended, in order, to those of the existing IPLS frame, which
   * stays under that identifier. Any other duplicate replaces the entry by
   * the list of the existing and the new frame. The casts to
   * `FrameBodyIPLS` fail on another body.
   */
  function DuplicateProcessed(m: FrameMap, newFrame: Frame, existing: Frame): (r: Result<FrameMap>)
    ensures r.Success? ==> r.value.Keys == m.Keys + {newFrame.id}
  {
    if newFrame.id == IPLS then
      if IsIplsBody(existing.body) && IsIplsBody(newFrame.body) then
        Success(m[IPLS := Single(existing.(body := existing.body.(pairs := existing.body.pairs + newFrame.body.pairs)))])
      else Failure(Unchecked)
    else Success(m[newFrame.id := Many([existing, newFrame])])
  }

  /** Merging IPLS frames keeps the existing frame's pairs first and appends the new ones after them. */
  lemma {:induction false} DuplicateIplsMerged(m: FrameMap, newFrame: Frame, existing: Frame)
    requires newFrame.id == IPLS && IsIplsBody(existing.body) && IsIplsBody(newFrame.body)
    ensures var r := DuplicateProcessed(m, newFrame, existing);
            && r.Success? && r.value[IPLS].Single?
            && var merged := r.value[IPLS].frame;
            && merged.id == existing.id && merged.body.pairsId == existing.body.pairsId
            && merged.body.pairs[..|existing.body.pairs|] == existing.body.pairs
            && merged.body.pairs[|existing.body.pairs|..] == newFrame.body.pairs
            && (forall k :: k in m && k != IPLS ==> r.value[k] == m[k])
  {
    var merged := existing.(body := existing.body.(pairs := existing.body.pairs + newFrame.body.pairs));
    assert merged.body.pairs[..|existing.body.pairs|] == existing.body.pairs;
  }

  /**
   * `AbstractID3v2Tag.copyFrameIntoMap`, which `addFrame` calls: a new key
   * is stored; a key holding a frame goes through `processDuplicateFrame`; a
   * key holding a list gets the frame appended; a duplicate aggregate is
   * ignored.
   */
  function CopiedIntoMap(m: FrameMap, id: string, f: Frame): (r: Result<FrameMap>)
  {
    if f.id in m then
      match m[f.id]
      case Single(existing) => DuplicateProcessed(m, f, existing)
      case Many(frames) => Success(m[f.id := Many(frames + [f])])
      case TyerTdat(_, _) => Success(m)
    else Success(m[id := Single(f)])
  }

  /** `copyFrameIntoMap` over a list of frames, in order; the first failure ends it. */
  function CopiedAllIntoMap(m: FrameMap, frames: seq<Frame>): (r: Result<FrameMap>)
    decreases |frames|
  {
    if |frames| == 0 then Success(m)
    else
      var prefix := CopiedAllIntoMap(m, frames[..|frames| - 1]);
      match prefix
      case Failure(e) => Failure(e)
      case Success(p) => CopiedIntoMap(p, frames[|frames| - 1].id, frames[|frames| - 1])
  }

  /** Copying one frame more: the frame after the prefix is copied into what the prefix left, unless the prefix failed. */
  lemma {:induction false} CopiedAllStep(m: FrameMap, frames: seq<Frame>, i: nat)
    requires i < |frames|
    ensures CopiedAllIntoMap(m, frames[..i + 1])
            == match CopiedAllIntoMap(m, frames[..i])
               case Failure(e) => Failure(e)
               case Success(p) => CopiedIntoMap(p, frames[i].id, frames[i])
  {
    assert frames[..i + 1][..i] == frames[..i];
  }

  /** Once copying a prefix of the frames has failed, copying all of them fails the same way. */
  lemma {:induction false} CopiedAllFailureSticks(m: FrameMap, frames: seq<Frame>, i: nat)
    requires i <= |frames| && CopiedAllIntoMap(m, frames[..i]).Failure?
    ensures CopiedAllIntoMap(m, frames) == CopiedAllIntoMap(m, frames[..i])
    decreases |frames|
  {
    if i == |frames| {
      assert frames[..i] == frames;
    } else {
      var front := frames[..|frames| - 1];
      assert front[..i] == frames[..i];
      CopiedAllFailureSticks(m, front, i);
    }
  }

  /**
   * `addFrame`: a v2.3 frame is copied into the map as it is; any other
   * frame is first converted, and a conversion that fails with
   * `InvalidFrameException` or one of its subclasses leaves the map as it was.
   */
  function AddedFrame(env: TagEnv, m: FrameMap, f: Frame, isV23: bool): (r: Result<FrameMap>)
  {
    if isV23 then CopiedIntoMap(m, f.id, f)
    else
      match ConvertedFrames(env, f)
      case Failure(e) => if IsInvalidFrameException(e) then Success(m) else Failure(e)
      case Success(frames) => CopiedAllIntoMap(m, frames)
  }

  /**
   * A failed conversion: the map stays as it was exactly when the error is an
   * `InvalidFrameException` (or a subclass), and any other error reaches the
   * caller unchanged.
   */
  lemma {:induction false} AddedFrameConversionFailure(env: TagEnv, m: FrameMap, f: Frame)
    requires ConvertedFrames(env, f).Failure?
    ensures var e := ConvertedFrames(env, f).error;
            && (IsInvalidFrameException(e) <==> AddedFrame(env, m, f, false) == Success(m))
            && (!IsInvalidFrameException(e) ==> AddedFrame(env, m, f, false) == Failure(e))
  {
  }

  /** Adding a v2.4 TIPL list to a tag that has an IPLS frame appends the list's pairs to that frame. */
  lemma {:induction false} AddedTiplMergesIntoIpls(env: TagEnv, m: FrameMap, f: Frame)
    requires f.id == TIPL && f.body.PairsBody? && f.body.pairsId == TIPL
    requires env.asV23Header(f, IPLS).id == IPLS
    requires IPLS in m && m[IPLS].Single? && IsIplsBody(m[IPLS].frame.body)
    ensures var r := AddedFrame(env, m, f, false);
            && r.Success? && r.value.Keys == m.Keys && r.value[IPLS].Single?
            && r.value[IPLS].frame.body.pairs == m[IPLS].frame.body.pairs + f.body.pairs
  {
    var g := env.asV23Header(f, IPLS).(body := PairsBody(IPLS, f.body.encoding, f.body.pairs));
    assert ConvertedFrames(env, f) == Success([g]);
    assert [g][..0] == [];
    assert CopiedAllIntoMap(m, [g]) == CopiedIntoMap(m, g.id, g);
  }

  // The YEAR field.

  /** The frames `createField(YEAR, value)` builds: a TYER frame, or the aggregate of a TYER and a TDAT frame. */
  datatype YearField = YearTyer(tyer: string) | YearTyerTdat(tyer: string, tdat: string)

  /**
   * `createField(YEAR, value)`: one to three characters are padded on the
   * left with zeros; four are taken as they are; longer values give the
   * year from the first four characters and, when a month is there
   * (characters 5 and 6), a TDAT of day and month: the day from characters
   * 8 and 9 when the value has ten characters or more, and 01 otherwise. An
   * empty value gives nothing.
   */
  function YearFields(value: string): (r: Option<YearField>)
  {
    var n := |value|;
    if n == 0 then None
    else if n == 1 then Some(YearTyer("000" + value))
    else if n == 2 then Some(YearTyer("00" + value))
    else if n == 3 then Some(YearTyer("0" + value))
    else if n == 4 then Some(YearTyer(value))
    else if n >= 10 then Some(YearTyerTdat(value[..4], value[8..10] + value[5..7]))
    else if n >= 7 then Some(YearTyerTdat(value[..4], "01" + value[5..7]))
    else Some(YearTyer(value[..4]))
  }

  /**
   * The year is always four characters, ending with the value's own
   * characters when it is shorter and being its first four otherwise; a
   * TDAT is four characters, day then month, present exactly when the value
   * has at least seven characters.
   */
  lemma {:induction false} YearFieldsShape(value: string)
    ensures YearFields(value).None? <==> |value| == 0
    ensures YearFields(value).Some? ==>
              var f := YearFields(value).value;
              && |f.tyer| == 4
              && (|value| <= 4 ==> f.tyer[4 - |value|..] == value && forall k :: 0 <= k < 4 - |value| ==> f.tyer[k] == '0')
              && (|value| > 4 ==> f.tyer == value[..4])
              && (f.YearTyerTdat? <==> |value| >= 7)
              && (f.YearTyerTdat? ==> |f.tdat| == 4 && f.tdat[2..] == value[5..7])
              && (f.YearTyerTdat? && |value| >= 10 ==> f.tdat[..2] == value[8..10])
              && (f.YearTyerTdat? && |value| < 10 ==> f.tdat[..2] == "01")
  {
    var n := |value|;
    if 0 < n <= 4 {
      var f := YearFields(value).value;
      var pad := if n == 1 then "000" else if n == 2 then "00" else if n == 3 then "0" else "";
      assert f.tyer == pad + value;
      assert f.tyer[4 - n..] == value;
    } else if n >= 10 {
      var f := YearFields(value).value;
      assert f.tdat == value[8..10] + value[5..7];
      assert f.tdat[2..] == value[5..7];
    } else if n >= 7 {
      var f := YearFields(value).value;
      assert f.tdat == "01" + value[5..7];
      assert f.tdat[2..] == value[5..7];
    }
  }

  // Writing the tag header and the tag size.

  /**
   * The ten header bytes `writeHeaderToBuffer` puts out: "ID3", version 3.0,
   * the flag byte, and the syncsafe size of padding and body. The extended
   * header is never written, so it adds nothing.
   */
  function TagHeaderBytes(unsync: bool, size: int): (r: seq<byte>)
    ensures |r| == TAG_HEADER_LENGTH
  {
    TAG_ID + [MAJOR_VERSION, REVISION, WrittenTagFlags(unsync)] + SyncSafeBytes(size)
  }

  /** `getSize`: the header, the extended header when present (with its CRC when flagged), and the frames. */
  function TagSize(extended: bool, crcDataFlag: bool, framesSize: int): int
  {
    TAG_HEADER_LENGTH + (if extended then TAG_EXT_HEADER_LENGTH + (if crcDataFlag then TAG_EXT_HEADER_CRC_LENGTH else 0) else 0)
    + framesSize
  }

  /**
   * The header is read back as written: tag identifier and version, the
   * flags as `readHeaderFlags` sees them, and the size of padding and body.
   * `getSize` of the tag as written counts exactly the header and the frames.
   */
  lemma {:induction false} TagHeaderReadBack(t: TagFields, unsync: bool, padding: int, size: int, framesSize: int)
    requires 0 <= padding + size < 0x1000_0000
    ensures var h := TagHeaderBytes(unsync, padding + size);
            && h[..3] == TAG_ID && h[3] == MAJOR_VERSION && h[4] == REVISION
            && HeaderFlagsApplied(t, h[5]).unsynchronization == unsync
            && !HeaderFlagsApplied(t, h[5]).extended && !HeaderFlagsApplied(t, h[5]).experimental
            && SyncSafeAt(h, 6) == padding + size
    ensures TagSize(false, t.crcDataFlag, framesSize) == |TagHeaderBytes(unsync, padding + size)| + framesSize
  {
    var h := TagHeaderBytes(unsync, padding + size);
    WrittenTagFlagsReadBack(t, unsync);
    SyncSafeRoundTrip(padding + size);
    assert h[6..10] == SyncSafeBytes(padding + size);
    assert SyncSafeAt(h, 6) == SyncSafeAt(h[6..10], 0);
  }

  // Reading a whole tag.

  /** How `read(ByteBuffer)` ended: no tag, an exception while reading the headers, or the frames scanned. */
  datatype TagOutcome = TagNotFound | TagFailed(error: FrameError) | FramesRead(end: ScanEnd)

  /**
   * `read(ByteBuffer)` on the bytes w from the position: after the tag
   * identifier and version that `seek` finds come the flag byte and the
   * syncsafe tag size; the extended header follows when flagged; the rest,
   * synchronised when the tag is unsynchronised, is scanned for frames up to
   * the tag size. A relative get past the limit throws.
   */
  function TagReadFrom(env: TagEnv, w: seq<byte>, t: TagFields): (r: (TagOutcome, TagFields))
  {
    var h := TagHeadersRead(env, w, t);
    if h.stop.Some? then (h.stop.value, h.fields)
    else
      var rest := w[h.offset..];
      var frames := if h.fields.unsynchronization then Sync(rest) else rest;
      var s := ScanFrames(env, frames, 0, h.size, h.fields.scan.(frameMap := map[], encryptedFrameMap := map[]));
      (FramesRead(s.end), h.fields.(fileReadSize := h.size, scan := s.state))
  }

  /** What reading the headers of a tag did: how it stopped if it did, the fields, the tag size and where the frames start. */
  datatype HeadersRead = HeadersRead(stop: Option<TagOutcome>, fields: TagFields, size: nat, offset: nat)

  /** The headers part of `read(ByteBuffer)`: identifier and version, flags, tag size and the extended header. */
  function TagHeadersRead(env: TagEnv, w: seq<byte>, t: TagFields): (r: HeadersRead)
    ensures r.offset <= |w|
  {
    match env.seek(w)
    case None => HeadersRead(Some(TagNotFound), t, 0, 0)
    case Some(n) =>
      var k := Min(n, |w|);
      if |w| < k + 1 then HeadersRead(Some(TagFailed(Unchecked)), t, 0, 0)
      else
        var t1 := HeaderFlagsApplied(t, w[k]);
        if |w| < k + 5 then HeadersRead(Some(TagFailed(Unchecked)), t1, 0, 0)
        else
          var size := SyncSafeAt(w, k + 1);
          var e := if t1.extended then ExtendedHeaderRead(w[k + 5..], t1) else ExtendedRead(Ok, t1, 0);
          if e.outcome.Err? then HeadersRead(Some(TagFailed(e.outcome.error)), e.fields, 0, 0)
          else HeadersRead(None, e.fields, size, k + 5 + e.consumed)
  }

  /**
   * A tag that starts with the header `writeHeaderToBuffer` puts out is read
   * back with the flags and the size written, and its frames, unsynchronised
   * when the flag says so, are scanned as they were before unsynchronisation.
   */
  lemma {:induction false} WrittenHeaderRead(env: TagEnv, t: TagFields, unsync: bool, size: int, frames: seq<byte>)
    requires 0 <= size < 0x1000_0000
    requires var w := TagHeaderBytes(unsync, size) + (if unsync then Unsync(frames) else frames);
             env.seek(w) == Some(5)
    ensures var w := TagHeaderBytes(unsync, size) + (if unsync then Unsync(frames) else frames);
            var s := ScanFrames(env, frames, 0, size, t.scan.(frameMap := map[], encryptedFrameMap := map[]));
            var t1 := t.(unsynchronization := unsync, extended := false, experimental := false);
            TagReadFrom(env, w, t) == (FramesRead(s.end), t1.(fileReadSize := size, scan := s.state))
  {
    var h := TagHeaderBytes(unsync, size);
    var body := if unsync then Unsync(frames) else frames;
    var w := h + body;
    TagHeaderReadBack(t, unsync, 0, size, 0);
    assert w[5] == h[5];
    assert w[6..10] == h[6..10];
    assert SyncSafeAt(w, 6) == SyncSafeAt(h, 6);
    assert w[10..] == body;
    if unsync {
      SyncUnsync(frames);
    }
  }

  // The tag.

  class ID3v23Tag {
    var unsynchronization: bool
    var extended: bool
    var experimental: bool
    var crcDataFlag: bool
    var crc32: int
    var paddingSize: int
    var fileReadSize: int
    var frameMap: FrameMap
    var encryptedFrameMap: FrameMap
    var invalidFrames: int
    var emptyFrameBytes: int
    var duplicateFrameId: string
    var duplicateBytes: int

    ghost function Fields(): TagFields
      reads this
    {
      TagFields(unsynchronization, extended, experimental, crcDataFlag, crc32, paddingSize, fileReadSize,
                ScanState(frameMap, encryptedFrameMap, invalidFrames, emptyFrameBytes, duplicateFrameId, duplicateBytes))
    }

    /** `ID3v23Tag()`: no flags, no frames, nothing counted. */
    constructor ()
      ensures Fields() == TagFields(false, false, false, false, 0, 0, 0, ScanState(map[], map[], 0, 0, "", 0))
    {
      unsynchronization, extended, experimental, crcDataFlag := false, false, false, false;
      crc32, paddingSize, fileReadSize := 0, 0, 0;
      frameMap, encryptedFrameMap := map[], map[];
      invalidFrames, emptyFrameBytes, duplicateFrameId, duplicateBytes := 0, 0, "", 0;
    }

    method ReadHeaderFlags(flags: byte)
      modifies this
      ensures Fields() == HeaderFlagsApplied(old(Fields()), flags)
    {
      unsynchronization := HasBit(flags, UNSYNCHRONIZATION_BIT);
      extended := HasBit(flags, EXTENDED_HEADER_BIT);
      experimental := HasBit(flags, EXPERIMENTAL_BIT);
    }

    /** `readExtendedHeader(ByteBuffer, int)`, proved to follow `ExtendedHeaderRead`. */
    method ReadExtendedHeader(buf: ByteBuffer) returns (r: Outcome)
      requires buf.Valid()
      modifies this, buf
      ensures buf.Valid() && buf.content == old(buf.content) && buf.limit == old(buf.limit)
      ensures var e := ExtendedHeaderRead(old(buf.Window()), old(Fields()));
              r == e.outcome && Fields() == e.fields && buf.position == old(buf.position) + e.consumed
    {
      ghost var w := buf.Window();
      if buf.Remaining() < 4 {
        return Err(Unchecked);
      }
      var extendedHeaderSize := buf.GetInt();
      assert extendedHeaderSize == Int32At(w, 0);
      if extendedHeaderSize == TAG_EXT_HEADER_DATA_LENGTH as int
         || extendedHeaderSize == (TAG_EXT_HEADER_DATA_LENGTH + TAG_EXT_HEADER_CRC_LENGTH) as int {
        assert buf.Window() == w[4..];
        var complete := ReadExtendedData(buf, extendedHeaderSize == (TAG_EXT_HEADER_DATA_LENGTH + TAG_EXT_HEADER_CRC_LENGTH) as int);
        r := if complete then Ok else Err(Unchecked);
      } else {
        buf.SetPosition(buf.position - FIELD_TAG_EXT_SIZE_LENGTH);
        r := Ok;
      }
    }

    /** The part of `readExtendedHeader(ByteBuffer, int)` after the size, proved to follow `ExtendedDataRead`. */
    method ReadExtendedData(buf: ByteBuffer, withCrc: bool) returns (complete: bool)
      requires buf.Valid()
      modifies this, buf
      ensures buf.Valid() && buf.content == old(buf.content) && buf.limit == old(buf.limit)
      ensures var d := ExtendedDataRead(old(buf.Window()), old(Fields()), withCrc);
              complete == d.complete && Fields() == d.fields && buf.position == old(buf.position) + d.consumed
    {
      ghost var d := buf.Window();
      ghost var p0 := buf.position;
      if buf.Remaining() < 1 {
        return false;
      }
      var extFlag := buf.Get();
      assert extFlag == d[0];
      crcDataFlag := HasBit(extFlag, CRC_DATA_PRESENT_BIT);
      if buf.Remaining() < 1 {
        return false;
      }
      var _ := buf.Get();
      if buf.Remaining() < 4 {
        return false;
      }
      assert buf.position == p0 + 2;
      paddingSize := buf.GetInt();
      assert paddingSize == Int32At(d, 2);
      if withCrc {
        if buf.Remaining() < 4 {
          return false;
        }
        assert buf.position == p0 + 6;
        crc32 := buf.GetInt();
        assert crc32 == Int32At(d, 6);
      }
      complete := true;
    }

    /** `readExtendedHeader(Buffer)`, proved to follow `SourceExtendedHeaderRead`. */
    method ReadSourceExtendedHeader(src: Source) returns (r: Result<int>)
      modifies this, src
      ensures var e := SourceExtendedHeaderRead(old(src.bytes), old(Fields()));
              r == e.0 && Fields() == e.1 && src.bytes == old(src.bytes)[e.2..]
    {
      ghost var t := src.bytes;
      if src.Size() < 4 {
        return Failure(Unchecked);
      }
      var extendedHeaderSize := src.ReadInt();
      if extendedHeaderSize != TAG_EXT_HEADER_DATA_LENGTH as int
         && extendedHeaderSize != (TAG_EXT_HEADER_DATA_LENGTH + TAG_EXT_HEADER_CRC_LENGTH) as int {
        return Failure(InvalidTag);
      }
      var complete := ReadSourceExtendedData(src, extendedHeaderSize == (TAG_EXT_HEADER_DATA_LENGTH + TAG_EXT_HEADER_CRC_LENGTH) as int);
      assert t[4..][ExtendedDataRead(t[4..], old(Fields()), extendedHeaderSize == 10).consumed..]
             == t[4 + ExtendedDataRead(t[4..], old(Fields()), extendedHeaderSize == 10).consumed..];
      r := if complete then Success(extendedHeaderSize) else Failure(Unchecked);
    }

    /** The part of `readExtendedHeader(Buffer)` after the size, proved to follow `ExtendedDataRead`. */
    method ReadSourceExtendedData(src: Source, withCrc: bool) returns (complete: bool)
      modifies this, src
      ensures var d := ExtendedDataRead(old(src.bytes), old(Fields()), withCrc);
              complete == d.complete && Fields() == d.fields && src.bytes == old(src.bytes)[d.consumed..]
    {
      ghost var d := src.bytes;
      if src.Size() < 1 {
        return false;
      }
      var extFlag := src.ReadByte();
      crcDataFlag := HasBit(extFlag, CRC_DATA_PRESENT_BIT);
      if src.Size() < 1 {
        return false;
      }
      var _ := src.ReadByte();
      if src.Size() < 4 {
        return false;
      }
      assert src.bytes == d[2..];
      paddingSize := src.ReadInt();
      assert paddingSize == Int32At(d, 2);
      if withCrc {
        if src.Size() < 4 {
          return false;
        }
        assert src.bytes == d[6..];
        crc32 := src.ReadInt();
        assert crc32 == Int32At(d, 6);
      }
      complete := true;
    }

    /** `processDuplicateFrame`, proved to follow `DuplicateProcessed`. */
    method ProcessDuplicateFrame(newFrame: Frame, existing: Frame) returns (r: Outcome)
      modifies this
      ensures var d := DuplicateProcessed(old(frameMap), newFrame, existing);
              && (d.Success? ==> r == Ok && Fields() == old(Fields()).(scan := old(Fields()).scan.(frameMap := d.value)))
              && (d.Failure? ==> r == Err(d.error) && Fields() == old(Fields()))
    {
      if newFrame.id == IPLS {
        if !IsIplsBody(existing.body) || !IsIplsBody(newFrame.body) {
          return Err(Unchecked);
        }
        var oldVps := existing.body.pairs;
        var newVps := newFrame.body.pairs;
        for i := 0 to |newVps|
          invariant oldVps == existing.body.pairs + newVps[..i]
        {
          oldVps := oldVps + [newVps[i]];
        }
        assert newVps[..|newVps|] == newVps;
        frameMap := frameMap[IPLS := Single(existing.(body := existing.body.(pairs := oldVps)))];
      } else {
        frameMap := frameMap[newFrame.id := Many([existing, newFrame])];
      }
      r := Ok;
    }

    /** `AbstractID3v2Tag.copyFrameIntoMap`, as `CopiedIntoMap` describes it. */
    method CopyFrameIntoMap(id: string, f: Frame) returns (r: Outcome)
      modifies this
      ensures var c := CopiedIntoMap(old(frameMap), id, f);
              && (c.Success? ==> r == Ok && Fields() == old(Fields()).(scan := old(Fields()).scan.(frameMap := c.value)))
              && (c.Failure? ==> r == Err(c.error) && Fields() == old(Fields()))
    {
      if f.id in frameMap {
        match frameMap[f.id] {
          case Single(existing) =>
            r := ProcessDuplicateFrame(f, existing);
          case Many(frames) =>
            frameMap := frameMap[f.id := Many(frames + [f])];
            r := Ok;
          case TyerTdat(_, _) =>
            r := Ok;
        }
      } else {
        frameMap := frameMap[id := Single(f)];
        r := Ok;
      }
    }

    /**
     * `addFrame`, proved to follow `AddedFrame`. When copying one of the
     * converted frames fails, the frames copied before it stay in the map.
     */
    method AddFrame(env: TagEnv, f: Frame, isV23: bool) returns (r: Outcome)
      modifies this
      ensures var a := AddedFrame(env, old(frameMap), f, isV23);
              && (a.Success? ==> r == Ok && Fields() == old(Fields()).(scan := old(Fields()).scan.(frameMap := a.value)))
              && (a.Failure? ==> r == Err(a.error) && Fields().(scan := Fields().scan.(frameMap := old(frameMap))) == old(Fields()))
    {
      if isV23 {
        r := CopyFrameIntoMap(f.id, f);
        return;
      }
      var converted := ConvertedFrames(env, f);
      if converted.Failure? && IsInvalidFrameException(converted.error) {
        return Ok;
      }
      if converted.Failure? {
        return Err(converted.error);
      }
      var frames := converted.value;
      ghost var m0 := frameMap;
      ghost var f0 := Fields();
      for i := 0 to |frames|
        invariant CopiedAllIntoMap(m0, frames[..i]) == Success(frameMap)
        invariant Fields().(scan := Fields().scan.(frameMap := m0)) == f0
      {
        CopiedAllStep(m0, frames, i);
        var c := CopyFrameIntoMap(frames[i].id, frames[i]);
        if c.Err? {
          CopiedAllFailureSticks(m0, frames, i + 1);
          return c;
        }
      }
      assert frames[..|frames|] == frames;
      r := Ok;
    }

    /** `loadFrameIntoSpecifiedMap` on the map m, proved to follow `LoadedIntoSpecifiedMap`. */
    method LoadFrameIntoSpecifiedMap(env: TagEnv, m: FrameMap, frameId: string, frame: Frame) returns (r: Result<FrameMap>)
      modifies this
      ensures var l := LoadedIntoSpecifiedMap(env, m, old(duplicateFrameId), old(duplicateBytes), frameId, frame);
              && (l.Success? <==> r.Success?)
              && (l.Success? ==> r.value == l.value.m && duplicateFrameId == l.value.duplicateFrameId
                                 && duplicateBytes == l.value.duplicateBytes)
              && (l.Failure? ==> r.error == l.error && duplicateFrameId == old(duplicateFrameId)
                                 && duplicateBytes == old(duplicateBytes))
      ensures Fields().(scan := Fields().scan.(duplicateFrameId := old(duplicateFrameId), duplicateBytes := old(duplicateBytes)))
              == old(Fields())
    {
      if frameId != TYER && frameId != TDAT {
        return Success(env.loadOther(m, frameId, frame));
      }
      if frameId == TDAT && |Content(frame.body)| == 0 {
        return Success(m);
      }
      if frameId in m || TYER_TDAT in m {
        if |duplicateFrameId| > 0 {
          duplicateFrameId := duplicateFrameId + ";";
        }
        duplicateFrameId := duplicateFrameId + frameId;
        duplicateBytes := duplicateBytes + env.frameSize(frame);
        return Success(m);
      }
      if frameId == TYER {
        if TDAT in m {
          if !m[TDAT].Single? {
            return Failure(Unchecked);
          }
          var ag := TyerTdat(frame, m[TDAT].frame);
          r := Success(m - {TDAT} + map[TYER_TDAT := ag]);
        } else {
          r := Success(m[TYER := Single(frame)]);
        }
      } else {
        if TYER in m {
          if !m[TYER].Single? {
            return Failure(Unchecked);
          }
          var ag := TyerTdat(m[TYER].frame, frame);
          r := Success(m - {TYER} + map[TYER_TDAT := ag]);
        } else {
          r := Success(m[TDAT := Single(frame)]);
        }
      }
    }

    /** `loadFrameIntoMap`, proved to follow `LoadedIntoMap`. */
    method LoadFrameIntoMap(env: TagEnv, frameId: string, frame: Frame) returns (r: Outcome)
      modifies this
      ensures var l := LoadedIntoMap(env, old(Fields()).scan, frameId, frame);
              && (l.Success? ==> r == Ok && Fields() == old(Fields()).(scan := l.value))
              && (l.Failure? ==> r == Err(l.error) && Fields() == old(Fields()))
    {
      var next := frame;
      if next.body.GenreBody? {
        next := next.(body := next.body.(v23Format := true));
      }
      var m: Result<FrameMap>;
      if next.body.EncryptedBody? {
        m := LoadFrameIntoSpecifiedMap(env, encryptedFrameMap, frameId, next);
        if m.Failure? {
          return Err(m.error);
        }
        encryptedFrameMap := m.value;
      } else {
        m := LoadFrameIntoSpecifiedMap(env, frameMap, frameId, next);
        if m.Failure? {
          return Err(m.error);
        }
        frameMap := m.value;
      }
      r := Ok;
    }

    /**
     * The `catch` clauses of either `readFrames` on one read (the `Buffer`
     * one when fromSource): whether the loop goes on, how it ends otherwise,
     * and what is counted or loaded.
     */
    method ApplyRead(env: TagEnv, st: Result<Frame>, fromSource: bool) returns (goOn: bool, end: ScanEnd)
      modifies this
      ensures var p := if fromSource then SourceScanPolicy(env, old(Fields()).scan, st) else ScanPolicy(env, old(Fields()).scan, st);
              && goOn == p.0.Some? && end == p.1
              && Fields() == old(Fields()).(scan := if goOn then p.0.value else StoppedState(old(Fields()).scan, st))
    {
      if fromSource && (st == Failure(EndOfStream) || st == Failure(InvalidTag)) {
        invalidFrames := invalidFrames + 1;
        return true, Finished;
      }
      match st {
        case Success(next) =>
          var loaded := LoadFrameIntoMap(env, next.id, next);
          if loaded.Err? {
            return false, Thrown(loaded.error);
          }
          return true, Finished;
        case Failure(Padding) =>
          return false, Finished;
        case Failure(EmptyFrame) =>
          emptyFrameBytes := emptyFrameBytes + FRAME_HEADER_SIZE;
          return true, Finished;
        case Failure(InvalidFrameIdentifier) =>
          invalidFrames := invalidFrames + 1;
          return false, Finished;
        case Failure(InvalidFrame) =>
          invalidFrames := invalidFrames + 1;
          return false, Finished;
        case Failure(InvalidDataType) =>
          invalidFrames := invalidFrames + 1;
          return true, Finished;
        case Failure(e) =>
          return false, Thrown(e);
      }
    }

    /**
     * One turn of the loop of `readFrames(ByteBuffer, int)`: either the scan
     * ends here, as `ScanFrames` says it does, or it goes on from a later
     * position with the same outcome still ahead.
     */
    method ReadOneFrame(env: TagEnv, buf: ByteBuffer, size: int) returns (goOn: bool, end: ScanEnd)
      requires buf.Valid() && buf.limit == |buf.content| && buf.position < size
      modifies this, buf
      ensures buf.Valid() && buf.content == old(buf.content) && buf.limit == old(buf.limit)
      ensures Fields().(scan := old(Fields()).scan) == old(Fields())
      ensures var r := ScanFrames(env, buf.content, old(buf.position), size, old(Fields()).scan);
              && (!goOn ==> r == Scanned(end, Fields().scan, buf.position))
              && (goOn ==> buf.position > old(buf.position) && r == ScanFrames(env, buf.content, buf.position, size, Fields().scan))
    {
      var pos := buf.position;
      var st := env.readFrame(buf.Window());
      assert buf.Window() == buf.content[pos..];
      buf.SetPosition(buf.position + Min(st.consumed, buf.Remaining()));
      goOn, end := ApplyRead(env, st.result, false);
      if goOn && buf.position == pos {
        goOn, end := false, Stuck;
      }
    }

    /** `readFrames(ByteBuffer, int)` over the bytes of buf (a slice, so its position starts at 0). */
    method ReadFrames(env: TagEnv, buf: ByteBuffer, size: int) returns (end: ScanEnd)
      requires buf.Valid() && buf.position == 0 && buf.limit == |buf.content|
      modifies this, buf
      ensures var s := ScanFrames(env, old(buf.content), 0, size,
                                  old(Fields()).scan.(frameMap := map[], encryptedFrameMap := map[]));
              && end == s.end && Fields() == old(Fields()).(fileReadSize := size, scan := s.state)
              && buf.content == old(buf.content) && buf.position == s.position
    {
      ghost var w := buf.content;
      ghost var f0 := Fields();
      frameMap := map[];
      encryptedFrameMap := map[];
      fileReadSize := size;
      ghost var goal := ScanFrames(env, w, 0, size, Fields().scan);
      while buf.position < size
        invariant buf.Valid() && buf.content == w && buf.limit == |w|
        invariant ScanFrames(env, w, buf.position, size, Fields().scan) == goal
        invariant Fields().(scan := f0.scan) == f0.(fileReadSize := size)
        decreases |w| - buf.position
      {
        var goOn, e := ReadOneFrame(env, buf, size);
        if !goOn {
          return e;
        }
      }
      end := Finished;
    }

    /** `readFrames(Buffer, int)` over the bytes left in src. */
    method ReadSourceFrames(env: TagEnv, src: Source, size: int) returns (end: ScanEnd)
      modifies this, src
      ensures var s := ScanSourceFrames(env, old(src.bytes), old(Fields()).scan.(frameMap := map[], encryptedFrameMap := map[]));
              && end == s.0 && Fields() == old(Fields()).(fileReadSize := size, scan := s.1) && src.bytes == s.2
    {
      ghost var f0 := Fields();
      frameMap := map[];
      encryptedFrameMap := map[];
      fileReadSize := size;
      ghost var goal := ScanSourceFrames(env, src.bytes, Fields().scan);
      while src.Size() > 0
        invariant ScanSourceFrames(env, src.bytes, Fields().scan) == goal
        invariant Fields().(scan := f0.scan) == f0.(fileReadSize := size)
        decreases |src.bytes|
      {
        var t := src.bytes;
        var st := env.readSourceFrame(src.bytes);
        var _ := src.Take(Min(st.consumed, src.Size()));
        var goOn, e := ApplyRead(env, st.result, true);
        if !goOn {
          return e;
        }
        if |src.bytes| == |t| {
          return Stuck;
        }
      }
      end := Finished;
    }

    /** `read(ByteBuffer)`, proved to follow `TagReadFrom`. */
    method Read(env: TagEnv, buf: ByteBuffer) returns (r: TagOutcome)
      requires buf.Valid()
      modifies this, buf
      ensures buf.Valid() && buf.content == old(buf.content) && buf.limit == old(buf.limit)
      ensures (r, Fields()) == TagReadFrom(env, old(buf.Window()), old(Fields()))
    {
      ghost var w := buf.Window();
      var stop, size := ReadHeaders(env, buf);
      if stop.Some? {
        return stop.value;
      }
      assert buf.Window() == w[TagHeadersRead(env, w, old(Fields())).offset..];
      var body := buf.Slice();
      if unsynchronization {
        body := new ByteBuffer.Wrap(Sync(body.content));
      }
      var end := ReadFrames(env, body, size);
      r := FramesRead(end);
    }

    /** The headers part of `read(ByteBuffer)`, proved to follow `TagHeadersRead`. */
    method ReadHeaders(env: TagEnv, buf: ByteBuffer) returns (stop: Option<TagOutcome>, size: nat)
      requires buf.Valid()
      modifies this, buf
      ensures buf.Valid() && buf.content == old(buf.content) && buf.limit == old(buf.limit)
      ensures var h := TagHeadersRead(env, old(buf.Window()), old(Fields()));
              && stop == h.stop && Fields() == h.fields
              && (stop.None? ==> size == h.size && buf.position == old(buf.position) + h.offset)
    {
      ghost var w := buf.Window();
      ghost var p0 := buf.position;
      var found := env.seek(buf.Window());
      if found.None? {
        return Some(TagNotFound), 0;
      }
      ghost var k := Min(found.value, |w|);
      buf.SetPosition(buf.position + Min(found.value, buf.Remaining()));
      if buf.Remaining() < 1 {
        return Some(TagFailed(Unchecked)), 0;
      }
      var flags := buf.Get();
      assert flags == w[k];
      ReadHeaderFlags(flags);
      if buf.Remaining() < 4 {
        return Some(TagFailed(Unchecked)), 0;
      }
      assert buf.position == p0 + k + 1;
      var sizeBytes := buf.GetBytes(4);
      assert sizeBytes == buf.content[p0 + k + 1..p0 + k + 5];
      assert w[k + 1..k + 5] == buf.content[p0 + k + 1..p0 + k + 5];
      size := SyncSafeAt(sizeBytes, 0);
      assert buf.Window() == w[k + 5..];
      if extended {
        var e := ReadExtendedHeader(buf);
        if e.Err? {
          return Some(TagFailed(e.error)), 0;
        }
      }
      stop := None;
    }

    /**
     * `writeHeaderToBuffer(padding, size)`: the extended, experimental and
     * CRC flags are cleared, and the header carries the unsynchronisation
     * flag and the size of padding and body.
     */
    method WriteHeaderToBuffer(padding: int, size: int) returns (header: seq<byte>)
      modifies this
      ensures Fields() == old(Fields()).(extended := false, experimental := false, crcDataFlag := false)
      ensures header == TagHeaderBytes(unsynchronization, padding + size)
    {
      extended := false;
      experimental := false;
      crcDataFlag := false;
      var flagsByte: byte := 0;
      if unsynchronization {
        flagsByte := WithBit(flagsByte, UNSYNCHRONIZATION_BIT);
      }
      header := TAG_ID + [MAJOR_VERSION, REVISION, flagsByte] + SyncSafeBytes(padding + size);
    }

    function GetSize(framesSize: int): (r: int)
      reads this
      ensures r == TagSize(extended, crcDataFlag, framesSize)
    {
      var size := TAG_HEADER_LENGTH;
      var size := if extended then size + TAG_EXT_HEADER_LENGTH + (if crcDataFlag then TAG_EXT_HEADER_CRC_LENGTH else 0) else size;
      size + framesSize
    }
  }
}
