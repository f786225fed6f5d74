/**
 * `ID3v24Frame`: reading one ID3v2.4 frame from a `ByteBuffer` or an okio
 * `Buffer`, and writing it back. The header is read as
 * `Id3v24FrameHeader` defines; the body readers, decompression and the
 * frame-body classes are the library's other code and come in through a
 * `FrameEnv`.
 */
module Id3v24Frame {
  import opened Bytes
  import opened Id3Codecs
  import opened Id3Frames
  import opened Id3v24Flags
  import opened Id3v24FrameHeader
  import opened Buffers

  /**
   * The collaborators a frame read calls. Each reader is given the bytes it
   * may read and a size, and says how many of those bytes it took.
   */
  datatype FrameEnv = FrameEnv(
    /** `ID3v24Frames.isDiscardIfFileAltered` */
    discardIfFileAltered: string -> bool,
    /** whether a body class implements `ID3v24FrameBody` */
    isV24Body: FrameBody -> bool,
    /** `AbstractID3v2Frame.isArtworkFrameId` */
    isArtworkFrameId: string -> bool,
    /** `readBody(identifier, buffer, size)` */
    readBody: (string, seq<byte>, int) -> Step<FrameBody>,
    /** `readEncryptedBody(identifier, buffer, size)` */
    readEncryptedBody: (string, seq<byte>, int) -> Step<FrameBody>,
    /** `ID3Compression.uncompress(identifier, file, buffer, decompressedSize, realSize)` */
    uncompress: (string, seq<byte>, int, int) -> Step<seq<byte>>,
    /** `decompressPartOfBuffer(buffer, size, decompressedSize)` */
    decompress: (seq<byte>, int, int) -> Step<seq<byte>>)

  /** A body class that is not a v2.4 one is kept as a `FrameBodyDeprecated`. */
  function AsV24Body(env: FrameEnv, b: FrameBody): FrameBody
  {
    if env.isV24Body(b) then b else DeprecatedBody(b)
  }

  function WrapBody(env: FrameEnv, r: Result<FrameBody>): (w: Result<FrameBody>)
    ensures w.Failure? <==> r.Failure?
    ensures r.Failure? ==> w.error == r.error
  {
    match r
    case Success(b) => Success(AsV24Body(env, b))
    case Failure(e) => Failure(e)
  }

  /**
   * `read(ByteBuffer)` from the end of the header: wb holds the bytes from
   * just after the extra header bytes to the limit, and the step says how far
   * the buffer's position moves. The data must fit the space left
   * (`limit(realFrameSize)`), the body is read from the frame's data (or, when
   * compressed or encrypted, from the buffer itself), and the position then
   * moves on by the data's size, which must again stay within the limit.
   */
  function ByteBufferBody(env: FrameEnv, h: Header, wb: seq<byte>): (r: Step<FrameBody>)
    ensures r.consumed <= |wb|
  {
    var rf := h.RealFrameSize();
    if rf < 0 || rf > |wb| then Step(Failure(Unchecked), 0)
    else
      var read := ByteBufferBodyRead(env, h, wb);
      if read.consumed + rf > |wb| then Step(Failure(Unchecked), read.consumed)
      else Step(WrapBody(env, read.result), read.consumed + rf)
  }

  /**
   * The body reader `read(ByteBuffer)` picks: decompression from the frame's
   * buffer, then decryption or the plain body reader; decryption alone; or
   * the plain body reader over `BodyInput`, which does not move the frame's
   * buffer.
   */
  function ByteBufferBodyRead(env: FrameEnv, h: Header, wb: seq<byte>): (r: Step<FrameBody>)
    requires 0 <= h.RealFrameSize() <= |wb|
    ensures r.consumed <= |wb|
  {
    var rf := h.RealFrameSize();
    if HasBit(h.encodingFlags, COMPRESSION) then
      var u := env.uncompress(h.id, wb, h.dataLengthSize, rf);
      var used := Min(u.consumed, |wb|);
      match u.result
      case Failure(e) => Step(Failure(e), used)
      case Success(data) =>
        if HasBit(h.encodingFlags, ENCRYPTION) then
          Step(env.readEncryptedBody(h.id, data, h.dataLengthSize).result, used)
        else Step(env.readBody(h.id, data, h.dataLengthSize).result, used)
    else if HasBit(h.encodingFlags, ENCRYPTION) then
      var e := env.readEncryptedBody(h.id, wb, h.frameSize);
      Step(e.result, Min(e.consumed, |wb|))
    else
      var input := BodyInput(h, wb);
      Step(env.readBody(h.id, input, |input|).result, 0)
  }


  /** `skip(n)` on the bytes t: how many it takes, and whether it ran out. */
  function SkipStep(t: seq<byte>, n: int): (r: Step<()>)
    ensures r.consumed <= |t|
  {
    if n <= 0 then Step(Success(()), 0)
    else if n <= |t| then Step(Success(()), n)
    else Step(Failure(EndOfStream), |t|)
  }

  /**
   * The `try` block of `read(Buffer, boolean)`: t is what is left in the
   * buffer after the extra header bytes; the step says how many of those the
   * block takes. Artwork may be skipped unread; an unsynchronised frame's
   * data is first moved out of the buffer and synchronised, so the readers
   * then take nothing from the buffer itself.
   */
  function SourceBodyTry(env: FrameEnv, h: Header, t: seq<byte>, ignoreArtwork: bool): (r: Step<Option<FrameBody>>)
    ensures r.consumed <= |t|
  {
    var rf := h.RealFrameSize();
    if ignoreArtwork && env.isArtworkFrameId(h.id) then
      var s := SkipStep(t, rf);
      Step(if s.result.Success? then Success(None) else Failure(s.result.error), s.consumed)
    else if HasBit(h.encodingFlags, FRAME_UNSYNCHRONIZATION) && rf < 0 then
      // `read(sink, byteCount)` refuses a negative count
      Step(Failure(Unchecked), 0)
    else
      var unsync := HasBit(h.encodingFlags, FRAME_UNSYNCHRONIZATION);
      var moved := if unsync then Min(rf, |t|) else 0;
      var input := if unsync then Sync(t[..moved]) else t;
      var syncSize := if unsync then |input| else rf;
      var read: Step<FrameBody> :=
        if HasBit(h.encodingFlags, COMPRESSION) then
          var d := env.decompress(input, syncSize, h.dataLengthSize);
          var used := if unsync then 0 else Min(d.consumed, |t|);
          match d.result
          case Failure(e) => Step(Failure(e), used)
          case Success(data) =>
            if HasBit(h.encodingFlags, ENCRYPTION) then
              Step(env.readEncryptedBody(h.id, data, h.dataLengthSize).result, used)
            else Step(env.readBody(h.id, data, h.dataLengthSize).result, used)
        else
          var b := if HasBit(h.encodingFlags, ENCRYPTION) then env.readEncryptedBody(h.id, input, syncSize)
                   else env.readBody(h.id, input, syncSize);
          Step(b.result, if unsync then 0 else Min(b.consumed, |t|));
      var result := match WrapBody(env, read.result)
                    case Success(b) => Success(Some(b))
                    case Failure(e) => Failure(e);
      Step(result, moved + read.consumed)
  }

  /**
   * The whole of `read(Buffer, boolean)` after the header: the `try` block,
   * then the `finally` block that skips on until at most
   * `sizeBeforeRead - realFrameSize` bytes are left (running out is an
   * `EOFException`, which replaces the block's outcome), then the unchecked
   * exceptions turned into `InvalidFrameException`. `before` is the size of
   * the buffer when `read` began and t what is left after the header.
   */
  function SourceBody(env: FrameEnv, h: Header, t: seq<byte>, before: nat, ignoreArtwork: bool): (r: Step<Option<FrameBody>>)
    ensures r.consumed <= |t|
  {
    var tried := SourceBodyTry(env, h, t, ignoreArtwork);
    var left := |t| - tried.consumed;
    var desired := before - h.RealFrameSize();
    var fin := if left > desired then SkipStep(t[tried.consumed..], left - desired) else Step(Success(()), 0);
    var result := if fin.result.Failure? then Failure(fin.result.error) else tried.result;
    var reported := if result == Failure(Unchecked) then Failure(InvalidFrame) else result;
    Step(reported, tried.consumed + fin.consumed)
  }

  /**
   * The position of the `Buffer` after the body is read: at most
   * `sizeBeforeRead - realFrameSize` bytes are left (none when that is
   * negative), whatever the body readers did.
   */
  lemma {:induction false} SourceBodyLeavesAtMost(env: FrameEnv, h: Header, t: seq<byte>, before: nat, ignoreArtwork: bool)
    ensures var r := SourceBody(env, h, t, before, ignoreArtwork);
            |t| - r.consumed <= if before - h.RealFrameSize() < 0 then 0 else before - h.RealFrameSize()
  {
    var tried := SourceBodyTry(env, h, t, ignoreArtwork);
    var left := |t| - tried.consumed;
    var desired := before - h.RealFrameSize();
    if left > desired {
      var s := SkipStep(t[tried.consumed..], left - desired);
      assert |t[tried.consumed..]| == left;
    }
  }

  /**
   * Where `read(ByteBuffer)` leaves the position after a body that was read:
   * past the frame's data, and past whatever the compressed or encrypted
   * body reader took from the buffer; a frame that is neither is left behind
   * exactly at the end of its data.
   */
  lemma {:induction false} ByteBufferBodyPosition(env: FrameEnv, h: Header, wb: seq<byte>)
    requires ByteBufferBody(env, h, wb).result.Success?
    ensures 0 <= h.RealFrameSize() <= ByteBufferBody(env, h, wb).consumed
    ensures !HasBit(h.encodingFlags, COMPRESSION) && !HasBit(h.encodingFlags, ENCRYPTION) ==>
              ByteBufferBody(env, h, wb).consumed == h.RealFrameSize()
  {
  }

  /**
   * When `read(ByteBuffer)` ends in an unchecked exception because of the
   * body's size: the data does not fit between the position and the limit.
   */
  lemma {:induction false} ByteBufferBodyTooLarge(env: FrameEnv, h: Header, wb: seq<byte>)
    requires h.RealFrameSize() < 0 || h.RealFrameSize() > |wb|
    ensures ByteBufferBody(env, h, wb) == Step(Failure(Unchecked), 0)
  {
  }

  lemma SliceOfSlice(s: seq<byte>, a: nat, b: nat, i: nat, j: nat)
    requires a <= b <= |s| && i <= j <= b - a
    ensures s[a..b][i..j] == s[a + i..a + j]
  {
    forall k | 0 <= k < j - i
      ensures s[a..b][i..j][k] == s[a + i..a + j][k]
    {
      assert s[a..b][i..j][k] == s[a..b][i + k] == s[a + i + k];
    }
  }

  /** An ID3v2.4 frame: what `read` fills in and `write` writes out. */
  // Converting a v2.3 frame.

  /** The `ID3Tags` maps and the body conversion `createV24FrameFromV23Frame` relies on. */
  datatype ConvertEnv = ConvertEnv(
    /** `ID3Tags.convertFrameID23To24`: the v2.4 identifier of a v2.3 one that maps straight across */
    convertFrameId23To24: string -> Option<string>,
    /** `ID3Tags.isID3v23FrameIdentifier` */
    isV23FrameIdentifier: string -> bool,
    /** `ID3Tags.forceFrameID23To24`: the v2.4 identifier a v2.3 frame is forced to, such as TYER to TDRC */
    forceFrameId23To24: string -> Option<string>,
    /** `readBody(identifier, body)`: the v2.4 body made from a v2.3 one under a forced identifier */
    forcedBody: (string, FrameBody) -> FrameBody)

  /**
   * `createV24FrameFromV23Frame`: the identifier and body of the v2.4 frame
   * made from a v2.3 one. An unsupported body keeps its identifier; a frame
   * whose identifier maps straight across keeps its body, except that a TXXX
   * frame described as MOOD becomes a TMOO text frame; a known v2.3 frame is
   * forced to its v2.4 identifier, or kept as deprecated under its own
   * identifier when there is none. The casts to `FrameBodyTXXX` and to
   * `FrameBodyUnsupported` fail, with a `ClassCastException`, on a body of
   * another class.
   */
  function ConvertedFromV23(cenv: ConvertEnv, f: Frame): (r: Result<(string, FrameBody)>)
    ensures r.Failure? <==>
              !f.body.UnsupportedBody?
              && ((cenv.convertFrameId23To24(f.id).Some? && f.id == TXXX && !f.body.UserTextBody?)
                  || (cenv.convertFrameId23To24(f.id).None? && !cenv.isV23FrameIdentifier(f.id)))
    ensures r.Failure? ==> r.error == Unchecked
  {
    if f.body.UnsupportedBody? then Success((f.id, f.body))
    else if cenv.convertFrameId23To24(f.id).Some? then
      var id := cenv.convertFrameId23To24(f.id).value;
      if f.id == TXXX then
        match f.body
        case UserTextBody(encoding, description, text) =>
          if description == MOOD then Success((TMOO, TextBody(TMOO, encoding, text))) else Success((id, f.body))
        case _ => Failure(Unchecked)
      else Success((id, f.body))
    else if cenv.isV23FrameIdentifier(f.id) then
      match cenv.forceFrameId23To24(f.id)
      case Some(id) => Success((id, cenv.forcedBody(id, f.body)))
      case None => Success((f.id, DeprecatedBody(f.body)))
    else Failure(Unchecked)
  }

  /** An unsupported body is carried over unchanged under the original identifier. */
  lemma ConvertedUnsupportedKeepsId(cenv: ConvertEnv, f: Frame)
    requires f.body.UnsupportedBody?
    ensures ConvertedFromV23(cenv, f) == Success((f.id, f.body))
  {
  }

  /**
   * A TXXX frame with the description MOOD becomes a TMOO frame carrying the
   * same text in the same encoding; any other TXXX frame keeps its body
   * under the mapped identifier.
   */
  lemma ConvertedMood(cenv: ConvertEnv, f: Frame)
    requires f.id == TXXX && f.body.UserTextBody? && cenv.convertFrameId23To24(TXXX).Some?
    ensures var r := ConvertedFromV23(cenv, f);
            && r.Success?
            && (f.body.description == MOOD ==>
                  r.value.0 == TMOO && r.value.1 == TextBody(TMOO, f.body.encoding, f.body.text)
                  && Content(r.value.1) == Content(f.body))
            && (f.body.description != MOOD ==> r.value == (cenv.convertFrameId23To24(TXXX).value, f.body))
  {
  }

  /**
   * A known v2.3 identifier that neither maps nor can be forced to a v2.4
   * one is kept, with its body wrapped as deprecated.
   */
  lemma ConvertedDeprecated(cenv: ConvertEnv, f: Frame)
    requires !f.body.UnsupportedBody? && cenv.convertFrameId23To24(f.id).None?
    requires cenv.isV23FrameIdentifier(f.id) && cenv.forceFrameId23To24(f.id).None?
    ensures ConvertedFromV23(cenv, f) == Success((f.id, DeprecatedBody(f.body)))
  {
  }

  class ID3v24Frame {
    var identifier: string
    var frameSize: int
    var statusFlags: StatusFlags
    var encodingFlags: EncodingFlags
    var groupIdentifier: int
    var encryptionMethod: int
    var frameBody: Option<FrameBody>

    /** A frame with no header read yet. */
    constructor Empty()
      ensures identifier == "" && frameSize == 0 && frameBody == None
      ensures fresh(statusFlags) && fresh(encodingFlags)
    {
      identifier := "";
      frameSize := 0;
      statusFlags := new StatusFlags.Empty();
      encodingFlags := new EncodingFlags.Empty();
      groupIdentifier := 0;
      encryptionMethod := 0;
      frameBody := None;
    }

    /**
     * The fields `read` fills in from a header: the identifier, the declared
     * size, both flag objects (the write flags adjusted by `modifyFlags`), and
     * the grouping and encryption values the format flags announce.
     */
    ghost predicate HasHeader(h: Header, env: FrameEnv)
      reads this, statusFlags, encodingFlags
    {
      && identifier == h.id && frameSize == h.frameSize
      && statusFlags.originalFlags == h.statusFlags
      && statusFlags.writeFlags == ModifiedWriteFlags(h.statusFlags, env.discardIfFileAltered(h.id))
      && encodingFlags.flags == h.encodingFlags
      && (HasBit(h.encodingFlags, GROUPING_IDENTITY) ==> groupIdentifier == h.groupIdentifier)
      && (HasBit(h.encodingFlags, ENCRYPTION) ==> encryptionMethod == h.encryptionMethod)
    }

    /**
     * `readIdentifier(ByteBuffer)`: refuses when ten bytes or fewer remain,
     * reports an all-zero identifier as padding, and otherwise takes the four
     * identifier bytes as ISO-8859-1 characters.
     */
    method ReadIdentifier(buf: ByteBuffer) returns (r: Result<string>)
      requires buf.Valid()
      modifies this, buf
      ensures buf.Valid() && buf.content == old(buf.content) && buf.limit == old(buf.limit)
      ensures statusFlags == old(statusFlags) && encodingFlags == old(encodingFlags)
      ensures old(buf.Remaining()) <= FRAME_HEADER_SIZE ==> r == Failure(InvalidFrame) && buf.position == old(buf.position)
      ensures old(buf.Remaining()) > FRAME_HEADER_SIZE ==>
                var idBytes := old(buf.content[buf.position..buf.position + 4]);
                && buf.position == old(buf.position) + 4
                && (AllZero(idBytes) ==> r == Failure(Padding))
                && (!AllZero(idBytes) ==> r == Success(CharsOf(idBytes)) && identifier == CharsOf(idBytes))
    {
      if buf.position + FRAME_HEADER_SIZE >= buf.limit {
        return Failure(InvalidFrame);
      }
      var idBytes := buf.GetBytes(FRAME_ID_SIZE);
      if AllZero(idBytes) {
        return Failure(Padding);
      }
      identifier := CharsOf(idBytes);
      r := Success(identifier);
    }

    /**
     * `getFrameSize(ByteBuffer)`, called with the position at the size field
     * and at least seven bytes left (as `readIdentifier` leaves it). The
     * syncsafe decoding never yields a negative value, so the source's check
     * for a negative size is not modelled.
     */
    method GetFrameSize(buf: ByteBuffer) returns (r: Result<int>)
      requires buf.Valid() && buf.position + 7 <= buf.limit
      modifies this, buf
      ensures buf.Valid() && buf.content == old(buf.content) && buf.limit == old(buf.limit)
      ensures identifier == old(identifier) && statusFlags == old(statusFlags) && encodingFlags == old(encodingFlags)
      ensures r == ByteBufferFrameSize(old(buf.content[buf.position..buf.position + 4]),
                                       old(buf.content[buf.position + 4..buf.limit]))
      ensures r.Success? ==> frameSize == r.value
      ensures buf.position == old(buf.position) + (if r == Failure(EmptyFrame) then 6 else 4)
    {
      ghost var sz := buf.content[buf.position..buf.position + 4];
      var sizeBytes := buf.GetBytes(INTEGRAL_SIZE);
      assert sizeBytes == sz;
      frameSize := SyncSafeAt(sizeBytes, 0);
      if frameSize == 0 {
        var _ := buf.Get();
        var _ := buf.Get();
        return Failure(EmptyFrame);
      } else if frameSize > buf.Remaining() - FRAME_FLAGS_SIZE {
        return Failure(InvalidFrame);
      }
      r := CheckIfFrameSizeThatIsNotSyncSafe(buf, sz);
    }

    /**
     * One look-ahead of `checkIfFrameSizeThatIsNotSyncSafe(ByteBuffer)`: move
     * the position `offset` bytes on, read four bytes if there are four, and
     * move the position back.
     */
    static method ReadAhead(buf: ByteBuffer, offset: nat) returns (ahead: Option<seq<byte>>)
      requires buf.Valid() && buf.position + offset <= buf.limit
      modifies buf
      ensures buf.Valid() && buf.content == old(buf.content) && buf.limit == old(buf.limit)
      ensures buf.position == old(buf.position)
      ensures ahead == if offset + 4 <= old(buf.Remaining()) then Some(old(buf.Window())[offset..offset + 4]) else None
    {
      var currentPosition := buf.position;
      buf.SetPosition(currentPosition + offset);
      if buf.Remaining() < FRAME_ID_SIZE {
        buf.SetPosition(currentPosition);
        return None;
      }
      var bytes := buf.GetBytes(FRAME_ID_SIZE);
      buf.SetPosition(currentPosition);
      SliceOfSlice(buf.content, currentPosition, buf.limit, offset, offset + 4);
      ahead := Some(bytes);
    }

    /**
     * `checkIfFrameSizeThatIsNotSyncSafe(ByteBuffer)`: the position is just
     * after the size field and `frameSize` holds its syncsafe reading, which
     * fits. Every look-ahead puts the position back.
     */
    method CheckIfFrameSizeThatIsNotSyncSafe(buf: ByteBuffer, ghost sz: seq<byte>) returns (r: Result<int>)
      requires buf.Valid() && 4 <= buf.position <= buf.limit
      requires sz == buf.content[buf.position - 4..buf.position]
      requires frameSize == SyncSafeAt(sz, 0) && 0 < frameSize <= buf.Remaining() - FRAME_FLAGS_SIZE
      modifies this, buf
      ensures buf.Valid() && buf.content == old(buf.content) && buf.limit == old(buf.limit)
      ensures buf.position == old(buf.position)
      ensures identifier == old(identifier) && statusFlags == old(statusFlags) && encodingFlags == old(encodingFlags)
      ensures r == ByteBufferFrameSize(sz, old(buf.Window()))
      ensures r.Success? ==> frameSize == r.value
    {
      ghost var rest := buf.Window();
      var size := frameSize;
      if size > MAX_SAFE_SIZE {
        var currentPosition := buf.position;
        buf.SetPosition(currentPosition - FRAME_ID_SIZE);
        var nonSyncSafeFrameSize := buf.GetInt();
        assert nonSyncSafeFrameSize == Int32At(sz, 0) by {
          assert sz[0] == buf.content[currentPosition - 4] && sz[1] == buf.content[currentPosition - 3];
          assert sz[2] == buf.content[currentPosition - 2] && sz[3] == buf.content[currentPosition - 1];
        }
        buf.SetPosition(currentPosition - FRAME_ID_SIZE);
        var sizeBytes := buf.GetBytes(INTEGRAL_SIZE);
        var isNotSyncSafe := NotSyncSafe(sizeBytes, 0);
        buf.SetPosition(currentPosition);
        if isNotSyncSafe {
          // the source's bound here is `remaining - -2`; see ByteBufferBoundAsWrittenTooLoose
          if nonSyncSafeFrameSize > buf.Remaining() - FRAME_FLAGS_SIZE {
            return Failure(InvalidFrame);
          }
          size := nonSyncSafeFrameSize;
        } else {
          assert buf.Window() == rest;
          size := LookAheadFrameSize(buf, size, nonSyncSafeFrameSize);
        }
      }
      frameSize := size;
      r := Success(size);
    }

    /**
     * The look-ahead part of `checkIfFrameSizeThatIsNotSyncSafe(ByteBuffer)`
     * for syncsafe size bytes, with the position just after the size field:
     * which of the syncsafe size and the plain size to keep.
     */
    static method LookAheadFrameSize(buf: ByteBuffer, syncSafeSize: nat, nonSyncSafeFrameSize: nat) returns (size: int)
      requires buf.Valid() && syncSafeSize + FRAME_FLAGS_SIZE <= buf.Remaining()
      modifies buf
      ensures buf.Valid() && buf.content == old(buf.content) && buf.limit == old(buf.limit)
      ensures buf.position == old(buf.position)
      ensures size == ByteBufferLookAheadSize(syncSafeSize, nonSyncSafeFrameSize, old(buf.Window()))
    {
      size := syncSafeSize;
      var ahead := ReadAhead(buf, size + FRAME_FLAGS_SIZE);
      if ahead.None? {
        // no padding or frame data after it: assume syncsafe
      } else if IsValidIdentifier(CharsOf(ahead.value)) {
      } else if AllZero(ahead.value) {
      } else if nonSyncSafeFrameSize > buf.Remaining() - FRAME_FLAGS_SIZE {
        // too large, so assume syncsafe
      } else {
        ahead := ReadAhead(buf, nonSyncSafeFrameSize + FRAME_FLAGS_SIZE);
        if ahead.Some? {
          if IsValidIdentifier(CharsOf(ahead.value)) {
            size := nonSyncSafeFrameSize;
          } else if AllZero(ahead.value) {
            size := nonSyncSafeFrameSize;
          }
        } else if buf.Remaining() == 0 {
          size := nonSyncSafeFrameSize;
        }
      }
    }
  
    /**
     * `read(ByteBuffer)` up to the body: the identifier (an invalid one puts
     * the position back to one byte after where the frame began), the size,
     * the two flag bytes and the extra header bytes. A read past the limit is
     * a `BufferUnderflowException`.
     */
    method ReadHeader(buf: ByteBuffer, env: FrameEnv) returns (r: Result<Header>)
      requires buf.Valid()
      modifies this, buf
      ensures buf.Valid() && buf.content == old(buf.content) && buf.limit == old(buf.limit)
      ensures r == ParseByteBufferHeader(old(buf.Window())).result
      ensures buf.position == old(buf.position) + ParseByteBufferHeader(old(buf.Window())).consumed
      ensures r.Success? ==>
                fresh(statusFlags) && fresh(encodingFlags) && HasHeader(r.value, env)
    {
      ghost var w := buf.Window();
      ghost var start := buf.position;
      var id := ReadIdentifier(buf);
      if |w| > FRAME_HEADER_SIZE {
        assert w[..4] == buf.content[start..start + 4];
      }
      if id.Failure? {
        return Failure(id.error);
      }
      if !IsValidIdentifier(identifier) {
        buf.SetPosition(buf.position - (FRAME_ID_SIZE - 1));
        return Failure(InvalidFrameIdentifier);
      }
      r := ReadSizeAndFlags(buf, env, w, start);
    }

    /**
     * `read(ByteBuffer)` after a valid identifier: the size, the two flag
     * bytes and the extra header bytes of the frame that begins at `start`.
     */
    method ReadSizeAndFlags(buf: ByteBuffer, env: FrameEnv, ghost w: seq<byte>, ghost start: nat) returns (r: Result<Header>)
      requires buf.Valid() && start + 4 == buf.position && w == buf.content[start..buf.limit]
      requires |w| > FRAME_HEADER_SIZE && identifier == CharsOf(w[..4])
      modifies this, buf
      ensures buf.Valid() && buf.content == old(buf.content) && buf.limit == old(buf.limit)
      ensures r == ParseByteBufferSizeAndFlags(w).result
      ensures buf.position == start + ParseByteBufferSizeAndFlags(w).consumed
      ensures r.Success? ==>
                fresh(statusFlags) && fresh(encodingFlags) && HasHeader(r.value, env)
    {
      SliceOfSlice(buf.content, start, buf.limit, 4, 8);
      assert w[8..] == buf.content[start + 8..buf.limit];
      ByteBufferSizeAndFlagsCases(w);
      var size := GetFrameSize(buf);
      assert size == ByteBufferFrameSize(w[4..8], w[8..]);
      if size.Failure? {
        return Failure(size.error);
      }
      r := ReadFlagsAndExtras(buf, env, w, start);
    }

    /** `read(ByteBuffer)` after the size: the two flag bytes and the extra header bytes. */
    method ReadFlagsAndExtras(buf: ByteBuffer, env: FrameEnv, ghost w: seq<byte>, ghost start: nat) returns (r: Result<Header>)
      requires buf.Valid() && start + 8 == buf.position && w == buf.content[start..buf.limit]
      requires |w| > FRAME_HEADER_SIZE
      modifies this, buf
      ensures buf.Valid() && buf.content == old(buf.content) && buf.limit == old(buf.limit)
      ensures var ex := ReadExtras(w, 10, old(identifier), old(frameSize), w[8], w[9], Unchecked);
              && r == ex.result
              && buf.position == start + ex.consumed
      ensures r.Success? ==> fresh(statusFlags) && fresh(encodingFlags) && HasHeader(r.value, env)
    {
      var status, enc := ReadFlagBytes(buf, env);
      assert status == w[8] && enc == w[9];
      r := ReadExtraHeaderBytes(buf, status, enc, w, start);
      if r.Success? {
        ExtrasLayout(w, 10, identifier, frameSize, status, enc, Unchecked);
      }
    }

    /** The status and format flag bytes, from which the two flag objects are built. */
    method ReadFlagBytes(buf: ByteBuffer, env: FrameEnv) returns (status: byte, enc: byte)
      requires buf.Valid() && buf.position + 2 <= buf.limit
      modifies this, buf
      ensures buf.Valid() && buf.content == old(buf.content) && buf.limit == old(buf.limit)
      ensures buf.position == old(buf.position) + 2
      ensures status == buf.content[old(buf.position)] && enc == buf.content[old(buf.position) + 1]
      ensures identifier == old(identifier) && frameSize == old(frameSize)
      ensures groupIdentifier == old(groupIdentifier) && encryptionMethod == old(encryptionMethod)
      ensures fresh(statusFlags) && fresh(encodingFlags)
      ensures statusFlags.originalFlags == status
      ensures statusFlags.writeFlags == ModifiedWriteFlags(status, env.discardIfFileAltered(identifier))
      ensures encodingFlags.flags == enc
    {
      status := buf.Get();
      statusFlags := new StatusFlags.FromByte(status, env.discardIfFileAltered(identifier));
      enc := buf.Get();
      encodingFlags := new EncodingFlags.FromByte(enc);
    }

    /**
     * The extra header bytes of `read(ByteBuffer)`, with the position just
     * after the flag bytes (`status`, `enc`) of the frame that begins at
     * `start`; w holds the bytes from there to the limit.
     */
    method ReadExtraHeaderBytes(buf: ByteBuffer, status: byte, enc: byte, ghost w: seq<byte>, ghost start: nat)
      returns (r: Result<Header>)
      requires buf.Valid() && start + 10 == buf.position && w == buf.content[start..buf.limit]
      modifies this, buf
      ensures buf.Valid() && buf.content == old(buf.content) && buf.limit == old(buf.limit)
      ensures identifier == old(identifier) && frameSize == old(frameSize)
      ensures statusFlags == old(statusFlags) && encodingFlags == old(encodingFlags)
      ensures var ex := ReadExtras(w, 10, old(identifier), old(frameSize), status, enc, Unchecked);
              && r == ex.result
              && buf.position == start + ex.consumed
              && (r.Success? && HasBit(enc, GROUPING_IDENTITY) ==> groupIdentifier == r.value.groupIdentifier)
              && (r.Success? && HasBit(enc, ENCRYPTION) ==> encryptionMethod == r.value.encryptionMethod)
    {
      var extraHeaderBytesCount := 0;
      var group := 0;
      if HasBit(enc, GROUPING_IDENTITY) {
        extraHeaderBytesCount := FRAME_GROUPING_INDICATOR_SIZE;
        if buf.position >= buf.limit {
          return Failure(Unchecked);
        }
        var g := buf.Get();
        assert g == w[10];
        group := SignedByte(g);
        groupIdentifier := group;
      }
      ghost var k1 := 10 + extraHeaderBytesCount;
      assert buf.position == start + k1;
      var encryption := 0;
      if HasBit(enc, ENCRYPTION) {
        extraHeaderBytesCount := extraHeaderBytesCount + FRAME_ENCRYPTION_INDICATOR_SIZE;
        if buf.position >= buf.limit {
          return Failure(Unchecked);
        }
        var m := buf.Get();
        assert m == w[k1];
        encryption := SignedByte(m);
        encryptionMethod := encryption;
      }
      ghost var k2 := 10 + extraHeaderBytesCount;
      assert buf.position == start + k2;
      var dataLengthSize: int := -1;
      if HasBit(enc, DATA_LENGTH_INDICATOR) {
        if buf.position + INTEGRAL_SIZE > buf.limit {
          return Failure(Unchecked);
        }
        var lengthBytes := buf.GetBytes(INTEGRAL_SIZE);
        forall k | 0 <= k < 4
          ensures lengthBytes[k] == w[k2 + k]
        {
          assert lengthBytes[k] == buf.content[start + k2 + k];
        }
        dataLengthSize := SyncSafeAt(lengthBytes, 0);
        assert dataLengthSize == SyncSafeAt(w, k2);
        extraHeaderBytesCount := extraHeaderBytesCount + FRAME_DATA_LENGTH_SIZE;
      }
      r := Success(Header(identifier, frameSize, status, enc, group, encryption, dataLengthSize,
                          FRAME_HEADER_SIZE + extraHeaderBytesCount));
    }

    /**
     * `read(ByteBuffer)` from the end of the header: the body is read as
     * `ByteBufferBody` says, and the `finally` block moves the position on
     * by the frame's data size.
     */
    method ReadBody(buf: ByteBuffer, env: FrameEnv, h: Header) returns (r: Outcome)
      requires buf.Valid()
      requires identifier == h.id
      modifies this, buf
      ensures buf.Valid() && buf.content == old(buf.content) && buf.limit == old(buf.limit)
      ensures identifier == old(identifier) && frameSize == old(frameSize)
      ensures statusFlags == old(statusFlags) && encodingFlags == old(encodingFlags)
      ensures groupIdentifier == old(groupIdentifier) && encryptionMethod == old(encryptionMethod)
      ensures var b := ByteBufferBody(env, h, old(buf.Window()));
              && buf.position == old(buf.position) + b.consumed
              && (b.result.Success? ==> r == Ok && frameBody == Some(b.result.value))
              && (b.result.Failure? ==> r == Err(b.result.error))
    {
      ghost var wb := buf.Window();
      var realFrameSize := h.RealFrameSize();
      if realFrameSize < 0 || realFrameSize > buf.Remaining() {
        return Err(Unchecked);
      }
      var body := ReadBodyContent(buf, env, h);
      body := WrapBody(env, body);
      // finally: position(position() + realFrameSize)
      if buf.position + realFrameSize > buf.limit {
        return Err(Unchecked);
      }
      buf.SetPosition(buf.position + realFrameSize);
      if body.Failure? {
        return Err(body.error);
      }
      frameBody := Some(body.value);
      r := Ok;
    }

    /** The body reading of `read(ByteBuffer)`, as `ByteBufferBodyRead` defines it. */
    method ReadBodyContent(buf: ByteBuffer, env: FrameEnv, h: Header) returns (body: Result<FrameBody>)
      requires buf.Valid() && 0 <= h.RealFrameSize() <= buf.Remaining()
      requires identifier == h.id
      modifies buf
      ensures buf.Valid() && buf.content == old(buf.content) && buf.limit == old(buf.limit)
      ensures var s := ByteBufferBodyRead(env, h, old(buf.Window()));
              body == s.result && buf.position == old(buf.position) + s.consumed
    {
      ghost var wb := buf.Window();
      var realFrameSize := h.RealFrameSize();
      var frameBodyBuffer := buf.Slice();
      frameBodyBuffer.SetLimit(realFrameSize);
      var data := frameBodyBuffer.Window();
      assert data == wb[..realFrameSize];
      var syncSize := realFrameSize;
      if HasBit(h.encodingFlags, FRAME_UNSYNCHRONIZATION) {
        data := Sync(data);
        syncSize := |data|;
      }
      if HasBit(h.encodingFlags, COMPRESSION) {
        var u := env.uncompress(identifier, buf.Window(), h.dataLengthSize, realFrameSize);
        buf.SetPosition(buf.position + Min(u.consumed, buf.Remaining()));
        if u.result.Failure? {
          body := Failure(u.result.error);
        } else if HasBit(h.encodingFlags, ENCRYPTION) {
          body := env.readEncryptedBody(identifier, u.result.value, h.dataLengthSize).result;
        } else {
          body := env.readBody(identifier, u.result.value, h.dataLengthSize).result;
        }
      } else if HasBit(h.encodingFlags, ENCRYPTION) {
        var e := env.readEncryptedBody(identifier, buf.Window(), h.frameSize);
        buf.SetPosition(buf.position + Min(e.consumed, buf.Remaining()));
        body := e.result;
      } else {
        body := env.readBody(identifier, data, syncSize).result;
      }
    }

    /**
     * `read(ByteBuffer)`: the header, then the body. On success the fields
     * hold what was read; on an exception the position is where the source
     * leaves it.
     */
    method Read(buf: ByteBuffer, env: FrameEnv) returns (r: Outcome)
      requires buf.Valid()
      modifies this, buf
      ensures buf.Valid() && buf.content == old(buf.content) && buf.limit == old(buf.limit)
      ensures var hs := ParseByteBufferHeader(old(buf.Window()));
              hs.result.Failure? ==> r == Err(hs.result.error) && buf.position == old(buf.position) + hs.consumed
      ensures var hs := ParseByteBufferHeader(old(buf.Window()));
              hs.result.Success? ==>
                var h := hs.result.value;
                var b := ByteBufferBody(env, h, old(buf.Window())[h.bodyStart..]);
                && buf.position == old(buf.position) + h.bodyStart + b.consumed
                && HasHeader(h, env)
                && (b.result.Success? ==> r == Ok && frameBody == Some(b.result.value))
                && (b.result.Failure? ==> r == Err(b.result.error))
    {
      ghost var w := buf.Window();
      ghost var start := buf.position;
      var h := ReadHeader(buf, env);
      if h.Failure? {
        return Err(h.error);
      }
      assert buf.Window() == w[h.value.bodyStart..];
      r := ReadBody(buf, env, h.value);
    }
  
    // Reading from an okio Buffer.

    /**
     * `readIdentifier(Buffer)`: refuses when ten bytes or fewer are left,
     * reports an all-zero identifier as padding, and otherwise takes the four
     * identifier bytes as ISO-8859-1 characters.
     */
    method ReadSourceIdentifier(src: Source) returns (r: Result<string>)
      modifies this, src
      ensures frameSize == old(frameSize) && statusFlags == old(statusFlags) && encodingFlags == old(encodingFlags)
      ensures old(src.Size()) <= FRAME_HEADER_SIZE ==> r == Failure(InvalidFrame) && src.bytes == old(src.bytes)
      ensures old(src.Size()) > FRAME_HEADER_SIZE ==>
                var idBytes := old(src.bytes[..4]);
                && src.bytes == old(src.bytes[4..])
                && (AllZero(idBytes) ==> r == Failure(Padding))
                && (!AllZero(idBytes) ==> r == Success(CharsOf(idBytes)) && identifier == CharsOf(idBytes))
    {
      if src.Size() <= FRAME_HEADER_SIZE {
        return Failure(InvalidFrame);
      }
      var idBytes := src.Take(FRAME_ID_SIZE);
      if AllZero(idBytes) {
        return Failure(Padding);
      }
      identifier := CharsOf(idBytes);
      r := Success(identifier);
    }

    /**
     * One look-ahead of `checkIfFrameSizeThatIsNotSyncSafe(Buffer)`: the four
     * bytes `at` places ahead, peeked one by one, when there are four.
     */
    static method PeekAhead(src: Source, at: nat) returns (ahead: Option<seq<byte>>)
      ensures ahead == if src.Size() - at >= FRAME_ID_SIZE then Some(src.bytes[at..at + 4]) else None
    {
      if src.Size() - at < FRAME_ID_SIZE {
        return None;
      }
      var readAhead: seq<byte> := [];
      for i := 0 to FRAME_ID_SIZE
        invariant readAhead == src.bytes[at..at + i]
      {
        readAhead := readAhead + [src.Peek(at + i)];
      }
      ahead := Some(readAhead);
    }

    /**
     * `checkIfFrameSizeThatIsNotSyncSafe(Buffer)`: the buffer still begins
     * with the size field, and `frameSize` holds its syncsafe reading, which
     * fits. Nothing is consumed.
     */
    method CheckSourceFrameSize(src: Source) returns (r: Result<int>)
      requires src.Size() >= 4
      requires frameSize == SyncSafeAt(src.bytes, 0) && 0 < frameSize <= src.Size() - FRAME_FLAGS_SIZE
      modifies this
      ensures identifier == old(identifier) && statusFlags == old(statusFlags) && encodingFlags == old(encodingFlags)
      ensures r == SourceFrameSize(src.bytes)
      ensures r.Success? ==> frameSize == r.value
    {
      var size := frameSize;
      if size > MAX_SAFE_SIZE {
        var nonSyncSafeFrameSize := Int32At(src.bytes, 0);
        var isNotSyncSafe := NotSyncSafe(src.bytes, 0);
        if isNotSyncSafe {
          if nonSyncSafeFrameSize > src.Size() + INTEGRAL_SIZE {
            return Failure(InvalidFrame);
          }
          size := nonSyncSafeFrameSize;
        } else {
          size := PeekFrameSize(src, size, nonSyncSafeFrameSize);
        }
      }
      frameSize := size;
      r := Success(size);
    }

    /**
     * The look-ahead part of `checkIfFrameSizeThatIsNotSyncSafe(Buffer)` for
     * syncsafe size bytes, with the buffer still at the size field: which of
     * the syncsafe size and the plain size to keep.
     */
    static method PeekFrameSize(src: Source, syncSafeSize: nat, nonSyncSafeFrameSize: nat) returns (size: int)
      requires syncSafeSize + FRAME_FLAGS_SIZE <= src.Size()
      ensures size == SourceLookAheadSize(syncSafeSize, nonSyncSafeFrameSize, src.bytes)
    {
      size := syncSafeSize;
      var ahead := PeekAhead(src, INTEGRAL_SIZE + FRAME_FLAGS_SIZE + size);
      if ahead.None? {
        // no padding or frame data after it: assume syncsafe
      } else if IsValidIdentifier(CharsOf(ahead.value)) {
      } else if AllZero(ahead.value) {
      } else if nonSyncSafeFrameSize > src.Size() + INTEGRAL_SIZE {
        // too large, so assume syncsafe
      } else {
        ahead := PeekAhead(src, INTEGRAL_SIZE + FRAME_FLAGS_SIZE + nonSyncSafeFrameSize);
        if ahead.Some? {
          if IsValidIdentifier(CharsOf(ahead.value)) {
            size := nonSyncSafeFrameSize;
          } else if AllZero(ahead.value) {
            size := nonSyncSafeFrameSize;
          }
        } else if src.Size() + INTEGRAL_SIZE == 0 {
          size := nonSyncSafeFrameSize;
        }
      }
    }

    /**
     * `getFrameSize(Buffer)`, called with the buffer at the size field and at
     * least seven bytes left. The size is peeked, checked, and only then
     * skipped; an empty frame has its size field and flag bytes read away.
     */
    method GetSourceFrameSize(src: Source) returns (r: Result<int>)
      requires src.Size() >= 7
      modifies this, src
      ensures identifier == old(identifier) && statusFlags == old(statusFlags) && encodingFlags == old(encodingFlags)
      ensures r == SourceFrameSize(old(src.bytes))
      ensures r.Success? ==> frameSize == r.value
      ensures src.bytes == old(src.bytes)[if r == Failure(EmptyFrame) then 6 else if r.Success? then 4 else 0..]
    {
      ghost var s := src.bytes;
      frameSize := SyncSafeAt(src.bytes, 0);
      if frameSize == 0 {
        for i := 0 to INTEGRAL_SIZE + FRAME_FLAGS_SIZE
          invariant src.bytes == s[i..]
          modifies src
        {
          var _ := src.ReadByte();
        }
        assert SourceFrameSize(s) == Failure(EmptyFrame);
        return Failure(EmptyFrame);
      } else if frameSize > src.Size() - FRAME_FLAGS_SIZE {
        assert SourceFrameSize(s) == Failure(InvalidFrame);
        return Failure(InvalidFrame);
      }
      r := CheckSourceFrameSize(src);
      if r.Failure? {
        assert r != Failure(EmptyFrame);
        return;
      }
      var _ := src.Skip(INTEGRAL_SIZE);
    }

    /**
     * The flag bytes and extra header bytes of `read(Buffer, boolean)`; w
     * holds what was in the buffer when the frame began, and the buffer is now
     * ten bytes into it. A read past the end is an unchecked exception, which
     * `read` reports as an invalid frame.
     */
    method ReadSourceExtraHeaderBytes(src: Source, status: byte, enc: byte, ghost w: seq<byte>) returns (r: Result<Header>)
      requires |w| >= 10 && src.bytes == w[10..]
      modifies this, src
      ensures identifier == old(identifier) && frameSize == old(frameSize)
      ensures statusFlags == old(statusFlags) && encodingFlags == old(encodingFlags)
      ensures var ex := ReadExtras(w, 10, old(identifier), old(frameSize), status, enc, InvalidFrame);
              && r == ex.result
              && src.bytes == w[ex.consumed..]
              && (r.Success? && HasBit(enc, GROUPING_IDENTITY) ==> groupIdentifier == r.value.groupIdentifier)
              && (r.Success? && HasBit(enc, ENCRYPTION) ==> encryptionMethod == r.value.encryptionMethod)
    {
      var extraHeaderBytesCount := 0;
      var group := 0;
      if HasBit(enc, GROUPING_IDENTITY) {
        extraHeaderBytesCount := FRAME_GROUPING_INDICATOR_SIZE;
        if src.Size() == 0 {
          return Failure(InvalidFrame);
        }
        var g := src.ReadByte();
        group := SignedByte(g);
        groupIdentifier := group;
      }
      ghost var k1 := 10 + extraHeaderBytesCount;
      assert src.bytes == w[k1..];
      var encryption := 0;
      if HasBit(enc, ENCRYPTION) {
        extraHeaderBytesCount := extraHeaderBytesCount + FRAME_ENCRYPTION_INDICATOR_SIZE;
        if src.Size() == 0 {
          return Failure(InvalidFrame);
        }
        var m := src.ReadByte();
        assert m == w[k1];
        encryption := SignedByte(m);
        encryptionMethod := encryption;
      }
      ghost var k2 := 10 + extraHeaderBytesCount;
      assert src.bytes == w[k2..];
      var dataLengthSize: int := -1;
      if HasBit(enc, DATA_LENGTH_INDICATOR) {
        if src.Size() < INTEGRAL_SIZE {
          return Failure(InvalidFrame);
        }
        var lengthBytes := src.Take(INTEGRAL_SIZE);
        forall k | 0 <= k < 4
          ensures lengthBytes[k] == w[k2 + k]
        {
        }
        dataLengthSize := SyncSafeAt(lengthBytes, 0);
        assert dataLengthSize == SyncSafeAt(w, k2);
        extraHeaderBytesCount := extraHeaderBytesCount + FRAME_DATA_LENGTH_SIZE;
      }
      r := Success(Header(identifier, frameSize, status, enc, group, encryption, dataLengthSize,
                          FRAME_HEADER_SIZE + extraHeaderBytesCount));
    }

    /** `read(Buffer, boolean)` up to the body, as `ParseSourceHeader` defines it. */
    method ReadSourceHeader(src: Source, env: FrameEnv) returns (r: Result<Header>)
      modifies this, src
      ensures r == ParseSourceHeader(old(src.bytes)).result
      ensures src.bytes == old(src.bytes)[ParseSourceHeader(old(src.bytes)).consumed..]
      ensures r.Success? ==>
                fresh(statusFlags) && fresh(encodingFlags) && HasHeader(r.value, env)
    {
      ghost var w := src.bytes;
      var id := ReadSourceIdentifier(src);
      if id.Failure? {
        return Failure(id.error);
      }
      if !IsValidIdentifier(identifier) {
        return Failure(InvalidFrameIdentifier);
      }
      assert w[4..][4..] == w[8..];
      var size := GetSourceFrameSize(src);
      if size.Failure? {
        assert w[4..][6..] == w[10..];
        return Failure(size.error);
      }
      assert ParseSourceHeader(w) == ReadExtras(w, 10, identifier, frameSize, w[8], w[9], InvalidFrame);
      r := ReadSourceFlagsAndExtras(src, env, w);
    }

    /** `read(Buffer, boolean)` after the size: the two flag bytes and the extra header bytes. */
    method ReadSourceFlagsAndExtras(src: Source, env: FrameEnv, ghost w: seq<byte>) returns (r: Result<Header>)
      requires |w| > FRAME_HEADER_SIZE && src.bytes == w[8..]
      modifies this, src
      ensures var ex := ReadExtras(w, 10, old(identifier), old(frameSize), w[8], w[9], InvalidFrame);
              && r == ex.result
              && src.bytes == w[ex.consumed..]
      ensures r.Success? ==> fresh(statusFlags) && fresh(encodingFlags) && HasHeader(r.value, env)
    {
      var status := src.ReadByte();
      statusFlags := new StatusFlags.FromByte(status, env.discardIfFileAltered(identifier));
      var enc := src.ReadByte();
      encodingFlags := new EncodingFlags.FromByte(enc);
      assert status == w[8] && enc == w[9] && src.bytes == w[10..];
      r := ReadSourceExtraHeaderBytes(src, status, enc, w);
      if r.Success? {
        ExtrasLayout(w, 10, identifier, frameSize, status, enc, InvalidFrame);
      }
    }
  
    /**
     * The `try` block of `read(Buffer, boolean)`: skip artwork, or move an
     * unsynchronised frame's data out and synchronise it, then read the body.
     */
    method ReadSourceBodyTry(src: Source, env: FrameEnv, h: Header, ignoreArtwork: bool)
      returns (r: Result<Option<FrameBody>>)
      requires identifier == h.id
      modifies src
      ensures var b := SourceBodyTry(env, h, old(src.bytes), ignoreArtwork);
              r == b.result && src.bytes == old(src.bytes)[b.consumed..]
    {
      ghost var t := src.bytes;
      var realFrameSize := h.RealFrameSize();
      if ignoreArtwork && env.isArtworkFrameId(identifier) {
        var ok := src.Skip(realFrameSize);
        return if ok then Success(None) else Failure(EndOfStream);
      }
      var unsync := HasBit(h.encodingFlags, FRAME_UNSYNCHRONIZATION);
      var input := src.bytes;
      var syncSize := realFrameSize;
      if unsync {
        if realFrameSize < 0 {
          return Failure(Unchecked);
        }
        var moved := src.Take(realFrameSize);
        assert moved == t[..Min(realFrameSize, |t|)] && src.bytes == t[Min(realFrameSize, |t|)..];
        input := Sync(moved);
        syncSize := |input|;
      }
      var body: Result<FrameBody>;
      if HasBit(h.encodingFlags, COMPRESSION) {
        var d := env.decompress(input, syncSize, h.dataLengthSize);
        if !unsync {
          var _ := src.Take(Min(d.consumed, src.Size()));
          assert src.bytes == t[Min(d.consumed, |t|)..];
        }
        if d.result.Failure? {
          body := Failure(d.result.error);
        } else if HasBit(h.encodingFlags, ENCRYPTION) {
          body := env.readEncryptedBody(identifier, d.result.value, h.dataLengthSize).result;
        } else {
          body := env.readBody(identifier, d.result.value, h.dataLengthSize).result;
        }
      } else {
        var b := if HasBit(h.encodingFlags, ENCRYPTION) then env.readEncryptedBody(identifier, input, syncSize)
                 else env.readBody(identifier, input, syncSize);
        if !unsync {
          var _ := src.Take(Min(b.consumed, src.Size()));
          assert src.bytes == t[Min(b.consumed, |t|)..];
        }
        body := b.result;
      }
      body := WrapBody(env, body);
      r := if body.Success? then Success(Some(body.value)) else Failure(body.error);
    }

    /**
     * `read(Buffer, boolean)` after the header: the `try` block, then the
     * `finally` block that leaves at most `before - realFrameSize` bytes, and
     * unchecked exceptions reported as `InvalidFrameException`.
     */
    method ReadSourceBody(src: Source, env: FrameEnv, h: Header, before: nat, ignoreArtwork: bool) returns (r: Outcome)
      requires identifier == h.id
      modifies this, src
      ensures identifier == old(identifier) && frameSize == old(frameSize)
      ensures statusFlags == old(statusFlags) && encodingFlags == old(encodingFlags)
      ensures groupIdentifier == old(groupIdentifier) && encryptionMethod == old(encryptionMethod)
      ensures var b := SourceBody(env, h, old(src.bytes), before, ignoreArtwork);
              && src.bytes == old(src.bytes)[b.consumed..]
              && (b.result.Success? ==> r == Ok && frameBody == b.result.value)
              && (b.result.Failure? ==> r == Err(b.result.error))
    {
      ghost var t := src.bytes;
      var result := ReadSourceBodyTry(src, env, h, ignoreArtwork);
      ghost var tried := SourceBodyTry(env, h, t, ignoreArtwork);
      // finally: skip on until no more than sizeBeforeRead - realFrameSize bytes are left
      var desiredSize := before - h.RealFrameSize();
      if src.Size() > desiredSize {
        assert src.bytes == t[tried.consumed..];
        var ok := src.Skip(src.Size() - desiredSize);
        if !ok {
          result := Failure(EndOfStream);
        }
      }
      if result == Failure(Unchecked) {
        return Err(InvalidFrame);
      }
      if result.Failure? {
        return Err(result.error);
      }
      frameBody := result.value;
      r := Ok;
    }

    /**
     * `read(Buffer, boolean)`: the header, then the body. On success the
     * fields hold what was read; in every case the buffer has lost the bytes
     * the source takes from it.
     */
    method ReadSource(src: Source, env: FrameEnv, ignoreArtwork: bool) returns (r: Outcome)
      modifies this, src
      ensures var hs := ParseSourceHeader(old(src.bytes));
              hs.result.Failure? ==> r == Err(hs.result.error) && src.bytes == old(src.bytes)[hs.consumed..]
      ensures var hs := ParseSourceHeader(old(src.bytes));
              hs.result.Success? ==>
                var h := hs.result.value;
                var b := SourceBody(env, h, old(src.bytes)[h.bodyStart..], old(src.Size()), ignoreArtwork);
                && src.bytes == old(src.bytes)[h.bodyStart + b.consumed..]
                && HasHeader(h, env)
                && (b.result.Success? ==> r == Ok && frameBody == b.result.value)
                && (b.result.Failure? ==> r == Err(b.result.error))
    {
      var sizeBeforeRead := src.Size();
      ghost var s := src.bytes;
      var h := ReadSourceHeader(src, env);
      if h.Failure? {
        return Err(h.error);
      }
      assert src.bytes == s[h.value.bodyStart..];
      r := ReadSourceBody(src, env, h.value, sizeBeforeRead, ignoreArtwork);
      assert s[h.value.bodyStart..][SourceBody(env, h.value, s[h.value.bodyStart..], sizeBeforeRead, ignoreArtwork).consumed..]
          == s[h.value.bodyStart + SourceBody(env, h.value, s[h.value.bodyStart..], sizeBeforeRead, ignoreArtwork).consumed..];
    }

    /**
     * The bytes `write` puts out once the flags are settled: header, the
     * grouping and encryption bytes the format flags announce, and the data.
     */
    static method AssembleFrame(id4: seq<byte>, status: byte, flags: byte, group: int, encryption: int,
                                data: seq<byte>) returns (out: seq<byte>)
      requires |id4| == FRAME_ID_SIZE
      ensures out == AssembledFrame(id4, status, flags, group, encryption, data)
    {
      var extra: seq<byte> := [];
      if HasBit(flags, GROUPING_IDENTITY) {
        extra := extra + [LowByte(group)];
      }
      if HasBit(flags, ENCRYPTION) {
        extra := extra + [LowByte(encryption)];
      }
      var header := id4 + SyncSafeBytes(|extra| + |data|) + [status, flags];
      out := header + extra + data;
    }

    /**
     * `ID3v24Frame(AbstractID3v2Frame)` for a v2.3 frame: the status flags
     * converted (with `modifyFlags` judging the identifier the frame holds
     * before the conversion, which is given), the format flags copied, and
     * identifier and body as `ConvertedFromV23` gives them.
     */
    static method FromV23(f: Frame, cenv: ConvertEnv, discardBeforeConversion: bool) returns (r: Result<ID3v24Frame>)
      ensures var c := ConvertedFromV23(cenv, f);
              && (c.Failure? <==> r.Failure?)
              && (c.Failure? ==> r.error == c.error)
              && (c.Success? ==>
                    && fresh(r.value) && fresh(r.value.statusFlags) && fresh(r.value.encodingFlags)
                    && r.value.identifier == c.value.0 && r.value.frameBody == Some(c.value.1)
                    && r.value.statusFlags.originalFlags == ConvertV3ToV4Flags(f.statusFlags)
                    && r.value.statusFlags.writeFlags == ModifiedWriteFlags(ConvertV3ToV4Flags(f.statusFlags), discardBeforeConversion)
                    && r.value.encodingFlags.flags == f.encodingFlags)
    {
      var c := ConvertedFromV23(cenv, f);
      if c.Failure? {
        return Failure(c.error);
      }
      var frame := new ID3v24Frame.Empty();
      frame.statusFlags := new StatusFlags.FromV23(f.statusFlags, discardBeforeConversion);
      frame.encodingFlags := new EncodingFlags.FromByte(f.encodingFlags);
      frame.identifier := c.value.0;
      frame.frameBody := Some(c.value.1);
      r := Success(frame);
    }

    /** The body bytes `write` puts out, and whether it unsynchronised them. */
    static method UnsynchronisedBody(body: seq<byte>, unsyncTags: bool) returns (unsynchronization: bool, bodyBuffer: seq<byte>)
      ensures unsynchronization == Unsynchronises(body, unsyncTags)
      ensures bodyBuffer == WrittenData(body, unsyncTags)
    {
      unsynchronization := unsyncTags && RequiresUnsync(body);
      bodyBuffer := body;
      if unsynchronization {
        bodyBuffer := Unsync(body);
      }
    }

    /** The format flag updates of `write`: non-standard bits, compression and data length cleared, unsynchronisation as given. */
    method RewriteEncodingFlags(unsynchronization: bool)
      modifies encodingFlags
      ensures encodingFlags.flags == WrittenEncodingFlags(old(encodingFlags.flags), unsynchronization)
    {
      encodingFlags.UnsetNonStandardFlags();
      if unsynchronization {
        encodingFlags.SetUnsynchronised();
      } else {
        encodingFlags.UnsetUnsynchronised();
      }
      encodingFlags.UnsetCompression();
      encodingFlags.UnsetDataLengthIndicator();
    }

    /**
     * `write`, with the header laid out as a reader expects it: the body's
     * bytes (unsynchronised when the option is on and they need it), a
     * three-character identifier padded with a space, the format flags
     * rewritten as `WrittenEncodingFlags` says, and the size counting the
     * grouping and encryption bytes. When the identifier has fewer than four
     * bytes, `put` fails before the format flags are touched.
     */
    method Write(body: seq<byte>, unsyncTags: bool) returns (out: Result<seq<byte>>)
      modifies this, encodingFlags
      ensures out == WrittenFrame(FrameToWrite(old(identifier), old(statusFlags.writeFlags), old(encodingFlags.flags),
                                               groupIdentifier, encryptionMethod, body), unsyncTags)
      ensures identifier == PaddedIdentifier(old(identifier))
      ensures out.Success? ==> encodingFlags.flags == WrittenEncodingFlags(old(encodingFlags.flags), Unsynchronises(body, unsyncTags))
      ensures out.Failure? ==> encodingFlags.flags == old(encodingFlags.flags)
      ensures statusFlags == old(statusFlags) && encodingFlags == old(encodingFlags) && frameBody == old(frameBody)
      ensures frameSize == old(frameSize) && groupIdentifier == old(groupIdentifier) && encryptionMethod == old(encryptionMethod)
    {
      ghost var f := FrameToWrite(identifier, statusFlags.writeFlags, encodingFlags.flags,
                                  groupIdentifier, encryptionMethod, body);
      var unsynchronization, bodyBuffer := UnsynchronisedBody(body, unsyncTags);
      if |identifier| == 3 {
        identifier := identifier + " ";
      }
      var idBytes := Latin1(identifier);
      if |idBytes| < FRAME_ID_SIZE {
        return Failure(Unchecked);
      }
      RewriteEncodingFlags(unsynchronization);
      var framed := AssembleFrame(idBytes[..FRAME_ID_SIZE], statusFlags.writeFlags, encodingFlags.flags,
                                  groupIdentifier, encryptionMethod, bodyBuffer);
      out := Success(framed);
      assert idBytes == Latin1(PaddedIdentifier(f.id));
    }
  }
}
