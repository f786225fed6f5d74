/**
 * The MP4 chunk offset box, `stco` (section 8.7.5 of ISO/IEC 14496-12): a
 * version byte, three flag bytes, the number of entries and then one 32-bit
 * big-endian file offset per chunk. The box is read either from a byte
 * buffer, which it keeps so that `adjustOffsets` can shift every offset in
 * place when the audio data moves, or from a stream, which only records where
 * the audio data starts.
 */
module Mp4StcoBox {
  import opened Bytes
  import opened Buffers
  import opened Mp4BoxHeader

  const VERSION_FLAG_LENGTH: nat := 1
  const OTHER_FLAG_LENGTH: nat := 3
  const NO_OF_OFFSETS_LENGTH: nat := 4
  const OFFSET_LENGTH: nat := 4

  /** Where the first offset lies: after the version, the flags and the count. */
  const FIRST_OFFSET_POS: nat := VERSION_FLAG_LENGTH + OTHER_FLAG_LENGTH + NO_OF_OFFSETS_LENGTH

  /** The identifier `Mp4AtomIdentifier.STCO` matches. */
  const STCO: string := "stco"

  /** Why a box could not be read: not an `stco` header, a buffer too short for the fixed fields, or a stream that ended. */
  datatype BoxError = NotStco | BufferUnderflow | EndOfStream

  /** A box read, or why not. */
  datatype BoxRead = BoxRead(box: StcoBox) | BoxFailed(error: BoxError)

  /** The bytes t with the four big-endian bytes of the low 32 bits of x written at p, as the absolute `putInt(p, x)` does. */
  function WithInt(t: seq<byte>, p: nat, x: int): (r: seq<byte>)
    requires p + 4 <= |t|
    ensures |r| == |t|
  {
    var b := Int32Bytes(x);
    t[p := b[0]][p + 1 := b[1]][p + 2 := b[2]][p + 3 := b[3]]
  }

  /** What `putInt(p, x)` writes, `getInt(p)` reads back. */
  lemma {:induction false} WithIntReads(t: seq<byte>, p: nat, x: int)
    requires p + 4 <= |t| && IsInt32(x)
    ensures Int32At(WithInt(t, p, x), p) == x
  {
    var b := Int32Bytes(x);
    Int32RoundTrip(x);
    var r := WithInt(t, p, x);
    assert r[p] == b[0] && r[p + 1] == b[1] && r[p + 2] == b[2] && r[p + 3] == b[3];
  }

  /** `putInt(p, x)` leaves the bytes outside the four at p as they were. */
  lemma WithIntKeeps(t: seq<byte>, p: nat, x: int, j: nat)
    requires p + 4 <= |t| && j < |t| && (j < p || j >= p + 4)
    ensures WithInt(t, p, x)[j] == t[j]
  {
  }

  /** An `int` that does not overlap the four bytes at p reads the same after `putInt(p, x)`. */
  lemma {:induction false} WithIntOther(t: seq<byte>, p: nat, x: int, q: nat)
    requires p + 4 <= |t| && q + 4 <= |t| && (q + 4 <= p || p + 4 <= q)
    ensures Int32At(WithInt(t, p, x), q) == Int32At(t, q)
  {
    var r := WithInt(t, p, x);
    WithIntKeeps(t, p, x, q);
    WithIntKeeps(t, p, x, q + 1);
    WithIntKeeps(t, p, x, q + 2);
    WithIntKeeps(t, p, x, q + 3);
  }

  /** The absolute `putInt(p, x)` on an array. */
  method PutInt(a: array<byte>, p: nat, x: int)
    requires p + 4 <= a.Length
    modifies a
    ensures a[..] == WithInt(old(a[..]), p, x)
  {
    var b := Int32Bytes(x);
    a[p] := b[0];
    a[p + 1] := b[1];
    a[p + 2] := b[2];
    a[p + 3] := b[3];
  }

  /** The byte index of offset entry i in a box buffer starting at base. */
  function EntryPos(base: nat, i: nat): nat
  {
    base + FIRST_OFFSET_POS + OFFSET_LENGTH * i
  }

  /**
   * The bytes s after the first count offsets of the box at base have each
   * been rewritten as the `int` sum of the offset and the adjustment, that
   * is, with 32-bit wrap-around.
   */
  function Adjusted(s: seq<byte>, base: nat, count: nat, adjustment: int): (r: seq<byte>)
    requires EntryPos(base, count) <= |s|
    ensures |r| == |s|
  {
    if count == 0 then s
    else
      var p := EntryPos(base, count - 1);
      WithInt(Adjusted(s, base, count - 1, adjustment), p, ToInt32(Int32At(s, p) + adjustment))
  }

  /** Adjusting leaves every byte outside the first count offsets as it was. */
  lemma {:induction false} AdjustedKeepsOthers(s: seq<byte>, base: nat, count: nat, adjustment: int, j: nat)
    requires EntryPos(base, count) <= |s| && j < |s|
    requires j < EntryPos(base, 0) || j >= EntryPos(base, count)
    ensures Adjusted(s, base, count, adjustment)[j] == s[j]
    decreases count
  {
    if count > 0 {
      AdjustedKeepsOthers(s, base, count - 1, adjustment, j);
      var p := EntryPos(base, count - 1);
      WithIntKeeps(Adjusted(s, base, count - 1, adjustment), p, ToInt32(Int32At(s, p) + adjustment), j);
    }
  }

  /** Adjusting the first count offsets leaves the next one as it was. */
  lemma {:induction false} AdjustedKeepsNext(s: seq<byte>, base: nat, count: nat, adjustment: int)
    requires EntryPos(base, count + 1) <= |s|
    ensures Int32At(Adjusted(s, base, count, adjustment), EntryPos(base, count)) == Int32At(s, EntryPos(base, count))
  {
    var p := EntryPos(base, count);
    AdjustedKeepsOthers(s, base, count, adjustment, p);
    AdjustedKeepsOthers(s, base, count, adjustment, p + 1);
    AdjustedKeepsOthers(s, base, count, adjustment, p + 2);
    AdjustedKeepsOthers(s, base, count, adjustment, p + 3);
  }

  /** After adjusting, each of the first count offsets reads as its old value plus the adjustment, wrapped to 32 bits. */
  lemma {:induction false} AdjustedReads(s: seq<byte>, base: nat, count: nat, adjustment: int, i: nat)
    requires EntryPos(base, count) <= |s| && i < count
    ensures Int32At(Adjusted(s, base, count, adjustment), EntryPos(base, i)) == ToInt32(Int32At(s, EntryPos(base, i)) + adjustment)
    decreases count
  {
    var p := EntryPos(base, count - 1);
    var t := Adjusted(s, base, count - 1, adjustment);
    var x := ToInt32(Int32At(s, p) + adjustment);
    if i == count - 1 {
      WithIntReads(t, p, x);
    } else {
      AdjustedReads(s, base, count - 1, adjustment, i);
      WithIntOther(t, p, x, EntryPos(base, i));
    }
  }

  /** Adjusting twice adds up: by a and then by b is the same as by a + b. */
  lemma {:induction false} AdjustedTwice(s: seq<byte>, base: nat, count: nat, a: int, b: int, i: nat)
    requires EntryPos(base, count) <= |s| && i < count
    ensures Int32At(Adjusted(Adjusted(s, base, count, a), base, count, b), EntryPos(base, i))
            == Int32At(Adjusted(s, base, count, a + b), EntryPos(base, i))
  {
    var q := EntryPos(base, i);
    var x := Int32At(s, q);
    var t := Adjusted(s, base, count, a);
    AdjustedReads(s, base, count, a, i);
    AdjustedReads(t, base, count, b, i);
    AdjustedReads(s, base, count, a + b, i);
    WrapAdd(x, a, b, Int32At(t, q));
  }

  /**
   * One turn of the `adjustOffsets` loop: on top of the first count
   * offsets, entry count is rewritten from the value it still has.
   */
  lemma {:induction false} AdjustedStep(s: seq<byte>, base: nat, count: nat, adjustment: int, t: seq<byte>, offset: int)
    requires EntryPos(base, count + 1) <= |s|
    requires t == Adjusted(s, base, count, adjustment)
    requires offset == ToInt32(Int32At(t, EntryPos(base, count)) + adjustment)
    ensures Adjusted(s, base, count + 1, adjustment) == WithInt(t, EntryPos(base, count), offset)
  {
    AdjustedKeepsNext(s, base, count, adjustment);
  }

  /** How many offsets `adjustOffsets` rewrites: the count, but none when negative and only those that fit. */
  function RewrittenEntries(count: int, length: nat): (r: nat)
    ensures r <= EntriesThatFit(length)
    ensures 0 <= count <= EntriesThatFit(length) ==> r == count
    ensures count > EntriesThatFit(length) ==> r == EntriesThatFit(length)
  {
    if count < 0 then 0 else if count <= EntriesThatFit(length) then count else EntriesThatFit(length)
  }

  /** The body of the `adjustOffsets` loop: entry i is read, adjusted and written back in place. */
  method AdjustEntry(a: array<byte>, ghost s: seq<byte>, base: nat, i: nat, adjustment: Int32)
    requires EntryPos(base, i + 1) <= |s| == a.Length
    requires a[..] == Adjusted(s, base, i, adjustment)
    modifies a
    ensures a[..] == Adjusted(s, base, i + 1, adjustment)
  {
    var p := EntryPos(base, i);
    var offset := Int32At(a[..], p);
    offset := ToInt32(offset + adjustment);
    AdjustedStep(s, base, i, adjustment, a[..], offset);
    PutInt(a, p, offset);
  }

  /** The number of offset entries that fit in a box buffer of the given length: those that end within it, and no more. */
  function EntriesThatFit(length: nat): (r: nat)
    ensures length >= FIRST_OFFSET_POS ==> FIRST_OFFSET_POS + OFFSET_LENGTH * r <= length
    ensures FIRST_OFFSET_POS + OFFSET_LENGTH * (r + 1) > length
  {
    if length < FIRST_OFFSET_POS then 0 else (length - FIRST_OFFSET_POS) / OFFSET_LENGTH
  }

  /** The state of the `adjustOffsets` loop after its first i turns. */
  ghost predicate AdjustedSoFar(t: seq<byte>, s: seq<byte>, base: nat, i: nat, adjustment: int)
  {
    EntryPos(base, i) <= |s| && t == Adjusted(s, base, i, adjustment)
  }

  /**
   * The loop of `adjustOffsets` over the box buffer of the given length at
   * base in a: entries are rewritten while one more fits, for count entries.
   */
  method AdjustEntries(a: array<byte>, base: nat, length: nat, count: int, adjustment: Int32) returns (ok: bool)
    requires FIRST_OFFSET_POS <= length && base + length <= a.Length
    modifies a
    ensures ok <==> count <= EntriesThatFit(length)
    ensures a[..] == Adjusted(old(a[..]), base, RewrittenEntries(count, length), adjustment)
  {
    ghost var s := a[..];
    var n := if count < 0 then 0 else count;
    var position := VERSION_FLAG_LENGTH + OTHER_FLAG_LENGTH + NO_OF_OFFSETS_LENGTH;
    var i := 0;
    while i < n
      invariant 0 <= i <= n
      invariant position == FIRST_OFFSET_POS + OFFSET_LENGTH * i <= length
      invariant AdjustedSoFar(a[..], s, base, i, adjustment)
    {
      if position + OFFSET_LENGTH > length {
        LastFit(count, i, length);
        return false;
      }
      AdjustEntry(a, s, base, i, adjustment);
      position := position + OFFSET_LENGTH;
      i := i + 1;
    }
    AllFit(count, n, length);
    ok := true;
  }

  /** An entry that starts within the buffer but does not end within it is the first that does not fit, and the last rewritten. */
  lemma LastFit(count: int, i: nat, length: nat)
    requires FIRST_OFFSET_POS + OFFSET_LENGTH * i <= length < FIRST_OFFSET_POS + OFFSET_LENGTH * (i + 1)
    requires i < count
    ensures count > EntriesThatFit(length) && i == RewrittenEntries(count, length)
  {
    var r := EntriesThatFit(length);
    assert FIRST_OFFSET_POS + OFFSET_LENGTH * r <= length;
  }

  /** When all n entries of a non-negative count fit, all are rewritten. */
  lemma AllFit(count: int, n: nat, length: nat)
    requires n == if count < 0 then 0 else count
    requires FIRST_OFFSET_POS + OFFSET_LENGTH * n <= length
    ensures count <= EntriesThatFit(length) && n == RewrittenEntries(count, length)
  {
  }

  /**
   * What `Mp4AudioHeader` records about the audio data. A new header has the
   * defaults of `GenericAudioHeader`: start 1, end and length -1.
   */
  class AudioHeader {
    var fileSize: int
    var audioDataStartPosition: int
    var audioDataEndPosition: int
    var audioDataLength: int

    constructor (fileSize: int)
      ensures this.fileSize == fileSize
      ensures audioDataStartPosition == 1 && audioDataEndPosition == -1 && audioDataLength == -1
    {
      this.fileSize := fileSize;
      audioDataStartPosition, audioDataEndPosition, audioDataLength := 1, -1, -1;
    }
  }

  class StcoBox {
    var header: BoxHeader
    var noOfOffSets: int
    var firstOffSet: int
    /** The bytes of `dataBuffer`, shared with the buffer it was sliced from, or none for a box read from a stream. */
    var data: array?<byte>
    /** Where `dataBuffer` starts in data, and how long it is. */
    var base: nat
    var length: nat

    ghost predicate Valid()
      reads this
    {
      data != null ==> FIRST_OFFSET_POS + OFFSET_LENGTH <= length && base + length <= data.Length
    }

    constructor Init(header: BoxHeader, noOfOffSets: int, firstOffSet: int, data: array?<byte>, base: nat, length: nat)
      ensures this.header == header && this.noOfOffSets == noOfOffSets && this.firstOffSet == firstOffSet
      ensures this.data == data && this.base == base && this.length == length
    {
      this.header := header;
      this.noOfOffSets := noOfOffSets;
      this.firstOffSet := firstOffSet;
      this.data := data;
      this.base := base;
      this.length := length;
    }

    /**
     * `Mp4StcoBox(header, buffer)` on the bytes of buffer from position to
     * limit: the slice skips the version and flag bytes and reads the count
     * and the first offset as big-endian `int`s. A buffer shorter than that
     * throws.
     */
    static method FromBuffer(header: BoxHeader, buffer: array<byte>, position: nat, limit: nat) returns (r: BoxRead)
      requires position <= limit <= buffer.Length
      ensures r.BoxRead? <==> limit - position >= FIRST_OFFSET_POS + OFFSET_LENGTH
      ensures r.BoxRead? ==>
                var b := r.box;
                && fresh(b) && b.Valid() && b.header == header
                && b.data == buffer && b.base == position && b.length == limit - position
                && b.noOfOffSets == Int32At(buffer[..], position + 4)
                && b.firstOffSet == Int32At(buffer[..], position + 8)
    {
      var length := limit - position;
      if length < VERSION_FLAG_LENGTH + OTHER_FLAG_LENGTH + 4 + 4 {
        return BoxFailed(BufferUnderflow);
      }
      var p := VERSION_FLAG_LENGTH + OTHER_FLAG_LENGTH;
      var noOfOffSets := Int32At(buffer[..], position + p);
      p := p + 4;
      var firstOffSet := Int32At(buffer[..], position + p);
      var b := new StcoBox.Init(header, noOfOffSets, firstOffSet, buffer, position, length);
      r := BoxRead(b);
    }

    /**
     * `adjustOffsets(adjustment)`: each of the `noOfOffSets` offsets is read
     * and written back plus the adjustment, with 32-bit wrap-around. When
     * the count goes beyond the buffer, the offsets that fit are rewritten
     * and the next read throws; a box read from a stream has no buffer and
     * throws at once.
     */
    method AdjustOffsets(adjustment: Int32) returns (ok: bool)
      requires Valid()
      modifies data
      ensures data != null ==> (ok <==> noOfOffSets <= EntriesThatFit(length))
      ensures data != null ==> data[..] == Adjusted(old(data[..]), base, RewrittenEntries(noOfOffSets, length), adjustment)
      ensures data == null ==> !ok
      ensures noOfOffSets == old(noOfOffSets) && firstOffSet == old(firstOffSet)
    {
      if data == null {
        return false;
      }
      ok := AdjustEntries(data, base, length, noOfOffSets, adjustment);
    }

    /**
     * What the stream constructor skips after the count and the first
     * offset: the data length less the twelve bytes read, counted down in
     * `int` arithmetic.
     */
    static function StreamRest(header: BoxHeader): Int32
    {
      ToInt32(header.DataLength() - (FIRST_OFFSET_POS + OFFSET_LENGTH))
    }

    /**
     * `Mp4StcoBox(header, source, audioHeader)`: the header must be that of
     * an `stco` box; the version and flags are skipped, the count and the
     * first offset read, the audio data recorded as running from the first
     * offset to the end of the file, and the rest of the box skipped. A
     * stream that ends early throws `EOFException`: a `skip` past the end
     * has consumed everything, a `readInt` with fewer than four bytes left
     * consumes nothing, and the audio data is recorded as soon as both
     * `int`s were read, before the last `skip` fails.
     */
    static method FromSource(header: BoxHeader, src: Source, audio: AudioHeader) returns (r: BoxRead)
      modifies src, audio
      ensures header.id != STCO ==> r == BoxFailed(NotStco) && src.bytes == old(src.bytes)
                                    && audio.audioDataStartPosition == old(audio.audioDataStartPosition)
                                    && audio.audioDataEndPosition == old(audio.audioDataEndPosition)
                                    && audio.audioDataLength == old(audio.audioDataLength)
      ensures r.BoxRead? <==> header.id == STCO && |old(src.bytes)| >= FIRST_OFFSET_POS + OFFSET_LENGTH
                              && StreamRest(header) <= |old(src.bytes)| - 12
      ensures r.BoxRead? ==>
                var t := old(src.bytes);
                var b := r.box;
                && fresh(b) && b.data == null && b.header == header
                && b.noOfOffSets == Int32At(t, 4) && b.firstOffSet == Int32At(t, 8)
                && audio.audioDataStartPosition == b.firstOffSet
                && audio.audioDataEndPosition == audio.fileSize == old(audio.fileSize)
                && audio.audioDataLength == audio.fileSize - b.firstOffSet
                && src.bytes == t[12 + (if StreamRest(header) < 0 then 0 else StreamRest(header))..]
      ensures header.id == STCO && r.BoxFailed? ==>
                var t := old(src.bytes);
                && r == BoxFailed(EndOfStream)
                && (|t| < 4 ==> src.bytes == [])
                && (4 <= |t| < 8 ==> src.bytes == t[4..])
                && (8 <= |t| < 12 ==> src.bytes == t[8..])
                && (|t| < 12 ==> audio.fileSize == old(audio.fileSize)
                                 && audio.audioDataStartPosition == old(audio.audioDataStartPosition)
                                 && audio.audioDataEndPosition == old(audio.audioDataEndPosition)
                                 && audio.audioDataLength == old(audio.audioDataLength))
                && (|t| >= 12 ==> src.bytes == []
                                  && audio.audioDataStartPosition == Int32At(t, 8)
                                  && audio.audioDataEndPosition == audio.fileSize == old(audio.fileSize)
                                  && audio.audioDataLength == audio.fileSize - Int32At(t, 8))
    {
      if header.id != STCO {
        return BoxFailed(NotStco);
      }
      var dataSize := header.DataLength();
      ghost var t := src.bytes;
      var skipped := src.Skip((VERSION_FLAG_LENGTH + OTHER_FLAG_LENGTH) as int);
      if !skipped {
        return BoxFailed(EndOfStream);
      }
      dataSize := ToInt32(dataSize - (VERSION_FLAG_LENGTH + OTHER_FLAG_LENGTH));
      if src.Size() < 4 {
        return BoxFailed(EndOfStream);
      }
      var noOfOffSets := src.ReadInt();
      assert noOfOffSets == Int32At(t, 4);
      dataSize := ToInt32(dataSize - 4);
      WrapAdd(header.DataLength(), -4, -4, ToInt32(header.DataLength() - 4));
      if src.Size() < 4 {
        return BoxFailed(EndOfStream);
      }
      assert src.bytes == t[8..];
      var firstOffSet := src.ReadInt();
      assert firstOffSet == Int32At(t, 8);
      dataSize := ToInt32(dataSize - 4);
      WrapAdd(header.DataLength(), -8, -4, ToInt32(header.DataLength() - 8));
      assert dataSize == StreamRest(header);
      audio.audioDataStartPosition := firstOffSet;
      audio.audioDataEndPosition := audio.fileSize;
      audio.audioDataLength := audio.fileSize - firstOffSet;
      assert src.bytes == t[12..];
      skipped := src.Skip(dataSize);
      if !skipped {
        return BoxFailed(EndOfStream);
      }
      var b := new StcoBox.Init(header, noOfOffSets, firstOffSet, null, 0, 0);
      r := BoxRead(b);
    }
  }
}
