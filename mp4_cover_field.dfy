/**
 * `Mp4TagCoverField`: one cover-art image of an MP4 `covr` item. The image
 * is JPEG or PNG; it is classified either by the class id of its data atom or
 * by the first byte of the image. Reading it from the item (`build`) copies
 * the image bytes after the data atom's own header and absorbs an optional
 * `name` atom that follows it into the sizes.
 */
module Mp4TagCoverField {
  import opened Bytes
  import opened Buffers
  import opened Mp4BoxHeader

  /** `Mp4NameBox.IDENTIFIER`. */
  const NAME_ID: string := "name"

  /** The two image types a cover can have (`Mp4FieldType.COVERART_JPEG` and `COVERART_PNG`). */
  datatype ImageType = CoverArtJpeg | CoverArtPng

  /**
   * The collaborators of `build` and of the constructors: `new
   * Mp4BoxHeader(raw)` on the bytes from the position, which takes
   * `HEADER_LENGTH` bytes when it succeeds; `Mp4DataBox.PRE_DATA_LENGTH`; and
   * `Mp4FieldType.COVERART_JPEG.getFileClassId()`.
   */
  datatype CoverEnv = CoverEnv(readHeader: seq<byte> -> Option<BoxHeader>, preDataLength: nat, jpegClassId: int)

  /** The first bytes of the PNG signature `Mp4TagCoverField(byte[])` looks for. */
  predicate IsPngSignatureByte(b: byte)
  {
    b == 0x89 || b == 0x50 || b == 0x4E || b == 0x47
  }

  /** What `build` reads: the image bytes, the two sizes and how far the cursor moved. */
  datatype Built = Built(dataBytes: seq<byte>, dataSize: int, dataAndHeaderSize: int, consumed: nat)

  /**
   * `build(raw)` on the bytes w from the position: the data atom's header,
   * the pre-data fields skipped, the image of the header's data length less
   * the pre-data, and then, when a whole header fits before the limit and it
   * is a `name` atom's, that atom's sizes added (the cursor stays after the
   * `name` header); otherwise the cursor goes back to just after the data
   * atom. The sizes are Java `int`s, so the subtraction and the additions
   * wrap around. None when a read fails: a header that cannot be read, a
   * position beyond the limit, a negative image length or an image longer
   * than what is left.
   */
  function BuiltFrom(env: CoverEnv, w: seq<byte>): (r: Option<Built>)
    ensures r.Some? ==> IsInt32(r.value.dataSize) && IsInt32(r.value.dataAndHeaderSize)
    ensures r.Some? ==> HEADER_LENGTH + env.preDataLength + |r.value.dataBytes| <= r.value.consumed <= |w|
  {
    if |w| < HEADER_LENGTH then None
    else
      match env.readHeader(w)
      case None => None
      case Some(h) =>
        var p := HEADER_LENGTH + env.preDataLength;
        var n := ToInt32(h.DataLength() - env.preDataLength);
        if p > |w| || n < 0 || p + n > |w| then None
        else
          var q := p + n;
          AfterImage(env, w[q..], w[p..q], h, q)
  }

  /**
   * The end of `build`, with the image read and `tail` the bytes after it,
   * q bytes from where the data atom began: a `name` atom's header is
   * absorbed into the sizes, any other header is left unread, and a header
   * that does not fit before the limit is not looked at.
   */
  function AfterImage(env: CoverEnv, tail: seq<byte>, image: seq<byte>, h: BoxHeader, q: nat): (r: Option<Built>)
    ensures r.Some? ==> IsInt32(r.value.dataSize) && IsInt32(r.value.dataAndHeaderSize)
    ensures r.Some? ==> r.value.dataBytes == image && q <= r.value.consumed <= q + |tail|
  {
    if HEADER_LENGTH <= |tail| then
      match env.readHeader(tail)
      case None => None
      case Some(name) =>
        if name.id == NAME_ID then
          Some(Built(image, ToInt32(h.DataLength() + name.DataLength()), ToInt32(h.length + name.length),
                     q + HEADER_LENGTH))
        else Some(Built(image, h.DataLength(), h.length, q))
    else Some(Built(image, h.DataLength(), h.length, q))
  }

  /** Once the image fits, what `build` returns is decided by what follows the image. */
  lemma BuiltFromImage(env: CoverEnv, w: seq<byte>, h: BoxHeader, p: nat, n: nat)
    requires |w| >= HEADER_LENGTH && env.readHeader(w) == Some(h)
    requires p == HEADER_LENGTH + env.preDataLength && n == ToInt32(h.DataLength() - env.preDataLength)
    requires p + n <= |w|
    ensures BuiltFrom(env, w) == AfterImage(env, w[p + n..], w[p..p + n], h, p + n)
  {
  }

  /**
   * The layout `build` expects, read back: a data atom header h, the
   * pre-data, an image of exactly the data length less the pre-data, and
   * then whatever follows. The image comes back byte for byte. With fewer
   * bytes than a header after it, or a header of another atom, the sizes are
   * the data atom's and the cursor stops after the image; after a `name`
   * header they include that atom's sizes (with `int` wrap-around) and the
   * cursor stops after the `name` header; a header that cannot be read fails.
   */
  lemma {:induction false} BuiltLayout(env: CoverEnv, head: seq<byte>, preData: seq<byte>, image: seq<byte>,
                                       tail: seq<byte>, h: BoxHeader)
    requires |head| == HEADER_LENGTH && |preData| == env.preDataLength
    requires env.readHeader(head + preData + image + tail) == Some(h)
    requires h.DataLength() == env.preDataLength + |image|
    ensures var w := head + preData + image + tail;
            var q := |head| + |preData| + |image|;
            var b := BuiltFrom(env, w);
            && (|tail| < HEADER_LENGTH ==> b == Some(Built(image, h.DataLength(), h.length, q)))
            && (|tail| >= HEADER_LENGTH ==>
                  match env.readHeader(tail)
                  case None => b == None
                  case Some(name) =>
                    if name.id == NAME_ID then
                      b == Some(Built(image, ToInt32(h.DataLength() + name.DataLength()), ToInt32(h.length + name.length),
                                      q + HEADER_LENGTH))
                    else b == Some(Built(image, h.DataLength(), h.length, q)))
  {
    var w := head + preData + image + tail;
    var p := |head| + |preData|;
    var q := p + |image|;
    assert ToInt32(h.DataLength() - env.preDataLength) == |image|;
    assert w[p..q] == image;
    assert w[q..] == tail;
  }

  /** `toString`'s text for an image type and a byte count. */
  function Description(t: ImageType, n: nat): string
  {
    match t
    case CoverArtJpeg => "jpeg:" + NatToString(n) + "bytes"
    case CoverArtPng => "png" + NatToString(n) + "bytes"
  }

  /** The decimal digits of n, as `String.valueOf(int)` writes a non-negative number. */
  function NatToString(n: nat): (r: string)
    ensures |r| > 0 && forall i :: 0 <= i < |r| ==> '0' <= r[i] <= '9'
    decreases n
  {
    if n < 10 then [DigitChar(n)] else NatToString(n / 10) + [DigitChar(n % 10)]
  }

  function DigitChar(d: nat): (c: char)
    requires d < 10
    ensures '0' <= c <= '9' && c as int - '0' as int == d
  {
    (d + '0' as int) as char
  }

  /** The number a string of decimal digits stands for. */
  function DigitsValue(s: string): nat
    requires forall i :: 0 <= i < |s| ==> '0' <= s[i] <= '9'
  {
    if |s| == 0 then 0 else DigitsValue(s[..|s| - 1]) * 10 + (s[|s| - 1] as int - '0' as int)
  }

  lemma {:induction false} NatToStringValue(n: nat)
    ensures DigitsValue(NatToString(n)) == n
    decreases n
  {
    var r := NatToString(n);
    if n >= 10 {
      NatToStringValue(n / 10);
      assert r[..|r| - 1] == NatToString(n / 10);
    }
  }

  /** Reading a description back: the image type from the prefix, the count from the digits before "bytes". */
  function ParsedDescription(s: string): (r: Option<(ImageType, nat)>)
  {
    if |s| >= 10 && s[..5] == "jpeg:" && s[|s| - 5..] == "bytes" && AllDigits(s[5..|s| - 5]) then
      Some((CoverArtJpeg, DigitsValue(s[5..|s| - 5])))
    else if |s| >= 9 && s[..3] == "png" && s[|s| - 5..] == "bytes" && AllDigits(s[3..|s| - 5]) then
      Some((CoverArtPng, DigitsValue(s[3..|s| - 5])))
    else None
  }

  predicate AllDigits(s: string)
  {
    forall i :: 0 <= i < |s| ==> '0' <= s[i] <= '9'
  }

  /** The description names the image type and the byte count unambiguously: it reads back as both. */
  lemma {:induction false} DescriptionReadBack(t: ImageType, n: nat)
    ensures ParsedDescription(Description(t, n)) == Some((t, n))
  {
    var d := NatToString(n);
    NatToStringValue(n);
    var s := Description(t, n);
    if t == CoverArtJpeg {
      assert s[..5] == "jpeg:" && s[|s| - 5..] == "bytes" && s[5..|s| - 5] == d;
    } else {
      assert s[..3] == "png" && s[|s| - 5..] == "bytes" && s[3..|s| - 5] == d;
      assert s[..5] != "jpeg:" by {
        assert s[0] == 'p';
      }
    }
  }

  class CoverField {
    var imageType: ImageType
    var dataBytes: array<byte>
    var dataSize: int
    var dataAndHeaderSize: int

    constructor Init(imageType: ImageType, dataBytes: array<byte>, dataSize: int, dataAndHeaderSize: int)
      ensures this.imageType == imageType && this.dataBytes == dataBytes
      ensures this.dataSize == dataSize && this.dataAndHeaderSize == dataAndHeaderSize
    {
      this.imageType := imageType;
      this.dataBytes := dataBytes;
      this.dataSize := dataSize;
      this.dataAndHeaderSize := dataAndHeaderSize;
    }

    /** `getFieldType`: the image type. */
    function GetFieldType(): ImageType
      reads this
    {
      imageType
    }

    /** `isBinary`: a cover is always binary data. */
    function IsBinary(): bool
    {
      true
    }

    /** `toString`: the image type and the length of the image. */
    function ToString(): (r: string)
      reads this
      ensures ParsedDescription(r) == Some((imageType, dataBytes.Length))
    {
      DescriptionReadBack(imageType, dataBytes.Length);
      Description(imageType, dataBytes.Length)
    }

    /**
     * `Mp4TagCoverField(byte[] data)`: the field holds the array itself and
     * is PNG exactly when the image starts with a signature byte; an empty
     * array has no first byte and the constructor throws.
     */
    static method FromData(data: array<byte>) returns (r: Option<CoverField>)
      ensures r.Some? <==> data.Length > 0
      ensures r.Some? ==> fresh(r.value) && r.value.dataBytes == data
                          && (r.value.GetFieldType() == CoverArtPng <==> data[0] in {0x89, 0x50, 0x4E, 0x47})
    {
      if data.Length == 0 {
        return None;
      }
      var t := if IsPngSignatureByte(data[0]) then CoverArtPng else CoverArtJpeg;
      var f := new CoverField.Init(t, data, 0, 0);
      r := Some(f);
    }

    /**
     * `Mp4TagCoverField(raw, type)`: the field is built from raw and is JPEG
     * exactly for the JPEG class id.
     */
    static method FromBuffer(env: CoverEnv, raw: ByteBuffer, classId: int) returns (r: Option<CoverField>)
      requires raw.Valid()
      modifies raw
      ensures raw.Valid() && raw.content == old(raw.content) && raw.limit == old(raw.limit)
      ensures var b := BuiltFrom(env, old(raw.Window()));
              && (r.Some? <==> b.Some?)
              && (r.Some? ==> fresh(r.value) && fresh(r.value.dataBytes)
                              && (r.value.GetFieldType() == CoverArtJpeg <==> classId == env.jpegClassId)
                              && r.value.dataBytes[..] == b.value.dataBytes
                              && r.value.dataSize == b.value.dataSize
                              && r.value.dataAndHeaderSize == b.value.dataAndHeaderSize
                              && raw.position == old(raw.position) + b.value.consumed)
    {
      var a := new byte[0];
      var f := new CoverField.Init(CoverArtPng, a, 0, 0);
      var ok := f.Build(env, raw);
      if !ok {
        return None;
      }
      f.imageType := if classId == env.jpegClassId then CoverArtJpeg else CoverArtPng;
      r := Some(f);
    }

    /**
     * The copy loop of `build`: a new array of n bytes filled with `get()`
     * from the position; false when the limit comes first.
     */
    static method CopyOut(raw: ByteBuffer, n: nat) returns (ok: bool, bytes: array<byte>)
      requires raw.Valid()
      modifies raw
      ensures raw.Valid() && raw.content == old(raw.content) && raw.limit == old(raw.limit)
      ensures fresh(bytes) && bytes.Length == n
      ensures ok <==> n <= old(raw.Remaining())
      ensures ok ==> bytes[..] == old(raw.Window())[..n] && raw.position == old(raw.position) + n
    {
      ghost var w := raw.Window();
      ghost var p0 := raw.position;
      bytes := new byte[n];
      for i := 0 to n
        invariant raw.Valid() && raw.content == old(raw.content) && raw.limit == old(raw.limit)
        invariant raw.position == p0 + i && i <= |w|
        invariant bytes[..i] == w[..i]
      {
        if raw.position >= raw.limit {
          return false, bytes;
        }
        var b := raw.Get();
        bytes[i] := b;
        assert bytes[..i + 1] == bytes[..i] + [b];
      }
      assert bytes[..] == bytes[..n];
      ok := true;
    }

    /** The end of `build`, after the image, proved to follow `AfterImage`. */
    method ReadNameAtom(env: CoverEnv, raw: ByteBuffer, h: BoxHeader, ghost image: seq<byte>, ghost q: nat)
      returns (ok: bool)
      requires raw.Valid() && raw.position >= q
      requires dataSize == h.DataLength() && dataAndHeaderSize == h.length
      modifies this, raw
      ensures raw.Valid() && raw.content == old(raw.content) && raw.limit == old(raw.limit)
      ensures imageType == old(imageType) && dataBytes == old(dataBytes)
      ensures var a := AfterImage(env, old(raw.Window()), image, h, q);
              && (ok <==> a.Some?)
              && (ok ==> dataSize == a.value.dataSize && dataAndHeaderSize == a.value.dataAndHeaderSize
                         && raw.position == old(raw.position) - q + a.value.consumed)
    {
      var positionAfterDataAtom := raw.position;
      if raw.position + HEADER_LENGTH <= raw.limit {
        var nameHeader := env.readHeader(raw.Window());
        if nameHeader.None? {
          return false;
        }
        raw.SetPosition(raw.position + HEADER_LENGTH);
        if nameHeader.value.id == NAME_ID {
          dataSize := ToInt32(dataSize + nameHeader.value.DataLength());
          dataAndHeaderSize := ToInt32(dataAndHeaderSize + nameHeader.value.length);
        } else {
          raw.SetPosition(positionAfterDataAtom);
        }
      }
      ok := true;
    }

    /**
     * The image and what follows it in `build`, with the cursor p bytes past
     * where the data atom began: n bytes copied out, then the `name` atom.
     */
    method ReadImage(env: CoverEnv, raw: ByteBuffer, h: BoxHeader, n: nat, ghost w: seq<byte>, ghost p: nat)
      returns (ok: bool)
      requires raw.Valid() && raw.position >= p && p <= |w| && raw.Window() == w[p..]
      requires dataSize == h.DataLength() && dataAndHeaderSize == h.length
      modifies this, raw
      ensures raw.Valid() && raw.content == old(raw.content) && raw.limit == old(raw.limit)
      ensures imageType == old(imageType)
      ensures p + n > |w| ==> !ok
      ensures p + n <= |w| ==>
                var a := AfterImage(env, w[p + n..], w[p..p + n], h, p + n);
                && (ok <==> a.Some?)
                && (ok ==> fresh(dataBytes) && dataBytes[..] == a.value.dataBytes
                           && dataSize == a.value.dataSize && dataAndHeaderSize == a.value.dataAndHeaderSize
                           && raw.position == old(raw.position) - p + a.value.consumed)
    {
      ghost var win := raw.Window();
      var copied, bytes := CopyOut(raw, n);
      if !copied {
        return false;
      }
      dataBytes := bytes;
      assert bytes[..] == win[..n] == w[p..p + n];
      assert raw.Window() == win[n..] == w[p + n..];
      ok := ReadNameAtom(env, raw, h, w[p..p + n], p + n);
    }

    /** `build(raw)`, proved to follow `BuiltFrom`. */
    method Build(env: CoverEnv, raw: ByteBuffer) returns (ok: bool)
      requires raw.Valid()
      modifies this, raw
      ensures raw.Valid() && raw.content == old(raw.content) && raw.limit == old(raw.limit)
      ensures imageType == old(imageType)
      ensures var b := BuiltFrom(env, old(raw.Window()));
              && (ok <==> b.Some?)
              && (ok ==> fresh(dataBytes) && dataBytes[..] == b.value.dataBytes
                         && dataSize == b.value.dataSize && dataAndHeaderSize == b.value.dataAndHeaderSize
                         && raw.position == old(raw.position) + b.value.consumed)
    {
      ghost var w := raw.Window();
      ghost var p0 := raw.position;
      if raw.Remaining() < HEADER_LENGTH {
        return false;
      }
      var header := env.readHeader(raw.Window());
      if header.None? {
        return false;
      }
      raw.SetPosition(raw.position + HEADER_LENGTH);
      dataSize := header.value.DataLength();
      dataAndHeaderSize := header.value.length;
      if raw.position + env.preDataLength > raw.limit {
        return false;
      }
      raw.SetPosition(raw.position + env.preDataLength);
      var imageLength := ToInt32(dataSize - env.preDataLength);
      if imageLength < 0 {
        return false;
      }
      ghost var p := HEADER_LENGTH + env.preDataLength;
      assert raw.Window() == w[p..];
      ok := ReadImage(env, raw, header.value, imageLength, w, p);
      if ok {
        BuiltFromImage(env, w, header.value, p, imageLength);
      }
    }
  }
}
