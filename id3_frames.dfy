/**
 * What the ID3v2 frame readers and the tag share: frame identifiers, the
 * frame bodies the tag logic looks into, frames as values, the exceptions a
 * frame read raises, and the constant sets of `ID3v23Frames`.
 */
module Id3Frames {
  import opened Bytes

  /** Size of an ID3v2.3/2.4 frame header: identifier, size, two flag bytes. */
  const FRAME_ID_SIZE: nat := 4
  const FRAME_FLAGS_SIZE: nat := 2
  const FRAME_HEADER_SIZE: nat := 10

  /** The characters of an identifier read as ISO-8859-1 bytes. */
  function CharsOf(s: seq<byte>): (r: string)
    ensures |r| == |s|
    ensures forall k :: 0 <= k < |s| ==> r[k] == s[k] as int as char
  {
    if |s| == 0 then [] else [s[0] as int as char] + CharsOf(s[1..])
  }

  predicate IsUpper(c: char) { 'A' <= c <= 'Z' }

  predicate IsUpperOrDigit(c: char) { 'A' <= c <= 'Z' || '0' <= c <= '9' }

  /** `isValidID3v2FrameIdentifier`: the whole identifier matches `[A-Z][0-9A-Z]{3}`. */
  predicate IsValidIdentifier(id: string)
  {
    |id| == 4 && IsUpper(id[0]) && IsUpperOrDigit(id[1]) && IsUpperOrDigit(id[2]) && IsUpperOrDigit(id[3])
  }

  predicate IsUpperByte(b: byte) { 0x41 <= b <= 0x5A }

  predicate IsUpperOrDigitByte(b: byte) { 0x41 <= b <= 0x5A || 0x30 <= b <= 0x39 }

  /**
   * The identifier test on raw header bytes: an identifier is accepted exactly
   * when its first byte is an upper-case letter and the other three are
   * upper-case letters or digits; in particular an all-zero (padding) identifier
   * is never valid.
   */
  lemma {:induction false} ValidIdentifierBytes(s: seq<byte>)
    requires |s| == 4
    ensures IsValidIdentifier(CharsOf(s)) <==>
              IsUpperByte(s[0]) && IsUpperOrDigitByte(s[1]) && IsUpperOrDigitByte(s[2]) && IsUpperOrDigitByte(s[3])
    ensures IsValidIdentifier(CharsOf(s)) ==> s[0] != 0
  {
    var c := CharsOf(s);
    assert c[0] == s[0] as int as char && c[1] == s[1] as int as char;
    assert c[2] == s[2] as int as char && c[3] == s[3] as int as char;
  }

  /** The v2.3 frame identifiers that may occur several times in one tag (`multipleFrames`). */
  const MULTIPLE_FRAMES_V23: set<string> :=
    {"TXXX", "WXXX", "APIC", "PRIV", "COMM", "UFID", "USLT", "POPM", "GEOB", "WOAR"}

  /** The v2.3 frames to drop when the audio is altered (`discardIfFileAlteredFrames`). */
  const DISCARD_IF_FILE_ALTERED_V23: set<string> :=
    {"ETCO", "EQUA", "MLLT", "POSS", "SYLT", "SYTC", "RVAD", "TENC", "TLEN", "TSIZ"}

  const TYER: string := "TYER"
  const TDAT: string := "TDAT"
  const TIME: string := "TIME"
  const IPLS: string := "IPLS"
  const TXXX: string := "TXXX"
  const TCON: string := "TCON"
  const TDRC: string := "TDRC"
  const TIPL: string := "TIPL"
  const TMCL: string := "TMCL"
  const TMOO: string := "TMOO"
  /** Key under which an aggregated TYER+TDAT pair is stored in the frame map. */
  const TYER_TDAT: string := "TYERTDAT"
  /** The TXXX description that marks a mood frame. */
  const MOOD: string := "MOOD"

  /** A name/value pair of an involved-people list. */
  datatype Pair = Pair(key: string, value: string)

  /**
   * A frame body, as far as the tag logic looks into it: text frames, user
   * text (TXXX), paired text lists (TIPL/TMCL/IPLS), the v2.4 date (TDRC,
   * with its v2.3 components already extracted), the genre, bodies the
   * library keeps as raw bytes, and every other body kind by identifier.
   */
  datatype FrameBody =
    | TextBody(textId: string, encoding: int, text: string)
    | UserTextBody(encoding: int, description: string, text: string)
    | PairsBody(pairsId: string, encoding: int, pairs: seq<Pair>)
    | DateBody(encoding: int, year: string, date: string, time: string, monthOnly: bool, hoursOnly: bool)
    | GenreBody(encoding: int, genre: string, v23Format: bool)
    | UnsupportedBody(originalId: string, data: seq<byte>)
    | EncryptedBody(encryptedId: string, data: seq<byte>)
    | DeprecatedBody(original: FrameBody)
    | DatePartBody(partId: string, part: string, partial: bool)
    | OtherBody(otherId: string, content: string)

  /** `getContent` of a frame with this body: the text it carries. */
  function Content(b: FrameBody): string
  {
    match b
    case TextBody(_, _, text) => text
    case UserTextBody(_, _, text) => text
    case GenreBody(_, genre, _) => genre
    case DatePartBody(_, part, _) => part
    case OtherBody(_, content) => content
    case _ => ""
  }

  /** A frame: identifier, the two header flag bytes as read, and body. */
  datatype Frame = Frame(id: string, statusFlags: byte, encodingFlags: byte, body: FrameBody)

  /**
   * The exceptions a frame read can end in: `PaddingException`,
   * `EmptyFrameException`, `InvalidFrameIdentifierException`,
   * `InvalidFrameException`, `InvalidDataTypeException`, another
   * `InvalidTagException`, an `IOException` (such as `EOFException`), or an
   * unchecked `RuntimeException` (buffer underflow, illegal position or limit,
   * a failed cast).
   */
  datatype FrameError =
    | Padding
    | EmptyFrame
    | InvalidFrameIdentifier
    | InvalidFrame
    | InvalidDataType
    | InvalidTag
    | EndOfStream
    | Unchecked

  /**
   * The errors a `catch (InvalidFrameException)` catches: the exception
   * itself and its subclasses `InvalidFrameIdentifierException` (with its
   * own subclass `PaddingException`) and `EmptyFrameException`.
   */
  predicate IsInvalidFrameException(e: FrameError)
  {
    e == InvalidFrame || e == InvalidFrameIdentifier || e == Padding || e == EmptyFrame
  }

  /** How a `void` operation that may throw ended. */
  datatype Outcome = Ok | Err(error: FrameError)

  /** The outcome of a read step and how many bytes it took from the cursor. */
  datatype Step<T> = Step(result: Result<T>, consumed: nat)

  datatype Result<T> = Success(value: T) | Failure(error: FrameError)
  {
    predicate IsFailure() { Failure? }
    function PropagateFailure<U>(): Result<U>
      requires Failure?
    {
      Failure(error)
    }
    function Extract(): T
      requires Success?
    {
      value
    }
  }
}
