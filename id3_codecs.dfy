/**
 * The two byte-level encodings an ID3v2 tag relies on: syncsafe integers
 * (section 6.2 of the ID3v2.4.0 main structure document) and unsynchronisation
 * (section 6.1). The library's `ID3SyncSafeInteger`, `ID3Unsynchronization` and
 * `Id3SynchronizingSink` implement them; they are given bodies here that follow
 * the standard.
 */
module Id3Codecs {
  import opened Bytes

  /** Four bytes hold a syncsafe integer. */
  const INTEGRAL_SIZE: nat := 4

  /** Largest value for which the syncsafe and the plain reading of a size always agree. */
  const MAX_SAFE_SIZE: int := 127

  /**
   * `bufferToValue`: each byte contributes seven bits, most significant first.
   * The bytes are shifted in whole, so a byte with its high bit set (which a
   * syncsafe writer never produces) overlaps into the next group.
   */
  function SyncSafeValue(b0: byte, b1: byte, b2: byte, b3: byte): (r: nat)
    ensures r < TWO_31
    ensures b0 < 0x80 && b1 < 0x80 && b2 < 0x80 && b3 < 0x80 ==> r < 0x1000_0000
  {
    (b0 as int) * 0x20_0000 + (b1 as int) * 0x4000 + (b2 as int) * 0x80 + (b3 as int)
  }

  /** The syncsafe integer stored at index i of s. */
  function SyncSafeAt(s: seq<byte>, i: nat): (r: nat)
    requires i + 4 <= |s|
    ensures r < TWO_31
  {
    SyncSafeValue(s[i], s[i + 1], s[i + 2], s[i + 3])
  }

  /** `isBufferNotSyncSafe`: some byte of the four has its high bit set. */
  predicate NotSyncSafe(s: seq<byte>, i: nat)
    requires i + 4 <= |s|
  {
    s[i] >= 0x80 || s[i + 1] >= 0x80 || s[i + 2] >= 0x80 || s[i + 3] >= 0x80
  }

  /** `isBufferEmpty`: every byte is zero. */
  predicate AllZero(s: seq<byte>)
  {
    forall k :: 0 <= k < |s| ==> s[k] == 0
  }

  /**
   * `valueToBuffer`: the low 28 bits of the (two's complement) value, seven
   * per byte, most significant first.
   */
  function SyncSafeBytes(x: int): (r: seq<byte>)
    ensures |r| == 4
    ensures forall k :: 0 <= k < 4 ==> r[k] < 0x80
  {
    var u := x % 0x1000_0000;
    [(u / 0x20_0000) as byte, ((u / 0x4000) % 0x80) as byte, ((u / 0x80) % 0x80) as byte, (u % 0x80) as byte]
  }

  /** Encoding a value and decoding it gives back its low 28 bits. */
  lemma {:induction false} SyncSafeRoundTrip(x: int)
    ensures SyncSafeAt(SyncSafeBytes(x), 0) == x % 0x1000_0000
    ensures 0 <= x < 0x1000_0000 ==> SyncSafeAt(SyncSafeBytes(x), 0) == x
  {
    var u := x % 0x1000_0000;
    var s := SyncSafeBytes(x);
    var a, d := u / 0x80, u % 0x80;
    var b, c := a / 0x80, a % 0x80;
    var e, f := b / 0x80, b % 0x80;
    assert u == a * 0x80 + d && a == b * 0x80 + c && b == e * 0x80 + f;
    DivPlus(b, c * 0x80 + d, 0x4000);
    DivPlus(e, f * 0x4000 + c * 0x80 + d, 0x20_0000);
    assert s[0] as int == e && s[1] as int == f && s[2] as int == c && s[3] as int == d;
    assert SyncSafeValue(s[0], s[1], s[2], s[3]) == u;
  }

  /** Decoding four syncsafe bytes and encoding the value gives back the same bytes. */
  lemma {:induction false} SyncSafeBytesOfValue(s: seq<byte>, i: nat)
    requires i + 4 <= |s|
    requires !NotSyncSafe(s, i)
    ensures SyncSafeBytes(SyncSafeAt(s, i)) == s[i..i + 4]
  {
    var b0, b1, b2, b3 := s[i] as int, s[i + 1] as int, s[i + 2] as int, s[i + 3] as int;
    var x := SyncSafeAt(s, i);
    assert x % 0x1000_0000 == x;
    DivPlus(b0, b1 * 0x4000 + b2 * 0x80 + b3, 0x20_0000);
    DivPlus(b0 * 0x80 + b1, b2 * 0x80 + b3, 0x4000);
    DivPlus(b0 * 0x4000 + b1 * 0x80 + b2, b3, 0x80);
    DivPlus(b0, b1, 0x80);
    DivPlus(b0 * 0x80 + b1, b2, 0x80);
    assert s[i..i + 4] == [s[i], s[i + 1], s[i + 2], s[i + 3]];
  }

  /**
   * The recovery heuristic rests on this: a syncsafe reading never exceeds
   * the plain big-endian reading of the same bytes, they agree exactly when
   * the value is below 128, and otherwise the plain one is at least 128 more.
   */
  lemma {:induction false} SyncSafeBelowPlain(b0: byte, b1: byte, b2: byte, b3: byte)
    requires b0 < 0x80 && b1 < 0x80 && b2 < 0x80 && b3 < 0x80
    ensures SyncSafeValue(b0, b1, b2, b3) <= BigEndian(b0, b1, b2, b3)
    ensures SyncSafeValue(b0, b1, b2, b3) <= MAX_SAFE_SIZE <==>
              SyncSafeValue(b0, b1, b2, b3) == BigEndian(b0, b1, b2, b3)
    ensures SyncSafeValue(b0, b1, b2, b3) != BigEndian(b0, b1, b2, b3) ==>
              BigEndian(b0, b1, b2, b3) >= SyncSafeValue(b0, b1, b2, b3) + 128
  {
    var d := BigEndian(b0, b1, b2, b3) - SyncSafeValue(b0, b1, b2, b3);
    assert d == (b0 as int) * 0xE0_0000 + (b1 as int) * 0xC000 + (b2 as int) * 0x80;
  }

  // Unsynchronisation, section 6.1 of the ID3v2.4.0 main structure document.

  /** A false synchronisation: 0xFF followed by a byte with its top three bits set. */
  predicate FalseSyncAt(s: seq<byte>, i: nat)
    requires i + 1 < |s|
  {
    s[i] == 0xFF && s[i + 1] >= 0xE0
  }

  /** A false synchronisation occurs, or the data ends in 0xFF: what unsynchronised data never shows. */
  predicate HasFalseSync(s: seq<byte>)
  {
    (exists i :: 0 <= i < |s| - 1 && FalseSyncAt(s, i)) || (|s| > 0 && s[|s| - 1] == 0xFF)
  }

  /** A zero byte goes in after an 0xFF that is followed by 0xE0 or more, by 0x00, or by nothing. */
  predicate NeedsStuffing(b: byte, rest: seq<byte>)
  {
    b == 0xFF && (|rest| == 0 || rest[0] >= 0xE0 || rest[0] == 0)
  }

  /**
   * `requiresUnsynchronization`: some 0xFF is followed by 0xE0 or more, by
   * 0x00, or by the end of the data.
   */
  predicate RequiresUnsync(s: seq<byte>)
  {
    exists i :: 0 <= i < |s| && NeedsStuffing(s[i], s[i + 1..])
  }

  /** `unsynchronize`: insert a zero byte after every 0xFF that needs one. */
  function Unsync(s: seq<byte>): (r: seq<byte>)
    ensures |r| >= |s|
    ensures |s| > 0 ==> |r| > 0 && r[0] == s[0]
  {
    if |s| == 0 then []
    else if NeedsStuffing(s[0], s[1..]) then [s[0], 0] + Unsync(s[1..])
    else [s[0]] + Unsync(s[1..])
  }

  /** `synchronize`: drop the zero byte that directly follows each 0xFF. */
  function Sync(s: seq<byte>): (r: seq<byte>)
    ensures |r| <= |s|
  {
    if |s| == 0 then []
    else if s[0] == 0xFF && |s| > 1 && s[1] == 0 then [0xFF] + Sync(s[2..])
    else [s[0]] + Sync(s[1..])
  }

  /** Synchronising undoes unsynchronising. */
  lemma {:induction false} SyncUnsync(s: seq<byte>)
    ensures Sync(Unsync(s)) == s
    decreases |s|
  {
    if |s| > 0 {
      var rest := s[1..];
      SyncUnsync(rest);
      if NeedsStuffing(s[0], rest) {
        var u := [s[0], 0] + Unsync(rest);
        assert u[2..] == Unsync(rest);
      } else {
        var u := [s[0]] + Unsync(rest);
        assert u[1..] == Unsync(rest);
      }
    }
  }

  /** Data needs unsynchronising exactly when it has a stuffing point at its head or in its tail. */
  lemma {:induction false} RequiresUnsyncCons(s: seq<byte>)
    requires |s| > 0
    ensures RequiresUnsync(s) <==> NeedsStuffing(s[0], s[1..]) || RequiresUnsync(s[1..])
  {
    var rest := s[1..];
    if RequiresUnsync(rest) {
      var i :| 0 <= i < |rest| && NeedsStuffing(rest[i], rest[i + 1..]);
      assert s[i + 1] == rest[i] && s[i + 2..] == rest[i + 1..];
    }
    if RequiresUnsync(s) && !NeedsStuffing(s[0], rest) {
      var i :| 0 <= i < |s| && NeedsStuffing(s[i], s[i + 1..]);
      assert i > 0;
      assert rest[i - 1] == s[i] && rest[i..] == s[i + 1..];
    }
    if NeedsStuffing(s[0], rest) {
      assert s[0 + 1..] == rest;
    }
  }

  /**
   * `requiresUnsynchronization` holds exactly when `unsynchronize` changes
   * the data: the check never skips data that unsynchronising would alter.
   */
  lemma {:induction false} RequiresUnsyncExactly(s: seq<byte>)
    ensures RequiresUnsync(s) <==> Unsync(s) != s
    decreases |s|
  {
    if |s| > 0 {
      var rest := s[1..];
      RequiresUnsyncCons(s);
      RequiresUnsyncExactly(rest);
      if NeedsStuffing(s[0], rest) {
        assert |Unsync(s)| > |s|;
      } else {
        assert Unsync(s) == [s[0]] + Unsync(rest);
        assert s == [s[0]] + rest;
        if Unsync(rest) != rest {
          assert Unsync(s)[1..] == Unsync(rest);
        }
      }
    }
  }

  /** Unsynchronised data contains no false synchronisation and does not end in 0xFF. */
  lemma {:induction false} UnsyncLeavesNoFalseSync(s: seq<byte>)
    ensures !HasFalseSync(Unsync(s))
    decreases |s|
  {
    if |s| > 0 {
      var rest := s[1..];
      UnsyncLeavesNoFalseSync(rest);
      var tail := Unsync(rest);
      var u := Unsync(s);
      if NeedsStuffing(s[0], rest) {
        assert u == [s[0], 0] + tail;
        forall i | 0 <= i < |u| - 1
          ensures !FalseSyncAt(u, i)
        {
          if i >= 2 {
            assert u[i] == tail[i - 2] && u[i + 1] == tail[i - 1];
            assert !FalseSyncAt(tail, i - 2);
          }
        }
      } else {
        assert u == [s[0]] + tail;
        forall i | 0 <= i < |u| - 1
          ensures !FalseSyncAt(u, i)
        {
          if i >= 1 {
            assert u[i] == tail[i - 1] && u[i + 1] == tail[i];
            assert !FalseSyncAt(tail, i - 1);
          } else {
            assert u[1] == rest[0];
          }
        }
        assert |rest| > 0 || s[0] != 0xFF;
        if |rest| > 0 {
          assert u[|u| - 1] == tail[|tail| - 1];
        }
      }
    }
  }

  /** Data that needs no unsynchronisation and has no 0xFF 0x00 pair comes through synchronising unchanged. */
  lemma {:induction false} SyncOfClean(s: seq<byte>)
    requires forall i :: 0 <= i < |s| - 1 ==> !(s[i] == 0xFF && s[i + 1] == 0)
    ensures Sync(s) == s
    decreases |s|
  {
    if |s| > 0 {
      var rest := s[1..];
      forall i | 0 <= i < |rest| - 1
        ensures !(rest[i] == 0xFF && rest[i + 1] == 0)
      {
        assert rest[i] == s[i + 1] && rest[i + 1] == s[i + 2];
      }
      SyncOfClean(rest);
      if |s| > 1 {
        assert !(s[0] == 0xFF && s[1] == 0);
      }
    }
  }
}
