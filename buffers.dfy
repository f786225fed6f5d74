/**
 * The two cursors over bytes the readers work with: `java.nio.ByteBuffer`
 * (bytes, a position and a limit) and okio's `Buffer` (a queue of bytes whose
 * `size()` is what is left to read). Each operation states exactly what it
 * does to the cursor; callers test the bounds first and model the exception
 * Java raises when they fail.
 */
module Buffers {
  import opened Bytes

  /** A `java.nio.ByteBuffer` being read. */
  class ByteBuffer {
    var content: seq<byte>
    var position: nat
    var limit: nat

    ghost predicate Valid()
      reads this
    {
      position <= limit <= |content|
    }

    function Remaining(): nat
      reads this
      requires Valid()
    {
      limit - position
    }

    /** `ByteBuffer.wrap`: the whole of s, positioned at its start. */
    constructor Wrap(s: seq<byte>)
      ensures Valid()
      ensures content == s && position == 0 && limit == |s|
    {
      content := s;
      position := 0;
      limit := |s|;
    }

    /** The bytes between position and limit. */
    function Window(): (r: seq<byte>)
      reads this
      requires Valid()
      ensures |r| == Remaining()
    {
      content[position..limit]
    }

    /** Relative `get()`: the byte at the position; the position moves on by one. */
    method Get() returns (b: byte)
      requires Valid() && position < limit
      modifies this
      ensures Valid()
      ensures content == old(content) && limit == old(limit)
      ensures b == content[old(position)]
      ensures position == old(position) + 1
    {
      b := content[position];
      position := position + 1;
    }

    /** Relative `getInt()`: the big-endian `int` at the position; the position moves on by four. */
    method GetInt() returns (x: int)
      requires Valid() && position + 4 <= limit
      modifies this
      ensures Valid()
      ensures content == old(content) && limit == old(limit)
      ensures x == Int32At(content, old(position))
      ensures position == old(position) + 4
    {
      x := Int32At(content, position);
      position := position + 4;
    }

    /** Relative `get(dst, 0, n)`: the next n bytes; the position moves on by n. */
    method GetBytes(n: nat) returns (s: seq<byte>)
      requires Valid() && position + n <= limit
      modifies this
      ensures Valid()
      ensures content == old(content) && limit == old(limit)
      ensures s == content[old(position)..old(position) + n]
      ensures position == old(position) + n
    {
      s := content[position..position + n];
      position := position + n;
    }

    /** `position(p)`: legal only up to the limit. */
    method SetPosition(p: nat)
      requires Valid() && p <= limit
      modifies this
      ensures Valid()
      ensures position == p
      ensures content == old(content) && limit == old(limit)
    {
      position := p;
    }

    /** `limit(l)`: legal only up to the capacity; the position is kept when it is within the new limit. */
    method SetLimit(l: nat)
      requires Valid() && position <= l <= |content|
      modifies this
      ensures Valid()
      ensures limit == l
      ensures content == old(content) && position == old(position)
    {
      limit := l;
    }

    /** `slice()`: a new buffer over the bytes between position and limit. */
    method Slice() returns (b: ByteBuffer)
      requires Valid()
      ensures fresh(b) && b.Valid()
      ensures b.content == Window() && b.position == 0 && b.limit == Remaining()
    {
      b := new ByteBuffer.Wrap(content[position..limit]);
    }
  }

  /** An okio `Buffer`: the bytes not read yet. */
  class Source {
    var bytes: seq<byte>

    constructor Of(s: seq<byte>)
      ensures bytes == s
    {
      bytes := s;
    }

    /** `size()`: how many bytes are left. */
    function Size(): nat
      reads this
    {
      |bytes|
    }

    /** `getByte(i)`: the byte i places ahead, without consuming anything. */
    function Peek(i: nat): byte
      reads this
      requires i < |bytes|
    {
      bytes[i]
    }

    /** `readByte()`: the next byte, consumed. */
    method ReadByte() returns (b: byte)
      requires |bytes| > 0
      modifies this
      ensures b == old(bytes[0]) && bytes == old(bytes[1..])
    {
      b := bytes[0];
      bytes := bytes[1..];
    }

    /** `readInt()`: the next four bytes as a big-endian `int`, consumed. */
    method ReadInt() returns (x: int)
      requires |bytes| >= 4
      modifies this
      ensures x == Int32At(old(bytes), 0) && bytes == old(bytes[4..])
    {
      x := Int32At(bytes, 0);
      bytes := bytes[4..];
    }

    /**
     * `skip(n)`: a count of zero or less skips nothing; a count beyond the
     * size consumes everything and then fails with `EOFException`.
     */
    method Skip(n: int) returns (ok: bool)
      modifies this
      ensures ok <==> n <= old(|bytes|)
      ensures n <= 0 ==> bytes == old(bytes)
      ensures 0 < n <= old(|bytes|) ==> bytes == old(bytes[n..])
      ensures n > old(|bytes|) ==> bytes == []
    {
      if n <= 0 {
        ok := true;
      } else if n <= |bytes| {
        bytes := bytes[n..];
        ok := true;
      } else {
        bytes := [];
        ok := false;
      }
    }

    /** `read(sink, n)`: moves up to n bytes (as many as there are) out of this buffer. */
    method Take(n: nat) returns (s: seq<byte>)
      modifies this
      ensures n <= old(|bytes|) ==> s == old(bytes[..n]) && bytes == old(bytes[n..])
      ensures n > old(|bytes|) ==> s == old(bytes) && bytes == []
    {
      if n <= |bytes| {
        s := bytes[..n];
        bytes := bytes[n..];
      } else {
        s := bytes;
        bytes := [];
      }
    }
  }
}
