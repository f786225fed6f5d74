/** Bytes and the 32-bit integers Java reads from and writes to them. */
module Bytes {

  /** An unsigned byte value (a Java `byte` is its two's complement reading, see `SignedByte`). */
  newtype byte = x: int | 0 <= x < 0x100

  /** An optional value, for a result that may be absent. */
  datatype Option<T> = None | Some(value: T)

  /** The smaller of two counts. */
  function Min(a: nat, b: nat): nat { if a <= b then a else b }

  const TWO_31: int := 0x8000_0000
  const TWO_32: int := 0x1_0000_0000

  /** The range of a Java `int`. */
  predicate IsInt32(x: int) {
    -TWO_31 <= x < TWO_31
  }

  /** A value of a Java `int` variable. */
  type Int32 = x: int | -TWO_31 <= x < TWO_31

  /** The value Java sees when it reads a byte into an `int`: sign-extended. */
  function SignedByte(b: byte): (r: int)
    ensures -0x80 <= r < 0x80
    ensures r < 0 <==> b >= 0x80
    ensures (r - b as int) % 0x100 == 0
  {
    if b >= 0x80 then b as int - 0x100 else b as int
  }

  /** The eight bits of a byte, for the flag masks. */
  function Bits(b: byte): bv8 {
    b as int as bv8
  }

  /** The byte holding the given eight bits. */
  function FromBits(v: bv8): byte {
    v as int as byte
  }

  lemma ByteOfBits(v: bv8)
    ensures Bits(FromBits(v)) == v
  {
  }

  /** Java's narrowing of an integer to `int`: the low 32 bits read as two's complement. */
  function ToInt32(x: int): (r: int)
    ensures IsInt32(r)
    ensures IsInt32(x) ==> r == x
  {
    var u := x % TWO_32;
    if u >= TWO_31 then u - TWO_32 else u
  }

  /** `ToInt32` differs from its argument by a multiple of 2^32. */
  lemma ToInt32Congruent(x: int)
    ensures (x - ToInt32(x)) % TWO_32 == 0
  {
  }

  /** Wrapping to 32 bits between two additions changes nothing: `int` arithmetic is arithmetic modulo 2^32. */
  lemma WrapAdd(x: int, a: int, b: int, y: int)
    requires y == ToInt32(x + a)
    ensures ToInt32(y + b) == ToInt32(x + (a + b))
  {
    ToInt32Congruent(x + a);
    var k := (x + a - y) / TWO_32;
    assert x + (a + b) == (y + b) + k * TWO_32;
    ModShift(y + b, k);
  }

  lemma ModShift(v: int, k: int)
    ensures (v + k * TWO_32) % TWO_32 == v % TWO_32
  {
    DivPlus(v / TWO_32 + k, v % TWO_32, TWO_32);
    DivPlus(v / TWO_32, v % TWO_32, TWO_32);
  }

  /** The unsigned value of four bytes in big-endian order. */
  function BigEndian(b0: byte, b1: byte, b2: byte, b3: byte): (r: nat)
    ensures r < TWO_32
    ensures b0 < 0x80 <==> r < TWO_31
  {
    (b0 as int) * 0x100_0000 + (b1 as int) * 0x1_0000 + (b2 as int) * 0x100 + (b3 as int)
  }

  /** `ByteBuffer.getInt` at index i of s: a big-endian two's complement `int`. */
  function Int32At(s: seq<byte>, i: nat): (r: int)
    requires i + 4 <= |s|
    ensures IsInt32(r)
    ensures r < 0 <==> s[i] >= 0x80
    ensures r >= 0 ==> r == BigEndian(s[i], s[i + 1], s[i + 2], s[i + 3])
  {
    ToInt32(BigEndian(s[i], s[i + 1], s[i + 2], s[i + 3]))
  }

  /** `ByteBuffer.putInt(x)`: the four big-endian bytes of the low 32 bits of x. */
  function Int32Bytes(x: int): (r: seq<byte>)
    ensures |r| == 4
  {
    var u := x % TWO_32;
    [(u / 0x100_0000) as byte, ((u / 0x1_0000) % 0x100) as byte, ((u / 0x100) % 0x100) as byte, (u % 0x100) as byte]
  }

  lemma MulNonNegative(a: int, b: int)
    requires a >= 0 && b >= 0
    ensures a * b >= 0
  {
  }

  lemma MulAtLeast(k: int, d: int)
    requires k >= 1 && d > 0
    ensures k * d >= d
  {
    assert k * d == (k - 1) * d + d;
    MulNonNegative(k - 1, d);
  }

  /** Division is determined by the quotient and remainder it must produce. */
  lemma DivPlus(q: int, r: int, d: int)
    requires d > 0 && 0 <= r < d
    ensures (q * d + r) / d == q
    ensures (q * d + r) % d == r
  {
    var x := q * d + r;
    var k := q - x / d;
    assert x == (x / d) * d + x % d;
    assert k * d == x % d - r;
    if k > 0 {
      MulAtLeast(k, d);
    }
    if k < 0 {
      MulAtLeast(-k, d);
    }
  }

  /** Writing an `int` with `putInt` and reading it back with `getInt` gives it back. */
  lemma {:induction false} Int32RoundTrip(x: int)
    requires IsInt32(x)
    ensures Int32At(Int32Bytes(x), 0) == x
  {
    var s := Int32Bytes(x);
    var u := x % TWO_32;
    var a, d := u / 0x100, u % 0x100;
    var b, c := a / 0x100, a % 0x100;
    var e, f := b / 0x100, b % 0x100;
    assert u == a * 0x100 + d && a == b * 0x100 + c && b == e * 0x100 + f;
    DivPlus(b, c * 0x100 + d, 0x1_0000);
    DivPlus(e, f * 0x1_0000 + c * 0x100 + d, 0x100_0000);
    assert s[0] as int == e && s[1] as int == f && s[2] as int == c && s[3] as int == d;
    assert BigEndian(s[0], s[1], s[2], s[3]) == u;
  }

  /** Reading four bytes with `getInt` and writing the `int` back with `putInt` gives the same bytes. */
  lemma {:induction false} Int32BytesOfRead(s: seq<byte>, i: nat)
    requires i + 4 <= |s|
    ensures Int32Bytes(Int32At(s, i)) == s[i..i + 4]
  {
    var b0, b1, b2, b3 := s[i] as int, s[i + 1] as int, s[i + 2] as int, s[i + 3] as int;
    var x := BigEndian(s[i], s[i + 1], s[i + 2], s[i + 3]);
    assert Int32At(s, i) % TWO_32 == x;
    DivPlus(b0, x - b0 * 0x100_0000, 0x100_0000);
    DivPlus(b0 * 0x100 + b1, b2 * 0x100 + b3, 0x1_0000);
    DivPlus(b0 * 0x1_0000 + b1 * 0x100 + b2, b3, 0x100);
    DivPlus(b0, b1, 0x100);
    DivPlus(b0 * 0x100 + b1, b2, 0x100);
    assert s[i..i + 4] == [s[i], s[i + 1], s[i + 2], s[i + 3]];
  }
}
