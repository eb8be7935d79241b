/**
 * Machine words and the fixed-width big-endian integer framing shared by the
 * C client (src/client.cpp) and the Java server (StreamUtil, SQLServer).
 *
 * Java `int`/`long` and C `int` are two's-complement words; here they are
 * unbounded integers restricted to their range, and every wrap-around is
 * written out through `Unsigned32`/`Signed32` and their 64-bit twins.
 */
module Wire {

  /** An octet as it travels on the socket (an unsigned value). */
  type byte = b: int | 0 <= b < 0x100

  /** A Java `int` or a C `int` (32-bit two's complement). */
  type int32 = x: int | -0x8000_0000 <= x < 0x8000_0000

  /** A Java `long` (64-bit two's complement). */
  type int64 = x: int | -0x8000_0000_0000_0000 <= x < 0x8000_0000_0000_0000

  const Two32: int := 0x1_0000_0000
  const Two64: int := 0x1_0000_0000_0000_0000

  datatype Option<T> = None | Some(value: T)

  /** The Java exceptions a decoder can end in. */
  datatype Exception = EOFException | NegativeArraySizeException

  /** What a Java decoder does with its input: a value and the bytes after it, or an exception. */
  datatype Decoded<T> = Decoded(value: T, rest: seq<byte>) | Threw(exception: Exception)

  /** The bit pattern of a 32-bit word read as an unsigned number. */
  function Unsigned32(v: int32): (u: nat)
    ensures u < Two32
    ensures u % Two32 == v % Two32
  {
    if v < 0 then v + Two32 else v
  }

  /** The 32-bit word whose bit pattern is `u` (Java's narrowing to `int`). */
  function Signed32(u: int): (v: int32)
    ensures (v - u) % Two32 == 0
  {
    var w := u % Two32;
    if w < 0x8000_0000 then w else w - Two32
  }

  function Unsigned64(v: int64): (u: nat)
    ensures u < Two64
    ensures u % Two64 == v % Two64
  {
    if v < 0 then v + Two64 else v
  }

  function Signed64(u: int): (v: int64)
    ensures (v - u) % Two64 == 0
  {
    var w := u % Two64;
    if w < 0x8000_0000_0000_0000 then w else w - Two64
  }

  lemma SignedUnsigned32(v: int32)
    ensures Signed32(Unsigned32(v)) == v
  {
  }

  lemma UnsignedSigned32(u: nat)
    requires u < Two32
    ensures Unsigned32(Signed32(u)) == u
  {
  }

  lemma UnsignedSigned64(u: nat)
    requires u < Two64
    ensures Unsigned64(Signed64(u)) == u
  {
  }

  /** The number whose base-256 digits are `b0 b1 b2 b3`. */
  function Word(b0: byte, b1: byte, b2: byte, b3: byte): (w: nat)
    ensures w < 0x1_0000_0000
  {
    b0 as int * 0x100_0000 + b1 as int * 0x1_0000 + b2 as int * 0x100 + b3 as int
  }

  /** The four octets of a 32-bit word, most significant first. */
  function IntToBytes(v: int32): (r: seq<byte>)
    ensures |r| == 4
    ensures Word(r[0], r[1], r[2], r[3]) == Unsigned32(v)
  {
    var u0 := Unsigned32(v);
    var u1 := u0 / 0x100;
    var u2 := u1 / 0x100;
    [u2 / 0x100, u2 % 0x100, u1 % 0x100, u0 % 0x100]
  }

  /** The octets of a word are its bits shifted right by 24, 16, 8 and 0, masked to eight. */
  lemma IntToBytesShifts(v: int32)
    ensures var u := Unsigned32(v);
      IntToBytes(v) == [u / 0x100_0000 % 0x100, u / 0x1_0000 % 0x100, u / 0x100 % 0x100, u % 0x100]
  {
    var u0 := Unsigned32(v);
    var u1 := u0 / 0x100;
    var u2 := u1 / 0x100;
    assert u2 == u0 / 0x1_0000;
    assert u2 / 0x100 == u0 / 0x100_0000;
  }

  /** The 32-bit word spelled by four octets, most significant first. */
  function BytesToInt(b: seq<byte>): (v: int32)
    requires |b| >= 4
    ensures Unsigned32(v) == Word(b[0], b[1], b[2], b[3])
  {
    Signed32(Word(b[0], b[1], b[2], b[3]))
  }

  /** Decoding undoes encoding. */
  lemma BytesToIntToBytes(v: int32)
    ensures BytesToInt(IntToBytes(v)) == v
  {
    SignedUnsigned32(v);
  }

  /** Encoding undoes decoding: every four octets are the image of exactly one word. */
  lemma IntToBytesToInt(b: seq<byte>)
    requires |b| == 4
    ensures IntToBytes(BytesToInt(b)) == b
  {
    var u := Word(b[0], b[1], b[2], b[3]);
    UnsignedSigned32(u);
    var r := IntToBytes(BytesToInt(b));
    DigitsUnique(r[0], r[1], r[2], r[3], b[0], b[1], b[2], b[3]);
  }

  /** Base-256 digits are unique. */
  lemma DigitsUnique(a0: byte, a1: byte, a2: byte, a3: byte, b0: byte, b1: byte, b2: byte, b3: byte)
    requires Word(a0, a1, a2, a3) == Word(b0, b1, b2, b3)
    ensures a0 == b0 && a1 == b1 && a2 == b2 && a3 == b3
  {
  }

  /** The eight octets of a 64-bit word, most significant first. */
  function LongToBytes(v: int64): (r: seq<byte>)
    ensures |r| == 8
  {
    var u := Unsigned64(v);
    IntToBytes(Signed32(u / 0x1_0000_0000)) + IntToBytes(Signed32(u % 0x1_0000_0000))
  }

  /** The 64-bit word spelled by eight octets, most significant first. */
  function BytesToLong(b: seq<byte>): (v: int64)
    requires |b| >= 8
    ensures Unsigned64(v) == Word(b[0], b[1], b[2], b[3]) * 0x1_0000_0000 + Word(b[4], b[5], b[6], b[7])
  {
    var u := Word(b[0], b[1], b[2], b[3]) * 0x1_0000_0000 + Word(b[4], b[5], b[6], b[7]);
    UnsignedSigned64(u);
    Signed64(u)
  }

  /** Decoding undoes encoding for 64-bit words. */
  lemma BytesToLongToBytes(v: int64)
    ensures BytesToLong(LongToBytes(v)) == v
  {
    var u := Unsigned64(v);
    var hi, lo := u / 0x1_0000_0000, u % 0x1_0000_0000;
    var b := LongToBytes(v);
    var h, l := IntToBytes(Signed32(hi)), IntToBytes(Signed32(lo));
    assert b[0] == h[0] && b[1] == h[1] && b[2] == h[2] && b[3] == h[3];
    assert b[4] == l[0] && b[5] == l[1] && b[6] == l[2] && b[7] == l[3];
    UnsignedSigned32(hi);
    UnsignedSigned32(lo);
  }
}
