/**
 * The variable-length codecs of Protocol
 * (src/com/readytalk/revori/server/protocol/Protocol.java): seven bits per
 * octet, least significant group first, bit 0x80 set on every octet but
 * the last.  `writeInteger`/`writeLong` shift right without sign (`>>>`),
 * so a negative `int` goes out as its 32-bit pattern; the readers shift
 * left in `int`/`long` arithmetic, which truncates to the word.
 */
module Protocol {
  import opened Wire

  /** The octets `writeInteger`/`writeLong` emit for a non-negative bit pattern. */
  function Varint(u: nat): (r: seq<byte>)
    ensures |r| >= 1
    decreases u
  {
    if u < 0x80 then [u]
    else
      var low: byte := u % 0x80 + 0x80;
      [low] + Varint(u / 0x80)
  }

  /** Every octet of `Varint` but the last has the continuation bit 0x80 set; the last has it clear. */
  lemma {:induction false} VarintShape(u: nat)
    ensures forall i :: 0 <= i < |Varint(u)| - 1 ==> Varint(u)[i] >= 0x80
    ensures Varint(u)[|Varint(u)| - 1] < 0x80
    decreases u
  {
    if u >= 0x80 {
      var rest := Varint(u / 0x80);
      VarintShape(u / 0x80);
      var r := Varint(u);
      assert r == [u % 0x80 + 0x80] + rest;
      forall i | 0 < i < |r| - 1
        ensures r[i] >= 0x80
      {
        assert r[i] == rest[i - 1];
      }
      assert r[|r| - 1] == rest[|rest| - 1];
    }
  }

  /** `writeInteger(out, v)`. */
  function WriteInteger(v: int32): (r: seq<byte>)
    ensures |r| >= 1
    ensures 0 <= v < 0x80 <==> r == [v]
  {
    Varint(Unsigned32(v))
  }

  /** `writeLong(out, v)`. */
  function WriteLong(v: int64): (r: seq<byte>)
    ensures |r| >= 1
    ensures 0 <= v < 0x80 <==> r == [v]
  {
    Varint(Unsigned64(v))
  }

  /** `readInteger(in)`: each continuation is shifted left by seven in `int` arithmetic. */
  function ReadInteger(input: seq<byte>): (r: Decoded<int32>)
    ensures r.Decoded? ==> |r.rest| < |input|
    ensures r.Threw? ==> r.exception == EOFException
    decreases |input|
  {
    if input == [] then Threw(EOFException)
    else if input[0] < 0x80 then Decoded(input[0], input[1..])
    else
      match ReadInteger(input[1..])
      case Threw(e) => Threw(e)
      case Decoded(high, rest) => Decoded(Signed32(input[0] % 0x80 + Unsigned32(high) * 0x80), rest)
  }

  /** `readLong(in)`: the same in `long` arithmetic. */
  function ReadLong(input: seq<byte>): (r: Decoded<int64>)
    ensures r.Decoded? ==> |r.rest| < |input|
    ensures r.Threw? ==> r.exception == EOFException
    decreases |input|
  {
    if input == [] then Threw(EOFException)
    else if input[0] < 0x80 then Decoded(input[0], input[1..])
    else
      match ReadLong(input[1..])
      case Threw(e) => Threw(e)
      case Decoded(high, rest) => Decoded(Signed64(input[0] % 0x80 + Unsigned64(high) * 0x80), rest)
  }

  /** `readInteger` throws `EOFException` exactly when the stream ends before an octet without the continuation bit. */
  lemma {:induction false} ReadIntegerThrows(input: seq<byte>)
    ensures ReadInteger(input).Threw? <==> forall i :: 0 <= i < |input| ==> input[i] >= 0x80
    decreases |input|
  {
    if input != [] && input[0] >= 0x80 {
      ReadIntegerThrows(input[1..]);
      assert forall i :: 0 < i < |input| ==> input[i] == input[1..][i - 1];
    }
  }

  /** The same for `readLong`. */
  lemma {:induction false} ReadLongThrows(input: seq<byte>)
    ensures ReadLong(input).Threw? <==> forall i :: 0 <= i < |input| ==> input[i] >= 0x80
    decreases |input|
  {
    if input != [] && input[0] >= 0x80 {
      ReadLongThrows(input[1..]);
      assert forall i :: 0 < i < |input| ==> input[i] == input[1..][i - 1];
    }
  }

  /** `writeBoolean`. */
  function WriteBoolean(b: bool): (r: seq<byte>)
    ensures |r| == 1 && (r[0] != 0 <==> b)
  {
    [if b then 1 else 0]
  }

  /** `readBoolean`: any non-zero octet is true. */
  function ReadBoolean(input: seq<byte>): (r: Decoded<bool>)
    ensures r.Threw? <==> input == []
    ensures r.Threw? ==> r.exception == EOFException
    ensures r.Decoded? ==> r.rest == input[1..]
  {
    if input == [] then Threw(EOFException) else Decoded(input[0] != 0, input[1..])
  }

  /** `writeByteArray`: the length as a varint, then the bytes. */
  function WriteByteArray(bytes: seq<byte>): (r: seq<byte>)
    requires |bytes| < 0x8000_0000
    ensures |r| > |bytes| && r[|r| - |bytes|..] == bytes
  {
    WriteInteger(|bytes|) + bytes
  }

  /** `readByteArray`: a negative length cannot size the array; a short body is end of file. */
  function ReadByteArray(input: seq<byte>): (r: Decoded<seq<byte>>)
    ensures ReadInteger(input).Threw? ==> r == Threw(EOFException)
    ensures r.Threw? ==> r.exception == EOFException || r.exception == NegativeArraySizeException
    ensures r.Decoded? ==> |r.value| + |r.rest| < |input|
  {
    match ReadInteger(input)
    case Threw(e) => Threw(e)
    case Decoded(length, rest) =>
      if length < 0 then Threw(NegativeArraySizeException)
      else if |rest| < length then Threw(EOFException)
      else Decoded(rest[..length], rest[length..])
  }

  // ---------------------------------------------------------------------
  // Round trips and sizes.

  lemma {:induction false} ReadVarint32(u: nat, rest: seq<byte>)
    requires u < Two32
    ensures ReadInteger(Varint(u) + rest) == Decoded(Signed32(u), rest)
    decreases u
  {
    var input := Varint(u) + rest;
    if u < 0x80 {
      assert input[0] == u && input[1..] == rest;
    } else {
      var high := u / 0x80;
      assert input[0] == u % 0x80 + 0x80 && input[1..] == Varint(high) + rest;
      assert input[0] % 0x80 == u % 0x80;
      ReadVarint32(high, rest);
      UnsignedSigned32(high);
      assert u % 0x80 + Unsigned32(Signed32(high)) * 0x80 == u;
    }
  }

  lemma {:induction false} ReadVarint64(u: nat, rest: seq<byte>)
    requires u < Two64
    ensures ReadLong(Varint(u) + rest) == Decoded(Signed64(u), rest)
    decreases u
  {
    var input := Varint(u) + rest;
    if u < 0x80 {
      assert input[0] == u && input[1..] == rest;
    } else {
      var high := u / 0x80;
      assert input[0] == u % 0x80 + 0x80 && input[1..] == Varint(high) + rest;
      assert input[0] % 0x80 == u % 0x80;
      ReadVarint64(high, rest);
      UnsignedSigned64(high);
      assert u % 0x80 + Unsigned64(Signed64(high)) * 0x80 == u;
    }
  }

  /** `readInteger` inverts `writeInteger` for every `int`, negative ones included. */
  lemma IntegerRoundTrip(v: int32, rest: seq<byte>)
    ensures ReadInteger(WriteInteger(v) + rest) == Decoded(v, rest)
  {
    ReadVarint32(Unsigned32(v), rest);
    SignedUnsigned32(v);
  }

  /** `readLong` inverts `writeLong`. */
  lemma LongRoundTrip(v: int64, rest: seq<byte>)
    ensures ReadLong(WriteLong(v) + rest) == Decoded(v, rest)
  {
    ReadVarint64(Unsigned64(v), rest);
    assert Signed64(Unsigned64(v)) == v;
  }

  /** Exactly the values 0..127 take a single octet, and that octet is the value. */
  lemma SmallIntegers(v: int32)
    ensures |WriteInteger(v)| == 1 <==> 0 <= v < 0x80
    ensures 0 <= v < 0x80 ==> WriteInteger(v) == [v]
  {
  }

  /** `Varint` spends one octet per started group of seven bits. */
  lemma {:induction false} VarintLength(u: nat, n: nat)
    requires Pow128(n) <= u < Pow128(n + 1)
    ensures |Varint(u)| == n + 1
    decreases n
  {
    if n > 0 {
      assert u >= 0x80;
      VarintLength(u / 0x80, n - 1);
    }
  }

  function Pow128(n: nat): (p: nat)
    ensures p >= 1
  {
    if n == 0 then 1 else 0x80 * Pow128(n - 1)
  }

  /** Every negative `int` takes five octets; every negative `long` takes ten. */
  lemma NegativesTakeFullWidth(v: int32, w: int64)
    requires v < 0 && w < 0
    ensures |WriteInteger(v)| == 5
    ensures |WriteLong(w)| == 10
  {
    assert Pow128(4) == 0x1000_0000;
    assert Pow128(5) == 0x8_0000_0000;
    VarintLength(Unsigned32(v), 4);
    assert Pow128(9) == 0x8000_0000_0000_0000;
    assert Pow128(10) == 0x40_0000_0000_0000_0000;
    VarintLength(Unsigned64(w), 9);
  }

  /** `readBoolean` inverts `writeBoolean`, and an empty stream ends in `EOFException`. */
  lemma BooleanRoundTrip(b: bool, rest: seq<byte>)
    ensures ReadBoolean(WriteBoolean(b) + rest) == Decoded(b, rest)
    ensures ReadBoolean([]) == Threw(EOFException)
  {
    assert (WriteBoolean(b) + rest)[1..] == rest;
  }

  /** `readByteArray` inverts `writeByteArray`. */
  lemma ByteArrayRoundTrip(bytes: seq<byte>, rest: seq<byte>)
    requires |bytes| < 0x8000_0000
    ensures ReadByteArray(WriteByteArray(bytes) + rest) == Decoded(bytes, rest)
  {
    assert WriteByteArray(bytes) + rest == WriteInteger(|bytes|) + (bytes + rest);
    IntegerRoundTrip(|bytes|, bytes + rest);
    assert (bytes + rest)[..|bytes|] == bytes && (bytes + rest)[|bytes|..] == rest;
  }

  /** A body cut short ends in `EOFException`. */
  lemma ShortByteArray(bytes: seq<byte>, cut: nat)
    requires |bytes| < 0x8000_0000 && cut < |bytes|
    ensures ReadByteArray(WriteInteger(|bytes|) + bytes[..cut]) == Threw(EOFException)
  {
    IntegerRoundTrip(|bytes|, bytes[..cut]);
  }
}
