/**
 * StreamUtil (src/com/readytalk/revori/server/StreamUtil.java): the
 * big-endian `int`/`long` and length-prefixed string framing the server
 * speaks, over Java's `InputStream`/`OutputStream`.
 *
 * A stream is an object holding the bytes not yet read (or the bytes
 * written so far).  An input stream hands over at most `chunk` bytes per
 * bulk `read`, which is how short reads enter the model.  Strings are
 * their UTF-8 bytes; `null` is `None`.
 */
module Streams {
  import opened Wire

  class InputStream {
    /** The bytes still to come; the end of the stream follows them. */
    var data: seq<byte>
    /** The most one bulk `read` hands over. */
    const chunk: nat

    constructor (data: seq<byte>, chunk: nat)
      requires chunk > 0
      ensures this.data == data && this.chunk == chunk
    {
      this.data := data;
      this.chunk := chunk;
    }

    /** `InputStream.read()`: the next octet, or -1 at the end of the stream. */
    method Read() returns (b: int)
      modifies this`data
      ensures old(data) == [] ==> b == -1 && data == []
      ensures old(data) != [] ==> b == old(data)[0] && data == old(data)[1..]
    {
      if data == [] {
        b := -1;
      } else {
        b := data[0];
        data := data[1..];
      }
    }

    /**
     * `InputStream.read(buffer, offset, length)`: some of the next bytes
     * into `buffer[offset..]`, their number, or -1 at the end of the stream.
     */
    method ReadInto(buffer: array<byte>, offset: nat, length: nat) returns (n: int)
      requires chunk > 0 && offset + length <= buffer.Length
      modifies this`data, buffer
      ensures length == 0 ==> n == 0
      ensures length > 0 && old(data) == [] ==> n == -1
      ensures length > 0 && old(data) != [] ==> 0 < n <= length && n <= |old(data)|
      ensures var m := if n < 0 then 0 else n;
        m <= |old(data)| && data == old(data)[m..] &&
        forall k :: 0 <= k < buffer.Length ==>
          buffer[k] == if offset <= k < offset + m then old(data)[k - offset] else old(buffer[k])
    {
      if length == 0 {
        return 0;
      }
      if data == [] {
        return -1;
      }
      n := if length < chunk then length else chunk;
      if |data| < n {
        n := |data|;
      }
      var i := 0;
      while i < n
        invariant 0 <= i <= n <= |data| && data == old(data)
        invariant forall k :: 0 <= k < buffer.Length ==>
          buffer[k] == if offset <= k < offset + i then data[k - offset] else old(buffer[k])
      {
        buffer[offset + i] := data[i];
        i := i + 1;
      }
      data := data[n..];
    }
  }

  class OutputStream {
    /** Everything written so far. */
    var written: seq<byte>

    constructor ()
      ensures written == []
    {
      written := [];
    }

    /** `OutputStream.write(int)`: the low eight bits of its argument. */
    method Write(b: byte)
      modifies this
      ensures written == old(written) + [b]
    {
      written := written + [b];
    }

    /** `OutputStream.write(byte[])`. */
    method WriteAll(bytes: seq<byte>)
      modifies this
      ensures written == old(written) + bytes
    {
      written := written + bytes;
    }
  }

  // ---------------------------------------------------------------------
  // What each framing puts on the wire and what a decoder makes of a
  // stream's bytes.

  /** `writeString`: `null` goes out as the empty string. */
  function EncodeString(s: Option<seq<byte>>): (r: seq<byte>)
    requires s.Some? ==> |s.value| < 0x8000_0000
    ensures |r| >= 4 && r[4..] == if s.Some? then s.value else []
  {
    match s
    case None => IntToBytes(0)
    case Some(bytes) =>
      assert |IntToBytes(|bytes|)| == 4;
      IntToBytes(|bytes|) + bytes
  }

  function DecodeInt(input: seq<byte>): (r: Decoded<int32>)
    ensures r.Threw? <==> |input| < 4
    ensures r.Decoded? ==> r.rest == input[4..] && IntToBytes(r.value) == input[..4]
  {
    if |input| < 4 then Threw(EOFException)
    else
      IntToBytesToInt(input[..4]);
      Decoded(BytesToInt(input), input[4..])
  }

  function DecodeLong(input: seq<byte>): (r: Decoded<int64>)
    ensures r.Threw? <==> |input| < 8
    ensures r.Decoded? ==> r.rest == input[8..]
  {
    if |input| < 8 then Threw(EOFException) else Decoded(BytesToLong(input), input[8..])
  }

  /** `readString`: a negative length cannot size the array; a short body is end of file. */
  function DecodeString(input: seq<byte>): (r: Decoded<seq<byte>>)
    ensures r.Decoded? ==> |r.rest| <= |input| - 4
  {
    match DecodeInt(input)
    case Threw(e) => Threw(e)
    case Decoded(length, rest) =>
      if length < 0 then Threw(NegativeArraySizeException)
      else if |rest| < length then Threw(EOFException)
      else Decoded(rest[..length], rest[length..])
  }

  // ---------------------------------------------------------------------
  // The methods, each proved against the functions above.

  method WriteInt(out: OutputStream, v: int32)
    modifies out
    ensures out.written == old(out.written) + IntToBytes(v)
  {
    var u := Unsigned32(v);
    out.Write(u / 0x100_0000 % 0x100);
    out.Write(u / 0x1_0000 % 0x100);
    out.Write(u / 0x100 % 0x100);
    out.Write(u % 0x100);
    IntToBytesShifts(v);
  }

  /** Four successive `in.read()` calls. */
  method ReadFour(input: InputStream) returns (b1: int, b2: int, b3: int, b4: int)
    modifies input`data
    ensures |old(input.data)| >= 4 ==>
      0 <= b1 < 0x100 && 0 <= b2 < 0x100 && 0 <= b3 < 0x100 && 0 <= b4 < 0x100 &&
      b1 == old(input.data)[0] && b2 == old(input.data)[1] && b3 == old(input.data)[2] &&
      b4 == old(input.data)[3] && input.data == old(input.data)[4..]
    ensures |old(input.data)| < 4 ==> b4 == -1 && input.data == []
  {
    b1 := input.Read();
    b2 := input.Read();
    b3 := input.Read();
    b4 := input.Read();
  }

  method ReadInt(input: InputStream) returns (r: Decoded<int32>)
    modifies input`data
    ensures r == DecodeInt(old(input.data))
    ensures input.data == if r.Decoded? then r.rest else []
  {
    var b1, b2, b3, b4 := ReadFour(input);
    if b4 == -1 {
      return Threw(EOFException);
    }
    r := Decoded(Signed32(Word(b1, b2, b3, b4)), input.data);
  }

  /** `writeLong`: the high word, then the low word. */
  method WriteLong(out: OutputStream, v: int64)
    modifies out
    ensures out.written == old(out.written) + LongToBytes(v)
  {
    var u := Unsigned64(v);
    WriteInt(out, Signed32(u / 0x1_0000_0000));
    WriteInt(out, Signed32(u % 0x1_0000_0000));
  }

  method ReadLong(input: InputStream) returns (r: Decoded<int64>)
    modifies input`data
    ensures r == DecodeLong(old(input.data))
    ensures input.data == if r.Decoded? then r.rest else []
  {
    ghost var d := input.data;
    var b1, b2, b3, b4 := ReadFour(input);
    var b5, b6, b7, b8 := ReadFour(input);
    assert |d| >= 8 ==> b5 == d[4] && b6 == d[5] && b7 == d[6] && b8 == d[7] && d[4..][4..] == d[8..];
    if b8 == -1 {
      return Threw(EOFException);
    }
    var u := Word(b1, b2, b3, b4) * 0x1_0000_0000 + Word(b5, b6, b7, b8);
    r := Decoded(Signed64(u), input.data);
    assert Signed64(u) == BytesToLong(d);
  }

  method WriteString(out: OutputStream, s: Option<seq<byte>>)
    requires s.Some? ==> |s.value| < 0x8000_0000
    modifies out
    ensures out.written == old(out.written) + EncodeString(s)
  {
    if s == None {
      WriteInt(out, 0);
    } else {
      WriteInt(out, |s.value|);
      out.WriteAll(s.value);
    }
  }

  /**
   * `readFully`: reads until `length` bytes have arrived or the stream
   * ends, and says how many arrived.
   */
  method ReadFully(input: InputStream, buffer: array<byte>, offset: nat, length: nat) returns (bytesRead: nat)
    requires input.chunk > 0 && offset + length <= buffer.Length
    modifies input`data, buffer
    ensures bytesRead == if length <= |old(input.data)| then length else |old(input.data)|
    ensures input.data == old(input.data)[bytesRead..]
    ensures forall k :: 0 <= k < buffer.Length ==>
      buffer[k] == if offset <= k < offset + bytesRead then old(input.data)[k - offset] else old(buffer[k])
  {
    bytesRead := 0;
    while bytesRead < length
      invariant bytesRead <= length && bytesRead <= |old(input.data)|
      invariant input.data == old(input.data)[bytesRead..]
      invariant bytesRead < length ==> input.data != [] || bytesRead == |old(input.data)|
      invariant forall k :: 0 <= k < buffer.Length ==>
        buffer[k] == if offset <= k < offset + bytesRead then old(input.data)[k - offset] else old(buffer[k])
      decreases length - bytesRead
    {
      var n := input.ReadInto(buffer, offset + bytesRead, length - bytesRead);
      if n == -1 {
        break;
      }
      bytesRead := bytesRead + n;
    }
  }

  method ReadString(input: InputStream) returns (r: Decoded<seq<byte>>)
    requires input.chunk > 0
    modifies input`data
    ensures r == DecodeString(old(input.data))
    ensures r.Decoded? ==> input.data == r.rest
  {
    var length := ReadInt(input);
    if length.Threw? {
      return Threw(length.exception);
    }
    if length.value < 0 {
      return Threw(NegativeArraySizeException);
    }
    ghost var body := input.data;
    var bytes := new byte[length.value];
    var n := ReadFully(input, bytes, 0, length.value);
    if n != length.value {
      return Threw(EOFException);
    }
    assert bytes[..] == body[..n] by {
      forall k | 0 <= k < n ensures bytes[k] == body[k] { }
    }
    r := Decoded(bytes[..], input.data);
  }

  // ---------------------------------------------------------------------
  // Round trips.

  lemma IntRoundTrip(v: int32, rest: seq<byte>)
    ensures DecodeInt(IntToBytes(v) + rest) == Decoded(v, rest)
  {
    var input := IntToBytes(v) + rest;
    assert input[..4] == IntToBytes(v) && input[4..] == rest;
    BytesToIntToBytes(v);
  }

  lemma LongRoundTrip(v: int64, rest: seq<byte>)
    ensures DecodeLong(LongToBytes(v) + rest) == Decoded(v, rest)
  {
    var input := LongToBytes(v) + rest;
    assert input[8..] == rest;
    BytesToLongToBytes(v);
    assert BytesToLong(input) == BytesToLong(LongToBytes(v));
  }

  /** `readString` inverts `writeString`; `null` comes back as the empty string. */
  lemma StringRoundTrip(s: Option<seq<byte>>, rest: seq<byte>)
    requires s.Some? ==> |s.value| < 0x8000_0000
    ensures DecodeString(EncodeString(s) + rest) ==
      Decoded(if s.Some? then s.value else [], rest)
  {
    var body := if s.Some? then s.value else [];
    assert EncodeString(s) + rest == IntToBytes(|body|) + (body + rest);
    IntRoundTrip(|body|, body + rest);
    assert (body + rest)[..|body|] == body && (body + rest)[|body|..] == rest;
  }

  /** A stream that stops anywhere inside a string's frame ends in `EOFException`. */
  lemma TruncatedString(s: seq<byte>, cut: nat)
    requires |s| < 0x8000_0000 && cut < |EncodeString(Some(s))|
    ensures DecodeString(EncodeString(Some(s))[..cut]) == Threw(EOFException)
  {
    var input := EncodeString(Some(s))[..cut];
    if cut >= 4 {
      assert input[..4] == IntToBytes(|s|);
      BytesToIntToBytes(|s|);
    }
  }
}
