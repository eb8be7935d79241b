/**
 * The request side of SQLServer
 * (server/src/main/java/com/readytalk/revori/server/SQLServer.java): the
 * reply tags it writes, its own `readString`, the transaction stack of a
 * client session and the `COPY ... FROM STDIN` row loader.
 *
 * Revisions are opaque values here: what `builder.commit()` or the server's
 * merge computes belongs to the storage engine, so a method that records a
 * new head takes the resulting revision as a parameter.
 */
module SqlServer {
  import opened Wire
  import Streams
  import Client
  import opened SqlText

  // `Response` and its ordinals, as the server writes them.
  const RowSet: byte := 0
  const NewDatabase: byte := 1
  const CopySuccess: byte := 2
  const Success: byte := 3
  const Error: byte := 4

  /** The tag the server writes in front of a reply. */
  function Tag(r: Client.Reply): byte
  {
    match r
    case RowSetReply(_) => RowSet
    case NewDatabaseReply(_, _) => NewDatabase
    case SuccessReply(_) => Success
    case ErrorReply(_) => Error
  }

  /** The bytes after the tag: row sets and strings are framed as the client expects. */
  function Body(r: Client.Reply): seq<byte>
    requires Client.Encodable(r)
  {
    match r
    case RowSetReply(rows) => Client.EncodeRows(rows) + [Client.End as byte]
    case NewDatabaseReply(name, message) => Client.EncodeString(name) + Client.EncodeString(message)
    case SuccessReply(message) => Client.EncodeString(message)
    case ErrorReply(message) => Client.EncodeString(message)
  }

  /** A reply as the server writes it. */
  function EncodeReply(r: Client.Reply): seq<byte>
    requires Client.Encodable(r)
  {
    [Tag(r)] + Body(r)
  }

  /**
   * The client's `Response` enum has no `CopySuccess`, so the server's
   * `Success` (3) is the client's `Error`: a success message is printed as
   * an error.
   */
  lemma SuccessMisread(m: seq<byte>, rest: seq<byte>, end: Client.ReadEnd,
                       name: Option<seq<byte>>, acc: seq<Client.Printed>)
    requires |m| < 0x8000_0000
    ensures Client.Respond(EncodeReply(Client.SuccessReply(m)) + rest, end, name, acc) ==
      Client.Outcome(name, acc + [Client.ErrorMessage(Client.CText(m))], false, rest)
  {
    assert EncodeReply(Client.SuccessReply(m)) == Client.EncodeReply(Client.ErrorReply(m));
    Client.RespondToMessage(false, m, rest, end, name, acc);
  }

  /** The server's `Error` (4) is no tag the client knows: the session stops in trouble. */
  lemma ErrorMisread(m: seq<byte>, rest: seq<byte>, end: Client.ReadEnd,
                     name: Option<seq<byte>>, acc: seq<Client.Printed>)
    requires |m| < 0x8000_0000
    ensures Client.Respond(EncodeReply(Client.ErrorReply(m)) + rest, end, name, acc) ==
      Client.Outcome(name, acc + [Client.UnexpectedResult(Error as int)], true, Client.EncodeString(m) + rest)
  {
    var body := Client.EncodeString(m) + rest;
    assert EncodeReply(Client.ErrorReply(m)) + rest == [Error] + body;
    Client.ReadByteCons(Error, body);
  }

  /**
   * A completion reply (`Success`, a count, the candidates) reaches the
   * client's `Error` branch: the count is taken for a string length, as
   * many bytes of the candidates are skipped, and no completion is offered.
   */
  lemma CompletionMisread(candidates: seq<seq<byte>>, rest: seq<byte>, end: Client.ReadEnd)
    requires Client.ShortStrings(candidates) && |candidates| < 0x8000_0000
    requires |candidates| <= |Client.EncodeStrings(candidates) + rest|
    ensures var after := Client.EncodeStrings(candidates) + rest;
      Client.CompletionReply([Success] + IntToBytes(|candidates|) + after, end) ==
      Client.Outcome(-1, [], false, after[|candidates|..])
  {
    var after := Client.EncodeStrings(candidates) + rest;
    var n := |candidates|;
    var skipped := after[..n];
    var tail := after[n..];
    assert after == skipped + tail;
    var body := Client.EncodeString(skipped) + tail;
    assert Client.EncodeString(skipped) == IntToBytes(n) + skipped;
    Client.Associate(IntToBytes(n), skipped, tail);
    Client.Associate([Success], IntToBytes(n), after);
    Client.ReadByteCons(Success, body);
    Client.ReadEncodedString(skipped, tail);
  }

  /** The client's tag for each of the server's, with `CopySuccess` read as a success. */
  function ClientTag(serverTag: byte): byte
  {
    if serverTag == CopySuccess || serverTag == Success then Client.Success as byte
    else if serverTag == Error then Client.Error as byte
    else serverTag
  }

  /** The client's reply handling over the server's numbering. */
  function RespondCanonical(input: seq<byte>, end: Client.ReadEnd, name: Option<seq<byte>>,
                            acc: seq<Client.Printed>): Client.Outcome<Option<seq<byte>>>
  {
    if input == [] then Client.Respond(input, end, name, acc)
    else Client.Respond([ClientTag(input[0])] + input[1..], end, name, acc)
  }

  /** The client's completion handling over the server's numbering. */
  function CompletionCanonical(input: seq<byte>, end: Client.ReadEnd): Client.Outcome<int>
  {
    if input == [] then Client.CompletionReply(input, end)
    else Client.CompletionReply([ClientTag(input[0])] + input[1..], end)
  }

  /** Retagging a server reply gives the frame the client was written for. */
  lemma Retagged(r: Client.Reply, rest: seq<byte>)
    requires Client.Encodable(r)
    ensures var input := EncodeReply(r) + rest;
      input != [] && [ClientTag(input[0])] + input[1..] == Client.EncodeReply(r) + rest
  {
    var input := EncodeReply(r) + rest;
    assert input == [Tag(r)] + (Body(r) + rest);
    var tag: byte := ClientTag(Tag(r));
    ClientFrame(r);
    Client.Associate([tag], Body(r), rest);
  }

  /** The client's frame of a reply is the server's body behind the client's tag. */
  lemma ClientFrame(r: Client.Reply)
    requires Client.Encodable(r)
    ensures Client.EncodeReply(r) == [ClientTag(Tag(r)) as byte] + Body(r)
  {
    match r
    case RowSetReply(rows) =>
      Client.Associate([RowSet], Client.EncodeRows(rows), [Client.End as byte]);
    case NewDatabaseReply(name, message) =>
      Client.Associate([NewDatabase], Client.EncodeString(name), Client.EncodeString(message));
    case SuccessReply(_) =>
    case ErrorReply(_) =>
  }

  /** Over the server's numbering, every reply the server writes is shown as it was meant. */
  lemma RespondCanonicalToEncoded(r: Client.Reply, rest: seq<byte>, end: Client.ReadEnd,
                                  name: Option<seq<byte>>, acc: seq<Client.Printed>)
    requires Client.Encodable(r)
    ensures RespondCanonical(EncodeReply(r) + rest, end, name, acc) ==
      Client.Outcome(if r.NewDatabaseReply? then Some(r.name) else name, acc + Client.Shown(r), false, rest)
  {
    Retagged(r, rest);
    Client.RespondToEncoded(r, rest, end, name, acc);
  }

  /** `CopySuccess` is shown like `Success`. */
  lemma CopySuccessShown(m: seq<byte>, rest: seq<byte>, end: Client.ReadEnd,
                         name: Option<seq<byte>>, acc: seq<Client.Printed>)
    requires |m| < 0x8000_0000
    ensures RespondCanonical([CopySuccess] + Client.EncodeString(m) + rest, end, name, acc) ==
      Client.Outcome(name, acc + [Client.Message(Client.CText(m))], false, rest)
  {
    var body := Client.EncodeString(m) + rest;
    var input := [CopySuccess] + Client.EncodeString(m) + rest;
    var retagged := [Client.Success as byte] + body;
    assert Client.EncodeReply(Client.SuccessReply(m)) + rest == retagged by {
      Client.Associate([Client.Success as byte], Client.EncodeString(m), rest);
    }
    assert RespondCanonical(input, end, name, acc) == Client.Respond(retagged, end, name, acc) by {
      assert input[0] == CopySuccess && input[1..] == body;
    }
    Client.RespondToMessage(true, m, rest, end, name, acc);
  }

  /** Over the server's numbering, the completion count arrives and the candidates follow it. */
  lemma CompletionCanonicalToEncoded(candidates: seq<seq<byte>>, rest: seq<byte>, end: Client.ReadEnd)
    requires Client.ShortStrings(candidates) && |candidates| < 0x8000_0000
    ensures CompletionCanonical([Success] + IntToBytes(|candidates|) + Client.EncodeStrings(candidates) + rest, end) ==
      Client.Outcome(|candidates|, [], false, Client.EncodeStrings(candidates) + rest)
  {
    var body := IntToBytes(|candidates|) + (Client.EncodeStrings(candidates) + rest);
    var input := [Success] + IntToBytes(|candidates|) + Client.EncodeStrings(candidates) + rest;
    Client.Regroup([Success], IntToBytes(|candidates|), Client.EncodeStrings(candidates), rest);
    assert input[0] == Success && input[1..] == body;
    Client.Regroup([Client.Success as byte], IntToBytes(|candidates|), Client.EncodeStrings(candidates), rest);
    Client.CompletionReplyToEncoded(candidates, rest, end);
  }

  // ---------------------------------------------------------------------
  // readString

  function Zeros(n: nat): (z: seq<byte>)
    ensures |z| == n && forall i :: 0 <= i < n ==> z[i] == 0
  {
    seq(n, _ => 0)
  }

  /**
   * What `readString` makes of a stream: the bytes that arrive before the
   * stream ends, padded with zeros to the announced length.
   */
  function DecodePadded(input: seq<byte>): Decoded<seq<byte>>
  {
    match Streams.DecodeInt(input)
    case Threw(e) => Threw(e)
    case Decoded(length, rest) =>
      if length < 0 then Threw(NegativeArraySizeException)
      else
        var n := if length <= |rest| then length else |rest|;
        Decoded(rest[..n] + Zeros(length - n), rest[n..])
  }

  /** `readString`: the buffer is sized from the length, then filled until the stream ends. */
  method ReadString(input: Streams.InputStream) returns (r: Decoded<seq<byte>>)
    requires input.chunk > 0
    modifies input`data
    ensures r == DecodePadded(old(input.data))
    ensures r.Decoded? ==> input.data == r.rest
  {
    var length := Streams.ReadInt(input);
    if length.Threw? {
      return Threw(length.exception);
    }
    if length.value < 0 {
      return Threw(NegativeArraySizeException);
    }
    ghost var body := input.data;
    var buffer := new byte[length.value](_ => 0);
    var offset := 0;
    while offset < buffer.Length
      invariant offset <= buffer.Length && offset <= |body| && input.data == body[offset..]
      invariant offset < buffer.Length ==> input.data != [] || offset == |body|
      invariant forall k :: 0 <= k < buffer.Length ==> buffer[k] == if k < offset then body[k] else 0
      decreases buffer.Length - offset
    {
      var c := input.ReadInto(buffer, offset, buffer.Length - offset);
      if c == -1 {
        break;
      }
      offset := offset + c;
    }
    assert offset == if buffer.Length <= |body| then buffer.Length else |body|;
    ghost var padded := body[..offset] + Zeros(buffer.Length - offset);
    assert buffer[..] == padded by {
      forall k | 0 <= k < buffer.Length
        ensures buffer[k] == padded[k]
      {
      }
    }
    r := Decoded(buffer[..], input.data);
  }

  /**
   * On a whole frame `readString` agrees with StreamUtil's; where
   * StreamUtil's ends in `EOFException` on a short body, this one returns
   * the body padded with zeros.
   */
  lemma PaddedVersusStrict(input: seq<byte>)
    ensures Streams.DecodeString(input).Decoded? ==> DecodePadded(input) == Streams.DecodeString(input)
    ensures Streams.DecodeString(input) == Threw(EOFException) && |input| >= 4 ==>
      DecodePadded(input) == Decoded(input[4..] + Zeros(BytesToInt(input) - |input[4..]|), [])
  {
    if |input| >= 4 {
      var rest := input[4..];
      assert rest[..|rest|] == rest;
      match Streams.DecodeString(input)
      case Decoded(v, after) =>
        var length := BytesToInt(input);
        assert 0 <= length <= |rest| && v == rest[..length];
        assert v + Zeros(0) == v;
      case Threw(_) =>
    }
  }

  /** The padded reader inverts `writeString`. */
  lemma PaddedRoundTrip(s: seq<byte>, rest: seq<byte>)
    requires |s| < 0x8000_0000
    ensures DecodePadded(Streams.EncodeString(Some(s)) + rest) == Decoded(s, rest)
  {
    Streams.StringRoundTrip(Some(s), rest);
    PaddedVersusStrict(Streams.EncodeString(Some(s)) + rest);
    assert s + Zeros(0) == s;
  }

  // ---------------------------------------------------------------------
  // COPY rows

  /** A row as a `COPY` client writes it: the escaped fields, separated by commas. */
  function JoinRow(fields: seq<string>): string
    requires |fields| > 0
  {
    if |fields| == 1 then Escape(fields[0], ',')
    else JoinRow(fields[..|fields| - 1]) + "," + Escape(fields[|fields| - 1], ',')
  }

  /** Scanning a joined row gives back every field: all but the last closed by commas, the last still open. */
  lemma {:induction false} RowRoundTrip(fields: seq<string>)
    requires |fields| > 0
    ensures Run(Scan(false, [], []), JoinRow(fields), ',') ==
      Scan(false, fields[|fields| - 1], fields[..|fields| - 1])
  {
    var n := |fields|;
    var start := Scan(false, [], []);
    if n == 1 {
      RunEscape([], [], fields[0], ',');
      assert [] + fields[0] == fields[0];
    } else {
      var init := fields[..n - 1];
      var last := fields[n - 1];
      RowRoundTrip(init);
      assert init[..n - 2] + [init[n - 2]] == init;
      RunAppend(start, JoinRow(init) + ",", Escape(last, ','), ',');
      RunAppend(start, JoinRow(init), ",", ',');
      assert [','][..0] == [];
      assert Run(start, JoinRow(init) + ",", ',') == Scan(false, [], init);
      RunEscape([], init, last, ',');
      assert [] + last == last;
    }
  }

  // ---------------------------------------------------------------------
  // Converting the fields of a COPY row

  /** The column types a table declares: `int32`, `int64` and `string`. */
  datatype ColumnType = Int32 | Int64 | Text

  /** A row parameter: `null` in a slot not yet filled, or what `convert` made of a field. */
  datatype Value = Null | Long(n: int64) | Str(s: string)

  predicate IsDigit(c: char)
  {
    '0' <= c <= '9'
  }

  /** The value of a run of decimal digits. */
  function DigitsValue(s: string): nat
    requires forall i :: 0 <= i < |s| ==> IsDigit(s[i])
  {
    if s == [] then 0
    else
      assert IsDigit(s[|s| - 1]);
      DigitsValue(s[..|s| - 1]) * 10 + (s[|s| - 1] as int - '0' as int)
  }

  /**
   * `Long.parseLong(s)`: an optional `-` or `+`, at least one decimal digit,
   * and a value that fits 64 bits; `None` where it throws
   * `NumberFormatException`.
   */
  function ParseLong(s: string): (r: Option<int64>)
    ensures r.Some? ==> |s| > 0 && (IsDigit(s[0]) || (|s| > 1 && (s[0] == '-' || s[0] == '+')))
    ensures r.Some? ==> forall i :: 0 < i < |s| ==> IsDigit(s[i])
    ensures r.Some? && r.value < 0 ==> s[0] == '-'
  {
    var signed := |s| > 0 && (s[0] == '-' || s[0] == '+');
    var body := if signed then s[1..] else s;
    if body == [] || !(forall i :: 0 <= i < |body| ==> IsDigit(body[i])) then None
    else
      var v: int := if s[0] == '-' then -(DigitsValue(body) as int) else DigitsValue(body);
      if -0x8000_0000_0000_0000 <= v < 0x8000_0000_0000_0000 then Some(v) else None
  }

  lemma {:induction false} DigitsValueOf(n: nat)
    ensures DigitsValue(Digits(n)) == n
  {
    var s := Digits(n);
    var q, d := n / 10, n % 10;
    var init := if n < 10 then "" else Digits(q);
    var c := ('0' as int + d) as char;
    assert s == init + [c];
    assert s[..|s| - 1] == init && s[|s| - 1] == c;
    if n >= 10 {
      DigitsValueOf(q);
    }
    assert DigitsValue(init) == q;
    assert DigitsValue(s) == q * 10 + d;
  }

  /** `n`'s decimal digits are digits, and their value is `n`. */
  lemma DigitsFacts(n: nat)
    ensures var digits := Digits(n);
      digits != [] && (forall i :: 0 <= i < |digits| ==> IsDigit(digits[i])) && DigitsValue(digits) == n
  {
    DigitsValueOf(n);
  }

  /** The digits of `|n|`, after a minus sign when `n` is negative, parse as `n`. */
  lemma ParseSigned(n: int32, digits: string, text: string)
    requires digits != [] && forall i :: 0 <= i < |digits| ==> IsDigit(digits[i])
    requires DigitsValue(digits) == if n < 0 then -(n as int) else n as int
    requires text == if n < 0 then "-" + digits else digits
    ensures ParseLong(text) == Some(n as int64)
  {
    assert IsDigit(digits[0]);
    assert ("-" + digits)[1..] == digits;
  }

  /** `Long.parseLong` reads back what `String.valueOf(int)` writes. */
  lemma DecimalParses(n: int32)
    ensures ParseLong(Decimal(n)) == Some(n as int64)
  {
    var m := if n < 0 then -(n as int) else n as int;
    DigitsFacts(m);
    ParseSigned(n, Digits(m), Decimal(n));
  }

  /** `convert(type, text)`: a number column parses the text as a `long`, a string column keeps it; `None` where it throws. */
  function Convert(t: ColumnType, text: string): Option<Value>
  {
    match t
    case Text => Some(Str(text))
    case _ => if ParseLong(text).Some? then Some(Long(ParseLong(text).value)) else None
  }

  /** A number column converts a decimal back to its number; a string column takes any text. */
  lemma ConvertAccepts(t: ColumnType, n: int32, text: string)
    ensures Convert(t, Decimal(n)) == if t.Text? then Some(Str(Decimal(n))) else Some(Long(n as int64))
    ensures t.Text? ==> Convert(t, text) == Some(Str(text))
  {
    DecimalParses(n);
  }

  /** The values `convert` gives a row's texts, column by column; `None` when a conversion throws. */
  function ConvertRow(types: seq<ColumnType>, texts: seq<string>): (r: Option<seq<Value>>)
    requires |texts| <= |types|
    ensures r.Some? <==> forall k :: 0 <= k < |texts| ==> Convert(types[k], texts[k]).Some?
    ensures r.Some? ==> |r.value| == |texts|
    ensures r.Some? ==> forall k :: 0 <= k < |texts| ==> Convert(types[k], texts[k]) == Some(r.value[k])
  {
    if texts == [] then Some([])
    else
      var n := |texts| - 1;
      match (ConvertRow(types, texts[..n]), Convert(types[n], texts[n]))
      case (Some(init), Some(v)) => Some(init + [v])
      case _ => None
  }

  /** The first closed field from `k` on that `copy` cannot store (no column, or no conversion); `|fields|` when it stores them all. */
  function FirstBad(types: seq<ColumnType>, fields: seq<string>, k: nat): (b: nat)
    requires k <= |fields|
    ensures k <= b <= |fields|
    ensures b < |fields| ==> b >= |types| || Convert(types[b], fields[b]).None?
    decreases |fields| - k
  {
    if k == |fields| || k >= |types| || Convert(types[k], fields[k]).None? then k
    else FirstBad(types, fields, k + 1)
  }

  /** `FirstBad` is the one place where every field before it stores and it does not. */
  lemma {:induction false} FirstBadAt(types: seq<ColumnType>, fields: seq<string>, k: nat, b: nat)
    requires k <= b <= |fields| && b <= |types|
    requires forall j :: k <= j < b ==> Convert(types[j], fields[j]).Some?
    requires b < |fields| ==> b >= |types| || Convert(types[b], fields[b]).None?
    ensures FirstBad(types, fields, k) == b
    decreases b - k
  {
    if k < b {
      FirstBadAt(types, fields, k + 1, b);
    }
  }

  /**
   * The values `copy` hands to `builder.apply` for `line`, with the field
   * text `pending` carried over; `None` when `copy` throws before: at a comma
   * past the last column, at a field that does not convert, for too few
   * fields or for an empty last field.
   */
  function CopyValues(types: seq<ColumnType>, pending: string, line: string): Option<seq<Value>>
  {
    var st := Run(Scan(false, pending, []), line, ',');
    if |st.fields| == |types| - 1 && st.current != [] then ConvertRow(types, st.fields + [st.current]) else None
  }

  /** A row of escaped fields, one per column, that all convert is handed to the builder as their values. */
  lemma CopyRoundTrip(types: seq<ColumnType>, fields: seq<string>)
    requires |fields| == |types| > 0 && fields[|fields| - 1] != []
    ensures CopyValues(types, [], JoinRow(fields)) == ConvertRow(types, fields)
  {
    RowRoundTrip(fields);
    assert fields[..|fields| - 1] + [fields[|fields| - 1]] == fields;
  }

  /** `abc` in a number column makes `copy` throw. */
  lemma CopyRejectsText()
    ensures CopyValues([Int64], [], "abc") == None
  {
    var start := Scan(false, [], []);
    assert "abc"[..2] == "ab" && "ab"[..1] == "a" && "a"[..0] == "";
    assert Run(start, "a", ',') == Scan(false, "a", []);
    assert Run(start, "ab", ',') == Scan(false, "ab", []);
    assert Run(start, "abc", ',') == Scan(false, "abc", []);
    assert !IsDigit("abc"[0]);
    assert ParseLong("abc") == None;
    assert Convert(Int64, "abc") == None;
    assert [] + ["abc"] == ["abc"];
  }

  /** `5` in a number column is handed over as 5. */
  lemma CopyAcceptsNumber()
    ensures CopyValues([Int64], [], "5") == Some([Long(5)])
  {
    assert Run(Scan(false, [], []), "5", ',') == Scan(false, "5", []) by {
      assert "5"[..0] == "";
    }
    assert Convert(Int64, "5") == Some(Long(5)) by {
      ParseSigned(5, "5", "5");
    }
    RowValues([Int64], [] + ["5"], [Long(5)]);
  }

  /**
   * A row line reaches `applyCopy` after `tokenize`, like every request:
   * `a(b` typed into a string column is stored as `a ( b`.
   */
  lemma TokenizedCopyRow()
    ensures Pieces("a(b", 3) == "a ( b"
    ensures CopyValues([Text], [], Pieces("a(b", 3)) == Some([Str("a ( b")])
  {
    assert Pieces("a(b", 1) == "a";
    assert Pieces("a(b", 2) == "a ( " by {
      assert Piece("a(b", 1) == " ( ";
    }
    assert Pieces("a(b", 3) == "a ( b";
    var field := "a ( b";
    assert Escape(field, ',') == field by {
      assert Escape(field[4..], ',') == "b";
      assert Escape(field[3..], ',') == " b";
      assert Escape(field[2..], ',') == "( b";
      assert Escape(field[1..], ',') == " ( b";
    }
    CopyRoundTrip([Text], [field]);
    RowValues([Text], [field], [Str(field)]);
  }

  /** The state of a `COPY ... FROM STDIN` in progress. */
  class CopyContext {
    /** The types of the target table's columns, in the order of the row data. */
    const columnTypes: seq<ColumnType>
    /** The text of the field being read; it is shared by every row. */
    var stringBuilder: string
    /** One value per column of the target table. */
    const parameters: array<Value>
    var count: int32
    var trouble: bool
    /** The rows handed to `builder.apply` and accepted, in order. */
    var applied: seq<seq<Value>>

    constructor (columnTypes: seq<ColumnType>)
      ensures this.columnTypes == columnTypes && parameters.Length == |columnTypes| && fresh(parameters)
      ensures forall k :: 0 <= k < parameters.Length ==> parameters[k] == Null
      ensures stringBuilder == [] && count == 0 && !trouble && applied == []
    {
      this.columnTypes := columnTypes;
      stringBuilder := [];
      parameters := new Value[|columnTypes|](_ => Null);
      count := 0;
      trouble := false;
      applied := [];
    }

    /**
     * `copy`: splits `line` at unescaped commas, converts each field for its
     * column as it closes, and hands the values to `builder.apply`.
     * `applies` is whether the builder accepts them (it throws on a
     * duplicate key or a row the table rejects).  `copy` fails (the source
     * throws) at a comma past the last column, at a field that does not
     * convert, for too few fields, for an empty last field, for a last field
     * that does not convert, and when the builder rejects the row.  Fields
     * converted before the failure stay stored, and the text of the field
     * that failed stays in `stringBuilder`.
     */
    method Copy(line: string, applies: bool) returns (ok: bool)
      requires parameters.Length == |columnTypes|
      modifies this`stringBuilder, this`applied, parameters
      ensures var r := CopyValues(columnTypes, old(stringBuilder), line);
        ok <==> r.Some? && applies
      ensures var r := CopyValues(columnTypes, old(stringBuilder), line);
        r.Some? ==> parameters[..] == r.value && stringBuilder == []
      ensures applied == if ok then old(applied) + [parameters[..]] else old(applied)
      ensures var st := Run(Scan(false, old(stringBuilder), []), line, ',');
        var b := FirstBad(columnTypes, st.fields, 0);
        CopyValues(columnTypes, old(stringBuilder), line).None? ==>
          stringBuilder == (if b < |st.fields| then st.fields[b] else st.current) &&
          forall k :: 0 <= k < parameters.Length ==>
            if k < b then Convert(columnTypes[k], st.fields[k]) == Some(parameters[k]) else parameters[k] == old(parameters[k])
    {
      var index, fields := Fields(line);
      if index < 0 {
        ghost var st := Run(Scan(false, old(stringBuilder), []), line, ',');
        assert forall k :: 0 <= k < |fields| ==> st.fields[k] == fields[k];
        return false;
      }
      ghost var row := fields + [stringBuilder];
      LineEnds(columnTypes, old(stringBuilder), line, fields, stringBuilder);
      if |stringBuilder| == 0 || index < parameters.Length - 1 {
        return false;
      }
      var stored := Store(index);
      if !stored {
        return false;
      }
      forall k | 0 <= k < |row|
        ensures Convert(columnTypes[k], row[k]) == Some(parameters[k])
      {
      }
      RowValues(columnTypes, row, parameters[..]);
      if !applies {
        return false;
      }
      applied := applied + [parameters[..]];
      ok := true;
    }

    /** A row line of `applyCopy`: skipped once a row has failed, otherwise copied and counted, or marking the trouble. */
    method ApplyRow(line: string, applies: bool)
      requires parameters.Length == |columnTypes|
      modifies this`stringBuilder, this`applied, this`count, this`trouble, parameters
      ensures old(trouble) ==> trouble && count == old(count) && applied == old(applied)
      ensures !old(trouble) ==>
        var r := CopyValues(columnTypes, old(stringBuilder), line);
        var ok := r.Some? && applies;
        trouble == !ok &&
        count == (if ok then Signed32(old(count) as int + 1) else old(count)) &&
        applied == (if ok then old(applied) + [r.value] else old(applied))
    {
      if !trouble {
        var ok := Copy(line, applies);
        if ok {
          count := Signed32(count as int + 1);
        } else {
          trouble := true;
        }
      }
    }

    /**
     * An unescaped comma: the field text is converted into slot `index` and
     * the text cleared; it throws, changing nothing, when there is no such
     * column or the text does not convert.
     */
    method Store(index: nat) returns (stored: bool)
      requires parameters.Length == |columnTypes|
      modifies this`stringBuilder, parameters
      ensures stored <==> index < parameters.Length && Convert(columnTypes[index], old(stringBuilder)).Some?
      ensures stored ==> Convert(columnTypes[index], old(stringBuilder)) == Some(parameters[index]) && stringBuilder == []
      ensures forall k :: 0 <= k < parameters.Length && k != index ==> parameters[k] == old(parameters[k])
      ensures !stored ==> stringBuilder == old(stringBuilder) && parameters[..] == old(parameters[..])
    {
      var v := if index < parameters.Length then Convert(columnTypes[index], stringBuilder) else None;
      if v.None? {
        return false;
      }
      parameters[index] := v.value;
      stringBuilder := [];
      stored := true;
    }

    /**
     * A character of `copy`'s loop other than an unescaped comma: a
     * backslash starts or ends an escape, an escaped comma is kept, and a
     * backslash before any other character stays in the field.
     */
    method Append(c: char, sawEscape: bool, ghost fields: seq<string>) returns (escape: bool)
      requires c != ',' || sawEscape
      modifies this`stringBuilder
      ensures Step(Scan(sawEscape, old(stringBuilder), fields), c, ',') == Scan(escape, stringBuilder, fields)
    {
      escape := false;
      if c == '\\' {
        if sawEscape {
          stringBuilder := stringBuilder + [c];
        } else {
          escape := true;
        }
      } else if c == ',' {
        stringBuilder := stringBuilder + [c];
      } else {
        if sawEscape {
          stringBuilder := stringBuilder + ['\\'];
        }
        stringBuilder := stringBuilder + [c];
      }
    }

    /**
     * The loop of `copy`: stores each field as its comma closes it.  It
     * returns how many it stored, or -1 when it throws at a comma past the
     * last column or at a field that does not convert; `fields` are the
     * fields closed and stored.
     */
    method Fields(line: string) returns (index: int, ghost fields: seq<string>)
      requires parameters.Length == |columnTypes|
      modifies this`stringBuilder, parameters
      ensures |fields| <= parameters.Length
      ensures forall k :: 0 <= k < parameters.Length ==>
        if k < |fields| then Convert(columnTypes[k], fields[k]) == Some(parameters[k]) else parameters[k] == old(parameters[k])
      ensures var st := Run(Scan(false, old(stringBuilder), []), line, ',');
        index >= 0 ==> index == |fields| && st.fields == fields && st.current == stringBuilder
      ensures var st := Run(Scan(false, old(stringBuilder), []), line, ',');
        index < 0 ==> (CopyValues(columnTypes, old(stringBuilder), line).None? && |fields| < |st.fields| &&
          FirstBad(columnTypes, st.fields, 0) == |fields| && st.fields[|fields|] == stringBuilder &&
          st.fields[..|fields|] == fields)
    {
      ghost var start := Scan(false, stringBuilder, []);
      fields := [];
      var sawEscape := false;
      index := 0;
      var i := 0;
      while i < |line|
        invariant i <= |line| && 0 <= index == |fields| <= parameters.Length
        invariant Run(start, line[..i], ',') == Scan(sawEscape, stringBuilder, fields)
        invariant forall k :: 0 <= k < parameters.Length ==>
          if k < index then Convert(columnTypes[k], fields[k]) == Some(parameters[k]) else parameters[k] == old(parameters[k])
      {
        var c := line[i];
        RunNext(start, line, i);
        if c == ',' && !sawEscape {
          ghost var closed := stringBuilder;
          var stored := Store(index);
          if !stored {
            Overflow(start, line, i + 1, fields + [stringBuilder]);
            LineFails(columnTypes, old(stringBuilder), line, fields, stringBuilder);
            return -1, fields;
          }
          fields := fields + [closed];
          index := index + 1;
        } else {
          sawEscape := Append(c, sawEscape, fields);
        }
        i := i + 1;
      }
      assert line[..i] == line;
    }
  }

  /**
   * A field that cannot be stored ends `copy` with no values: the fields
   * before it are the first the whole line's scan closes, and they all store.
   */
  lemma LineFails(types: seq<ColumnType>, pending: string, line: string, fields: seq<string>, failed: string)
    requires fields + [failed] <= Run(Scan(false, pending, []), line, ',').fields && |fields| <= |types|
    requires forall k :: 0 <= k < |fields| ==> Convert(types[k], fields[k]).Some?
    requires |fields| == |types| || Convert(types[|fields|], failed).None?
    ensures var st := Run(Scan(false, pending, []), line, ',');
      CopyValues(types, pending, line).None? && FirstBad(types, st.fields, 0) == |fields| &&
      st.fields[|fields|] == failed && st.fields[..|fields|] == fields
  {
    var st := Run(Scan(false, pending, []), line, ',');
    assert st.fields[|fields|] == (fields + [failed])[|fields|];
    assert st.fields[..|fields|] == fields;
    FirstBadAt(types, st.fields, 0, |fields|);
    if |st.fields| == |types| - 1 && st.current != [] {
      assert (st.fields + [st.current])[|fields|] == failed;
    }
  }

  /**
   * A line scanned to its end with every closed field stored: `copy` hands
   * over values exactly when one field is left for the last column, it is
   * not empty, and it converts.
   */
  lemma LineEnds(types: seq<ColumnType>, pending: string, line: string, fields: seq<string>, current: string)
    requires var st := Run(Scan(false, pending, []), line, ','); st.fields == fields && st.current == current
    requires |fields| <= |types|
    requires forall k :: 0 <= k < |fields| ==> Convert(types[k], fields[k]).Some?
    ensures FirstBad(types, fields, 0) == |fields|
    ensures CopyValues(types, pending, line).Some? <==>
      |fields| == |types| - 1 && current != [] && Convert(types[|fields|], current).Some?
  {
    FirstBadAt(types, fields, 0, |fields|);
    var row := fields + [current];
    if |fields| == |types| - 1 && current != [] {
      assert row[|fields|] == current;
      assert forall k :: 0 <= k < |fields| ==> row[k] == fields[k];
    }
  }

  /** Values that are exactly the conversions of a whole row are what `ConvertRow` gives. */
  lemma RowValues(types: seq<ColumnType>, row: seq<string>, values: seq<Value>)
    requires |row| == |types| == |values|
    requires forall k :: 0 <= k < |row| ==> Convert(types[k], row[k]) == Some(values[k])
    ensures ConvertRow(types, row) == Some(values)
  {
    var r := ConvertRow(types, row);
    assert r.Some?;
    var vs := r.value;
    forall k | 0 <= k < |row|
      ensures vs[k] == values[k]
    {
      assert Convert(types[k], row[k]) == Some(vs[k]);
    }
    assert vs == values;
  }

  /** Scanning one more character of `line` is one more `Step`. */
  lemma RunNext(start: Scan, line: string, i: nat)
    requires i < |line|
    ensures Run(start, line[..i + 1], ',') == Step(Run(start, line[..i], ','), line[i], ',')
  {
    assert line[..i + 1][..i] == line[..i];
  }

  /** A comma past the last column: the fields closed so far are those of the whole line's scan. */
  lemma Overflow(start: Scan, line: string, i: nat, fields: seq<string>)
    requires i <= |line| && Run(start, line[..i], ',').fields == fields
    ensures fields <= Run(start, line, ',').fields
  {
    RunAppend(start, line[..i], line[i..], ',');
    assert line[..i] + line[i..] == line;
    RunExtends(Run(start, line[..i], ','), line[i..], ',');
  }

  // ---------------------------------------------------------------------
  // Transactions and the COPY session

  /** A database revision, as far as this model needs to tell revisions apart. */
  datatype Revision = Revision(id: nat)

  /** `Transaction`: the revision it started from and the one it has reached. */
  datatype Transaction = Transaction(dbTail: Revision, dbHead: Revision)

  /** Text made of ASCII characters, as the bytes UTF-8 gives it. */
  function Ascii(s: string): (bytes: seq<byte>)
    requires forall i :: 0 <= i < |s| ==> s[i] as int < 0x80
    ensures |bytes| == |s| && forall i :: 0 <= i < |s| ==> bytes[i] == s[i] as int
  {
    seq(|s|, i requires 0 <= i < |s| => s[i] as int)
  }

  /** The decimal digits of `n`. */
  function Digits(n: nat): (s: string)
    ensures |s| > 0 && forall i :: 0 <= i < |s| ==> '0' <= s[i] <= '9'
  {
    (if n < 10 then "" else Digits(n / 10)) + [('0' as int + n % 10) as char]
  }

  function Pow10(k: nat): (p: nat)
    ensures p >= 1
  {
    if k == 0 then 1 else 10 * Pow10(k - 1)
  }

  lemma {:induction false} DigitsLength(n: nat, k: nat)
    requires 1 <= k && n < Pow10(k)
    ensures |Digits(n)| <= k
    decreases k
  {
    if n >= 10 {
      DigitsLength(n / 10, k - 1);
    }
  }

  /** `String.valueOf(n)` for an `int`. */
  function Decimal(n: int32): (s: string)
    ensures |s| <= 11
    ensures forall i :: 0 <= i < |s| ==> s[i] == '-' || '0' <= s[i] <= '9'
  {
    assert Pow10(10) == 10_000_000_000;
    var m := if n < 0 then -(n as int) else n as int;
    DigitsLength(m, 10);
    if n < 0 then "-" + Digits(m) else Digits(m)
  }

  /** The message that ends a `COPY`. */
  function InsertedMessage(count: int32): (m: seq<byte>)
    ensures |m| < 0x8000_0000
  {
    Ascii("inserted " + Decimal(count) + " row(s)")
  }

  /** A client session: its open transactions, innermost last, and its `COPY` in progress. */
  class Session {
    var transactions: seq<Transaction>
    var copyContext: CopyContext?
    /**
     * `server.head()`, as far as this session knows it.  The server
     * advances its head when a merge lands; reading the new head is left
     * to the environment, so nothing here moves `serverHead`.
     */
    var serverHead: Revision
    /** The `server.merge(base, fork)` calls made so far. */
    var merges: seq<(Revision, Revision)>
    const out: Streams.OutputStream

    constructor (head: Revision, out: Streams.OutputStream)
      ensures transactions == [] && copyContext == null && serverHead == head && merges == [] && this.out == out
    {
      transactions := [];
      copyContext := null;
      serverHead := head;
      merges := [];
      this.out := out;
    }

    /** Where a new transaction starts: the enclosing transaction's head, or the server's. */
    function Base(): Revision
      reads this
    {
      if transactions == [] then serverHead else transactions[|transactions| - 1].dbHead
    }

    /** `pushTransaction`. */
    method PushTransaction()
      modifies this`transactions
      ensures transactions == old(transactions) + [Transaction(old(Base()), old(Base()))]
    {
      var b := Base();
      transactions := transactions + [Transaction(b, b)];
    }

    /**
     * `setTag(client, new Tag("head", ...))`: the innermost transaction
     * reaches `head`.  In the source `setTag` commits a further revision that
     * holds the "head" tag; `head` stands for that revision.
     */
    method SetHead(head: Revision)
      requires transactions != []
      modifies this`transactions
      ensures var n := |old(transactions)|;
        transactions == old(transactions)[..n - 1] + [Transaction(old(transactions)[n - 1].dbTail, head)]
    {
      var n := |transactions|;
      transactions := transactions[..n - 1] + [Transaction(transactions[n - 1].dbTail, head)];
    }

    /**
     * `commitTransaction`: the outermost transaction merges its work into
     * the server; a nested one hands its head to the enclosing one.
     */
    method CommitTransaction()
      requires transactions != []
      modifies this`transactions, this`merges
      ensures var ts := old(transactions); var n := |ts|;
        if n == 1 then
          merges == old(merges) + [(ts[0].dbTail, ts[0].dbHead)] && transactions == ts
        else
          merges == old(merges) &&
          transactions == ts[..n - 2] + [Transaction(ts[n - 2].dbTail, ts[n - 1].dbHead), ts[n - 1]]
    {
      var n := |transactions|;
      if n == 1 {
        merges := merges + [(transactions[0].dbTail, transactions[0].dbHead)];
      } else {
        transactions := transactions[..n - 2] +
          [Transaction(transactions[n - 2].dbTail, transactions[n - 1].dbHead), transactions[n - 1]];
      }
    }

    /** `popTransaction`: with no transaction open it fails with "no transaction in progress". */
    method PopTransaction() returns (failure: Option<string>)
      modifies this`transactions
      ensures old(transactions) == [] ==> failure == Some("no transaction in progress") && transactions == []
      ensures old(transactions) != [] ==> failure == None && transactions == old(transactions)[..|old(transactions)| - 1]
    {
      if transactions == [] {
        return Some("no transaction in progress");
      }
      transactions := transactions[..|transactions| - 1];
      return None;
    }

    /**
     * `apply(client, template)`: a transaction of its own around one
     * change.  `committed` is the revision `setTag` commits, or `None`
     * when `builder.apply` throws (a duplicate key, a rejected row).  On
     * success the work lands in the enclosing transaction, or is merged
     * into the server when there is none.  On failure nothing lands and
     * the exception goes on to the caller (`threw`).  Either way the
     * `finally` pop leaves the stack as it was.
     */
    method ApplyInTransaction(committed: Option<Revision>) returns (threw: bool)
      modifies this`transactions, this`merges
      ensures threw <==> committed.None?
      ensures committed.None? ==> transactions == old(transactions) && merges == old(merges)
      ensures committed.Some? ==> var ts := old(transactions); var n := |ts|;
        if n == 0 then
          transactions == [] && merges == old(merges) + [(serverHead, committed.value)]
        else
          merges == old(merges) && transactions == ts[..n - 1] + [Transaction(ts[n - 1].dbTail, committed.value)]
    {
      PushTransaction();
      if committed.None? {
        var failure := PopTransaction();
        return true;
      }
      SetHead(committed.value);
      CommitTransaction();
      var failure := PopTransaction();
      threw := false;
    }

    /** The `COPY ... FROM STDIN` task: a copy context, a transaction, and `CopySuccess`. */
    method StartCopy(columnTypes: seq<ColumnType>)
      modifies this`transactions, this`copyContext, out
      ensures fresh(copyContext) && copyContext.columnTypes == columnTypes
      ensures copyContext.parameters.Length == |columnTypes|
      ensures copyContext.stringBuilder == [] && copyContext.count == 0 && !copyContext.trouble
      ensures copyContext.applied == []
      ensures transactions == old(transactions) + [Transaction(old(Base()), old(Base()))]
      ensures out.written == old(out.written) + [CopySuccess] + Streams.EncodeString(Some(Ascii("reading row data until \"\\.\"")))
    {
      copyContext := new CopyContext(columnTypes);
      PushTransaction();
      out.Write(CopySuccess);
      Streams.WriteString(out, Some(Ascii("reading row data until \"\\.\"")));
    }

    /**
     * `applyCopy`: the line `\.` ends the copy, committing its transaction
     * and reporting the count; any other line is one row, skipped once a
     * row has failed.  A row writes no reply.  `line` is the request as
     * `tokenize` left it, so a parenthesis in row data arrives with spaces
     * around it (`a(b` is stored as `a ( b`).  `applies` is whether
     * `builder.apply` accepts the row's values, and `committed` the revision
     * `setTag` commits for the `\.` line.
     */
    method ApplyCopy(line: string, applies: bool, committed: Revision)
      requires copyContext != null && transactions != []
      requires copyContext.parameters.Length == |copyContext.columnTypes|
      modifies this, copyContext, copyContext.parameters, out
      ensures var c := old(copyContext);
        line == "\\." ==> copyContext == null && c.count == old(c.count) && c.applied == old(c.applied)
      ensures line == "\\." ==>
        out.written == old(out.written) + [Success] + Streams.EncodeString(Some(InsertedMessage(old(copyContext.count))))
      ensures var ts := old(transactions); var n := |ts|;
        line == "\\." ==>
          if n == 1 then transactions == [] && merges == old(merges) + [(ts[0].dbTail, committed)]
          else merges == old(merges) && transactions == ts[..n - 2] + [Transaction(ts[n - 2].dbTail, committed)]
      ensures line != "\\." ==>
        copyContext == old(copyContext) && transactions == old(transactions) && merges == old(merges) &&
        out.written == old(out.written)
      ensures var c := old(copyContext);
        line != "\\." && old(c.trouble) ==> c.trouble && c.count == old(c.count) && c.applied == old(c.applied)
      ensures var c := old(copyContext);
        line != "\\." && !old(c.trouble) ==>
          var r := CopyValues(c.columnTypes, old(c.stringBuilder), line);
          var ok := r.Some? && applies;
          c.trouble == !ok &&
          c.count == (if ok then Signed32(old(c.count) as int + 1) else old(c.count)) &&
          c.applied == (if ok then old(c.applied) + [r.value] else old(c.applied))
    {
      var c := copyContext;
      if line == "\\." {
        EndCopy(committed);
      } else {
        c.ApplyRow(line, applies);
      }
    }

    /** The `\.` line of `applyCopy`: the copy's transaction reaches `committed` and commits, and the count is reported. */
    method EndCopy(committed: Revision)
      requires copyContext != null && transactions != []
      modifies this`transactions, this`merges, this`copyContext, out
      ensures copyContext == null
      ensures out.written == old(out.written) + [Success] + Streams.EncodeString(Some(InsertedMessage(old(copyContext.count))))
      ensures var ts := old(transactions); var n := |ts|;
        if n == 1 then transactions == [] && merges == old(merges) + [(ts[0].dbTail, committed)]
        else merges == old(merges) && transactions == ts[..n - 2] + [Transaction(ts[n - 2].dbTail, committed)]
    {
      var count := copyContext.count;
      SetHead(committed);
      CommitTransaction();
      var failure := PopTransaction();
      out.Write(Success);
      Streams.WriteString(out, Some(InsertedMessage(count)));
      copyContext := null;
    }
  }
}
