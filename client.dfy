/**
 * The interactive client (src/client.cpp): one fixed buffer that is used
 * for writing a request and then for reading the reply, a sticky `trouble`
 * latch, and the dispatch on the reply's tag.
 *
 * The socket is an object of its own, `Socket`, whose fields say what the
 * server has received, how many more bytes the connection accepts, and what
 * the server has sent and the client not yet read.  Everything the client
 * prints to stdout or stderr is recorded, in order, as `Printed` events.
 */
module Client {
  import opened Wire

  // Request tags (src/client.cpp:12-15)
  const ExecuteTag: byte := 0
  const CompleteTag: byte := 1

  // Response tags as the client numbers them (src/client.cpp:17-22)
  const RowSet := 0
  const NewDatabase := 1
  const Success := 2
  const Error := 3

  // Row-set flags (src/client.cpp:24-29)
  const InsertedRow := 0
  const DeletedRow := 1
  const End := 2
  const Item := 3

  /** `Context` allocates its buffer with 8 KiB (src/client.cpp:52). */
  const Capacity := 8 * 1024

  /** What `read` reports once every byte the server sent has been consumed. */
  datatype ReadEnd = Closed | Failed

  /** Everything the client prints, one event per `fprintf`/`perror`. */
  datatype Printed =
    | Message(text: seq<byte>)       // stdout "%s\n"
    | InsertedLabel                  // stdout "\n inserted:"
    | DeletedLabel                   // stdout "\n  deleted:"
    | ItemText(text: seq<byte>)      // stdout " %s"
    | RowsDone                       // stdout "\n"
    | ErrorMessage(text: seq<byte>)  // stderr "error: %s\n"
    | UnexpectedResult(code: int)
    | UnexpectedFlag(code: int)
    | WriteFailed                    // "unable to write"
    | EndOfStream                    // "unexpected end of stream from server"
    | ReadFailed                     // "unable to read"

  function LostNotice(end: ReadEnd): Printed
  {
    if end == Closed then EndOfStream else ReadFailed
  }

  /** What `%s` prints of a byte string: everything before the first NUL. */
  function CText(s: seq<byte>): (t: seq<byte>)
    ensures t <= s
    ensures forall i :: 0 <= i < |t| ==> t[i] != 0
    ensures |t| < |s| ==> s[|t|] == 0
  {
    if s == [] || s[0] == 0 then [] else [s[0]] + CText(s[1..])
  }

  /** A `char` is signed: octets 0x80..0xFF read back as -128..-1. */
  function SignedChar(b: byte): int
  {
    if b < 0x80 then b else b - 0x100
  }

  /** C's `isspace` in the "C" locale. */
  predicate IsSpace(b: byte)
  {
    b == 32 || 9 <= b <= 13
  }

  /** The commands `execute` handles without the server. */
  const ExitCommand: seq<byte> := [0x65, 0x78, 0x69, 0x74]  // "exit"
  const QuitCommand: seq<byte> := [0x71, 0x75, 0x69, 0x74]  // "quit"

  /** The bytes of a request: its tag, then the text with its length in front. */
  function Frame(tag: byte, text: seq<byte>): seq<byte>
    requires |text| < 0x8000_0000
  {
    [tag] + IntToBytes(|text|) + text
  }

  // ---------------------------------------------------------------------
  // Decoding the bytes the client reads, one `read*` call at a time.

  /** The result of a read: a value and the bytes after it, or the stream ran dry. */
  datatype Read<T> = Got(value: T, rest: seq<byte>) | Lost

  function ReadByteSpec(input: seq<byte>): (r: Read<int>)
    ensures r.Got? ==> |r.rest| < |input|
  {
    if |input| == 0 then Lost else Got(SignedChar(input[0]), input[1..])
  }

  function ReadIntegerSpec(input: seq<byte>): (r: Read<int32>)
    ensures r.Got? ==> |input| >= 4 && r.rest == input[4..] && IntToBytes(r.value) == input[..4]
    ensures r.Lost? <==> |input| < 4
  {
    if |input| < 4 then Lost
    else
      IntToBytesToInt(input[..4]);
      Got(BytesToInt(input[..4]), input[4..])
  }

  /** `readString`: a length, then that many bytes; a negative length gives null. */
  function ReadStringSpec(input: seq<byte>): (r: Read<Option<seq<byte>>>)
    ensures r.Got? ==> |r.rest| <= |input| - 4
    ensures r.Got? && r.value.Some? ==> |r.value.value| < 0x8000_0000 && input == IntToBytes(|r.value.value|) + r.value.value + r.rest
  {
    match ReadIntegerSpec(input)
    case Lost => Lost
    case Got(n, rest) =>
      if n < 0 then Got(None, rest)
      else if n <= |rest| then
        assert input == input[..4] + rest[..n] + rest[n..];
        Got(Some(rest[..n]), rest[n..])
      else Lost
  }

  /** What one request's reply does to the session. */
  datatype Outcome<T> = Outcome(value: T, printed: seq<Printed>, trouble: bool, rest: seq<byte>)

  /**
   * The effect of reading a reply to `execute`, given the database name
   * before it and what was printed before it.
   */
  function Respond(input: seq<byte>, end: ReadEnd, name: Option<seq<byte>>, acc: seq<Printed>)
    : Outcome<Option<seq<byte>>>
  {
    match ReadByteSpec(input)
    case Lost => Outcome(name, acc + [LostNotice(end)], true, [])
    case Got(tag, rest) =>
      if tag == -1 then Outcome(name, acc, false, rest)
      else if tag == NewDatabase then SwitchDatabase(rest, end, acc)
      else if tag == Success || tag == Error then ShowMessage(tag == Success, rest, end, name, acc)
      else if tag == RowSet then
        var o := Rows(rest, end, acc);
        Outcome(name, o.printed, o.trouble, o.rest)
      else Outcome(name, acc + [UnexpectedResult(tag)], true, rest)
  }

  /** `NewDatabase`: the new name replaces the old one even when it is null. */
  function SwitchDatabase(input: seq<byte>, end: ReadEnd, acc: seq<Printed>): Outcome<Option<seq<byte>>>
  {
    match ReadStringSpec(input)
    case Lost => Outcome(None, acc + [LostNotice(end)], true, [])
    case Got(None, rest) => Outcome(None, acc, false, rest)
    case Got(Some(db), rest) =>
      var o := ShowMessage(true, rest, end, Some(db), acc);
      o
  }

  /** `Success` prints its message to stdout, `Error` to stderr. */
  function ShowMessage(success: bool, input: seq<byte>, end: ReadEnd, name: Option<seq<byte>>, acc: seq<Printed>)
    : Outcome<Option<seq<byte>>>
  {
    match ReadStringSpec(input)
    case Lost => Outcome(name, acc + [LostNotice(end)], true, [])
    case Got(None, rest) => Outcome(name, acc, false, rest)
    case Got(Some(m), rest) =>
      Outcome(name, acc + [if success then Message(CText(m)) else ErrorMessage(CText(m))], false, rest)
  }

  /** The row-set loop of `execute`, having printed `acc` so far. */
  function Rows(input: seq<byte>, end: ReadEnd, acc: seq<Printed>): Outcome<()>
    decreases |input|
  {
    match ReadByteSpec(input)
    case Lost => Outcome((), acc + [LostNotice(end)], true, [])
    case Got(flag, rest) =>
      if flag == -1 then Outcome((), acc, false, rest)
      else if flag == InsertedRow then Rows(rest, end, acc + [InsertedLabel])
      else if flag == DeletedRow then Rows(rest, end, acc + [DeletedLabel])
      else if flag == Item then
        match ReadStringSpec(rest)
        case Lost => Outcome((), acc + [LostNotice(end)], true, [])
        case Got(None, rest2) => Outcome((), acc, false, rest2)
        case Got(Some(s), rest2) => Rows(rest2, end, acc + [ItemText(CText(s))])
      else if flag == End then Outcome((), acc + [RowsDone], false, rest)
      else Outcome((), acc + [UnexpectedFlag(flag)], true, rest)
  }

  /** The effect of reading a reply to `startCompletion`: the completion count. */
  function CompletionReply(input: seq<byte>, end: ReadEnd): Outcome<int>
  {
    match ReadByteSpec(input)
    case Lost => Outcome(-1, [LostNotice(end)], true, [])
    case Got(tag, rest) =>
      if tag == -1 then Outcome(-1, [], false, rest)
      else if tag == Success then
        match ReadIntegerSpec(rest)
        case Lost => Outcome(-1, [LostNotice(end)], true, [])
        case Got(n, rest2) => Outcome(n, [], false, rest2)
      else if tag == Error then
        match ReadStringSpec(rest)
        case Lost => Outcome(-1, [LostNotice(end)], true, [])
        case Got(_, rest2) => Outcome(-1, [], false, rest2)
      else Outcome(-1, [UnexpectedResult(tag)], true, rest)
  }

  lemma PrefixSplit(s: seq<byte>, i: nat, j: nat)
    requires i <= j <= |s|
    ensures s[..j] == s[..i] + s[i..j]
  {
  }

  /** The first `c` bytes of a buffer's unread part and what follows it come from the buffer alone. */
  lemma SliceSplit(b: seq<byte>, p: nat, c: nat, l: nat, tail: seq<byte>)
    requires p + c <= l <= |b|
    ensures (b[p..l] + tail)[..c] == b[p..p + c]
    ensures (b[p..l] + tail)[c..] == b[p + c..l] + tail
  {
  }

  lemma SuffixSplit(s: seq<byte>, i: nat, j: nat)
    requires i <= j <= |s|
    ensures s[i..][..j - i] == s[i..j] && s[i..][j - i..] == s[j..]
  {
  }

  // ---------------------------------------------------------------------
  // Trimming a command line before it is sent.

  function TrimStart(s: seq<byte>): seq<byte>
  {
    if s != [] && IsSpace(s[0]) then TrimStart(s[1..]) else s
  }

  function TrimEnd(s: seq<byte>): seq<byte>
  {
    if s != [] && IsSpace(s[|s| - 1]) then TrimEnd(s[..|s| - 1]) else s
  }

  /** The text without its leading and trailing white space. */
  function Trim(s: seq<byte>): seq<byte>
  {
    TrimEnd(TrimStart(s))
  }

  /** Every byte of `s` from `i` up to `j` is white space. */
  predicate SpaceBetween(s: seq<byte>, i: int, j: int)
  {
    forall k :: i <= k < j && 0 <= k < |s| ==> IsSpace(s[k])
  }

  lemma {:induction false} TrimStartAt(s: seq<byte>, i: nat)
    requires i <= |s| && SpaceBetween(s, 0, i) && (i < |s| ==> !IsSpace(s[i]))
    ensures TrimStart(s) == s[i..]
    decreases i
  {
    if i > 0 {
      assert IsSpace(s[0]);
      var t := s[1..];
      assert SpaceBetween(t, 0, i - 1) by {
        forall k | 0 <= k < i - 1 ensures IsSpace(t[k]) {
          assert t[k] == s[k + 1];
        }
      }
      TrimStartAt(t, i - 1);
      assert t[i - 1..] == s[i..];
    } else {
      assert s[0..] == s;
    }
  }

  lemma {:induction false} TrimEndAt(s: seq<byte>, j: nat)
    requires j <= |s| && SpaceBetween(s, j, |s|) && (0 < j ==> !IsSpace(s[j - 1]))
    ensures TrimEnd(s) == s[..j]
    decreases |s| - j
  {
    if j < |s| {
      assert IsSpace(s[|s| - 1]);
      var u := s[..|s| - 1];
      assert SpaceBetween(u, j, |u|) by {
        forall k | j <= k < |u| ensures IsSpace(u[k]) {
          assert u[k] == s[k];
        }
      }
      assert 0 < j ==> u[j - 1] == s[j - 1];
      TrimEndAt(u, j);
      assert u[..j] == s[..j];
    } else {
      assert s[..|s|] == s;
    }
  }

  /**
   * `Trim` takes exactly the white space off both ends: what is left has
   * none at either end, and what was removed is all white space.
   */
  lemma TrimSplits(s: seq<byte>, i: nat, j: nat)
    requires i <= j <= |s|
    requires SpaceBetween(s, 0, i) && SpaceBetween(s, j, |s|)
    requires i < j ==> !IsSpace(s[i]) && !IsSpace(s[j - 1])
    requires i == j ==> j == |s|
    ensures Trim(s) == s[i..j]
  {
    TrimStartAt(s, i);
    var t := s[i..];
    assert SpaceBetween(t, j - i, |t|) by {
      forall k | j - i <= k < |t| ensures IsSpace(t[k]) {
        assert t[k] == s[i + k];
      }
    }
    assert 0 < j - i ==> t[j - i - 1] == s[j - 1];
    TrimEndAt(t, j - i);
    assert t[..j - i] == s[i..j];
  }

  /**
   * `removeEdgeWhitespace` on a NUL-terminated line held in `line`: the
   * returned position starts the trimmed text, and the only byte written is
   * the NUL that now ends it.
   */
  method RemoveEdgeWhitespace(line: array<byte>) returns (start: nat)
    requires 0 in line[..]
    modifies line
    ensures start <= |CText(old(line[..]))| < line.Length
    ensures CText(line[start..]) == Trim(CText(old(line[..])))
    ensures forall k :: 0 <= k < line.Length ==>
      line[k] == if k == start + |Trim(CText(old(line[..])))| then 0 else old(line[k])
  {
    ghost var before := line[..];
    ghost var text := CText(before);
    Terminated(before);
    start := SkipSpaces(line, text);
    if line[start] == 0 {
      TrimSplits(text, start, start);
      TrimmedLine(before, line[..], text, start, start);
      return;
    }
    var last := LastNonSpace(line, text, start);
    TrimSplits(text, start, last + 1);
    line[last + 1] := 0;
    TrimmedLine(before, line[..], text, start, last + 1);
  }

  /** The first loop of `removeEdgeWhitespace`: past the leading white space of the text. */
  method SkipSpaces(line: array<byte>, ghost text: seq<byte>) returns (start: nat)
    requires text == CText(line[..]) && |text| < line.Length
    ensures start <= |text| && SpaceBetween(text, 0, start)
    ensures start < |text| ==> !IsSpace(text[start])
    ensures line[start] == 0 <==> start == |text|
  {
    start := 0;
    while IsSpace(line[start])
      invariant start <= |text| && SpaceBetween(text, 0, start)
      decreases |text| - start
    {
      assert start < |text| && line[start] == text[start];
      start := start + 1;
    }
  }

  /** The second loop: the last byte of the text, from `start` on, that is not white space. */
  method LastNonSpace(line: array<byte>, ghost text: seq<byte>, start: nat) returns (last: nat)
    requires text == CText(line[..]) && |text| < line.Length
    requires start < |text| && !IsSpace(text[start])
    ensures start <= last < |text| && !IsSpace(text[last]) && SpaceBetween(text, last + 1, |text|)
  {
    var p := start;
    last := start;
    while line[p] != 0
      invariant start <= last <= p <= |text| && last < |text|
      invariant !IsSpace(text[last]) && SpaceBetween(text, last + 1, p)
      decreases |text| - p
    {
      assert p < |text| && line[p] == text[p];
      if !IsSpace(line[p]) {
        last := p;
      }
      p := p + 1;
    }
    assert p == |text|;
  }

  /** A byte string holding a NUL ends its text before that NUL. */
  lemma Terminated(s: seq<byte>)
    requires 0 in s
    ensures |CText(s)| < |s| && s[|CText(s)|] == 0
  {
    var z :| 0 <= z < |s| && s[z] == 0;
    assert z >= |CText(s)|;
  }

  /** The line after the NUL is written at `n`, when the trimmed text runs from `start` to `n`. */
  lemma TrimmedLine(before: seq<byte>, after: seq<byte>, text: seq<byte>, start: nat, n: nat)
    requires text == CText(before) && |text| < |before|
    requires start <= n <= |text| && Trim(text) == text[start..n]
    requires after == before[n := 0]
    ensures CText(after[start..]) == Trim(text)
    ensures forall k :: 0 <= k < |after| ==> after[k] == if k == start + |Trim(text)| then 0 else before[k]
  {
    CutAt(before, text, after, start, n);
  }

  /** Writing a NUL right after the text's `n`th byte makes `%s` from `start` print up to it. */
  lemma CutAt(before: seq<byte>, text: seq<byte>, after: seq<byte>, start: nat, n: nat)
    requires text <= before && start <= n <= |text| && n < |before| && after == before[n := 0]
    requires forall k :: 0 <= k < |text| ==> text[k] != 0
    ensures CText(after[start..]) == text[start..n]
  {
    var s := after[start..];
    assert forall k :: 0 <= k < n - start ==> s[k] == text[start + k];
    CTextAt(s, n - start);
    assert s[..n - start] == text[start..n];
  }

  /** `%s` stops at the first NUL. */
  lemma {:induction false} CTextAt(s: seq<byte>, n: nat)
    requires n < |s| && s[n] == 0 && forall k :: 0 <= k < n ==> s[k] != 0
    ensures CText(s) == s[..n]
  {
    if n > 0 {
      CTextAt(s[1..], n - 1);
      assert s[..n] == [s[0]] + s[1..][..n - 1];
    }
  }

  // ---------------------------------------------------------------------
  // What the server writes (SQLServer.writeRowSet and the execute/complete
  // handlers), in the client's numbering of tags, and what the client makes
  // of it.

  datatype Row = Row(inserted: bool, items: seq<seq<byte>>)

  datatype Reply =
    | RowSetReply(rows: seq<Row>)
    | NewDatabaseReply(name: seq<byte>, message: seq<byte>)
    | SuccessReply(message: seq<byte>)
    | ErrorReply(message: seq<byte>)

  /** A length-prefixed string, as `writeString` on either side frames it. */
  function EncodeString(s: seq<byte>): seq<byte>
    requires |s| < 0x8000_0000
  {
    IntToBytes(|s|) + s
  }

  predicate ShortStrings(ss: seq<seq<byte>>)
  {
    forall i :: 0 <= i < |ss| ==> |ss[i]| < 0x8000_0000
  }

  predicate Encodable(r: Reply)
  {
    match r
    case RowSetReply(rows) => forall i :: 0 <= i < |rows| ==> ShortStrings(rows[i].items)
    case NewDatabaseReply(name, message) => |name| < 0x8000_0000 && |message| < 0x8000_0000
    case SuccessReply(message) => |message| < 0x8000_0000
    case ErrorReply(message) => |message| < 0x8000_0000
  }

  function EncodeItems(items: seq<seq<byte>>): seq<byte>
    requires ShortStrings(items)
  {
    if items == [] then [] else [Item as byte] + EncodeString(items[0]) + EncodeItems(items[1..])
  }

  function EncodeRows(rows: seq<Row>): seq<byte>
    requires forall i :: 0 <= i < |rows| ==> ShortStrings(rows[i].items)
  {
    if rows == [] then []
    else [if rows[0].inserted then InsertedRow as byte else DeletedRow as byte] +
         EncodeItems(rows[0].items) + EncodeRows(rows[1..])
  }

  function EncodeReply(r: Reply): seq<byte>
    requires Encodable(r)
  {
    match r
    case RowSetReply(rows) => [RowSet as byte] + EncodeRows(rows) + [End as byte]
    case NewDatabaseReply(name, message) => [NewDatabase as byte] + EncodeString(name) + EncodeString(message)
    case SuccessReply(message) => [Success as byte] + EncodeString(message)
    case ErrorReply(message) => [Error as byte] + EncodeString(message)
  }

  function ShownItems(items: seq<seq<byte>>): seq<Printed>
  {
    if items == [] then [] else [ItemText(CText(items[0]))] + ShownItems(items[1..])
  }

  function ShownRows(rows: seq<Row>): seq<Printed>
  {
    if rows == [] then []
    else [if rows[0].inserted then InsertedLabel else DeletedLabel] +
         ShownItems(rows[0].items) + ShownRows(rows[1..])
  }

  /** What the client prints for a reply. */
  function Shown(r: Reply): seq<Printed>
  {
    match r
    case RowSetReply(rows) => ShownRows(rows) + [RowsDone]
    case NewDatabaseReply(_, message) => [Message(CText(message))]
    case SuccessReply(message) => [Message(CText(message))]
    case ErrorReply(message) => [ErrorMessage(CText(message))]
  }

  /** `readString` recovers what `writeString` framed, and stops right after it. */
  lemma ReadEncodedString(s: seq<byte>, rest: seq<byte>)
    requires |s| < 0x8000_0000
    ensures ReadStringSpec(EncodeString(s) + rest) == Got(Some(s), rest)
  {
    var input := EncodeString(s) + rest;
    assert input[..4] == IntToBytes(|s|);
    BytesToIntToBytes(|s|);
    assert input[4..] == s + rest;
    assert (s + rest)[..|s|] == s && (s + rest)[|s|..] == rest;
  }

  lemma Regroup<T>(a: seq<T>, b: seq<T>, c: seq<T>, d: seq<T>)
    ensures a + b + c + d == a + (b + (c + d))
  {
  }

  lemma Associate<T>(a: seq<T>, b: seq<T>, c: seq<T>)
    ensures a + b + c == a + (b + c)
  {
  }

  lemma ReadByteCons(b: byte, rest: seq<byte>)
    requires b < 0x80
    ensures ReadByteSpec([b] + rest) == Got(b as int, rest)
  {
    assert ([b] + rest)[1..] == rest;
  }

  lemma RowsItem(s: seq<byte>, more: seq<byte>, end: ReadEnd, acc: seq<Printed>)
    requires |s| < 0x8000_0000
    ensures Rows([Item as byte] + (EncodeString(s) + more), end, acc) == Rows(more, end, acc + [ItemText(CText(s))])
  {
    ReadByteCons(Item as byte, EncodeString(s) + more);
    ReadEncodedString(s, more);
  }

  lemma RowsFlag(inserted: bool, more: seq<byte>, end: ReadEnd, acc: seq<Printed>)
    ensures Rows([if inserted then InsertedRow as byte else DeletedRow as byte] + more, end, acc) ==
      Rows(more, end, acc + [if inserted then InsertedLabel else DeletedLabel])
  {
    ReadByteCons(if inserted then InsertedRow as byte else DeletedRow as byte, more);
  }

  lemma {:induction false} RowsOfEncodedItems(items: seq<seq<byte>>, tail: seq<byte>, end: ReadEnd, acc: seq<Printed>)
    requires ShortStrings(items)
    ensures Rows(EncodeItems(items) + tail, end, acc) == Rows(tail, end, acc + ShownItems(items))
    decreases |items|
  {
    if items == [] {
      assert EncodeItems(items) + tail == tail;
      assert acc + ShownItems(items) == acc;
    } else {
      var s := items[0];
      var shown := acc + [ItemText(CText(s))];
      var more := EncodeItems(items[1..]) + tail;
      assert EncodeItems(items) + tail == [Item as byte] + (EncodeString(s) + more);
      RowsItem(s, more, end, acc);
      RowsOfEncodedItems(items[1..], tail, end, shown);
      assert shown + ShownItems(items[1..]) == acc + ShownItems(items);
    }
  }

  lemma {:induction false} RowsOfEncodedRows(rows: seq<Row>, tail: seq<byte>, end: ReadEnd, acc: seq<Printed>)
    requires forall i :: 0 <= i < |rows| ==> ShortStrings(rows[i].items)
    ensures Rows(EncodeRows(rows) + tail, end, acc) == Rows(tail, end, acc + ShownRows(rows))
    decreases |rows|
  {
    if rows == [] {
      assert EncodeRows(rows) + tail == tail;
      assert acc + ShownRows(rows) == acc;
    } else {
      var inserted := rows[0].inserted;
      var flag: byte := if inserted then InsertedRow as byte else DeletedRow as byte;
      var mark := if inserted then InsertedLabel else DeletedLabel;
      var shown := acc + [mark];
      var more := EncodeRows(rows[1..]) + tail;
      assert EncodeRows(rows) + tail == [flag] + (EncodeItems(rows[0].items) + more);
      RowsFlag(inserted, EncodeItems(rows[0].items) + more, end, acc);
      RowsOfEncodedItems(rows[0].items, more, end, shown);
      RowsOfEncodedRows(rows[1..], tail, end, shown + ShownItems(rows[0].items));
      var items, others := ShownItems(rows[0].items), ShownRows(rows[1..]);
      assert ShownRows(rows) == [mark] + items + others;
      Regroup(acc, [mark], items, others);
      Associate([mark], items, others);
    }
  }

  /**
   * Every reply the server frames is read back completely: the client
   * prints exactly what the reply carries, takes the new database name
   * from `NewDatabase`, raises no trouble, and leaves the bytes after it.
   */
  lemma RespondToEncoded(r: Reply, rest: seq<byte>, end: ReadEnd, name: Option<seq<byte>>, acc: seq<Printed>)
    requires Encodable(r)
    ensures Respond(EncodeReply(r) + rest, end, name, acc) ==
      Outcome(if r.NewDatabaseReply? then Some(r.name) else name, acc + Shown(r), false, rest)
  {
    match r
    case RowSetReply(rows) => RespondToRowSet(rows, rest, end, name, acc);
    case NewDatabaseReply(db, message) => RespondToNewDatabase(db, message, rest, end, name, acc);
    case SuccessReply(message) => RespondToMessage(true, message, rest, end, name, acc);
    case ErrorReply(message) => RespondToMessage(false, message, rest, end, name, acc);
  }

  lemma RespondToRowSet(rows: seq<Row>, rest: seq<byte>, end: ReadEnd, name: Option<seq<byte>>, acc: seq<Printed>)
    requires Encodable(RowSetReply(rows))
    ensures Respond(EncodeReply(RowSetReply(rows)) + rest, end, name, acc) ==
      Outcome(name, acc + ShownRows(rows) + [RowsDone], false, rest)
  {
    var tail := [End as byte] + rest;
    var body := EncodeRows(rows) + tail;
    assert ReadByteSpec(EncodeReply(RowSetReply(rows)) + rest) == Got(RowSet, body) by {
      assert EncodeReply(RowSetReply(rows)) + rest == [RowSet as byte] + body;
      ReadByteCons(RowSet as byte, body);
    }
    assert Rows(body, end, acc) == Outcome((), acc + ShownRows(rows) + [RowsDone], false, rest) by {
      RowsOfEncodedRows(rows, tail, end, acc);
      ReadByteCons(End as byte, rest);
    }
  }

  lemma RespondToNewDatabase(db: seq<byte>, message: seq<byte>, rest: seq<byte>, end: ReadEnd,
                             name: Option<seq<byte>>, acc: seq<Printed>)
    requires |db| < 0x8000_0000 && |message| < 0x8000_0000
    ensures Respond(EncodeReply(NewDatabaseReply(db, message)) + rest, end, name, acc) ==
      Outcome(Some(db), acc + [Message(CText(message))], false, rest)
  {
    var input := EncodeReply(NewDatabaseReply(db, message)) + rest;
    var after := EncodeString(message) + rest;
    var body := EncodeString(db) + after;
    calc {
      Respond(input, end, name, acc);
    == { assert input == [NewDatabase as byte] + body by {
           Regroup([NewDatabase as byte], EncodeString(db), EncodeString(message), rest);
         }
         RespondToNewDatabaseTag(body, end, name, acc); }
      SwitchDatabase(body, end, acc);
    == { SwitchToEncoded(db, after, end, acc); }
      ShowMessage(true, after, end, Some(db), acc);
    == { ShowEncoded(true, message, rest, end, Some(db), acc); }
      Outcome(Some(db), acc + [Message(CText(message))], false, rest);
    }
  }

  lemma RespondToNewDatabaseTag(body: seq<byte>, end: ReadEnd, name: Option<seq<byte>>, acc: seq<Printed>)
    ensures Respond([NewDatabase as byte] + body, end, name, acc) == SwitchDatabase(body, end, acc)
  {
    ReadByteCons(NewDatabase as byte, body);
  }

  lemma SwitchToEncoded(db: seq<byte>, after: seq<byte>, end: ReadEnd, acc: seq<Printed>)
    requires |db| < 0x8000_0000
    ensures SwitchDatabase(EncodeString(db) + after, end, acc) == ShowMessage(true, after, end, Some(db), acc)
  {
    ReadEncodedString(db, after);
  }

  lemma ShowEncoded(success: bool, message: seq<byte>, rest: seq<byte>, end: ReadEnd,
                    name: Option<seq<byte>>, acc: seq<Printed>)
    requires |message| < 0x8000_0000
    ensures ShowMessage(success, EncodeString(message) + rest, end, name, acc) ==
      Outcome(name, acc + [if success then Message(CText(message)) else ErrorMessage(CText(message))], false, rest)
  {
    ReadEncodedString(message, rest);
  }

  lemma RespondToMessage(success: bool, message: seq<byte>, rest: seq<byte>, end: ReadEnd,
                         name: Option<seq<byte>>, acc: seq<Printed>)
    requires |message| < 0x8000_0000
    ensures var r := if success then SuccessReply(message) else ErrorReply(message);
      Respond(EncodeReply(r) + rest, end, name, acc) == Outcome(name, acc + Shown(r), false, rest)
  {
    var r := if success then SuccessReply(message) else ErrorReply(message);
    var tag: byte := if success then Success as byte else Error as byte;
    var body := EncodeString(message) + rest;
    assert ReadByteSpec(EncodeReply(r) + rest) == Got(tag as int, body) by {
      assert EncodeReply(r) + rest == [tag] + body;
      ReadByteCons(tag, body);
    }
    ReadEncodedString(message, rest);
  }

  function EncodeStrings(ss: seq<seq<byte>>): seq<byte>
    requires ShortStrings(ss)
  {
    if ss == [] then [] else EncodeString(ss[0]) + EncodeStrings(ss[1..])
  }

  /**
   * The server's reply to a completion request: `Success`, the count, then
   * the candidates.  The client takes the count and leaves the candidates
   * for `completionGenerator` to read one per call.
   */
  lemma CompletionReplyToEncoded(candidates: seq<seq<byte>>, rest: seq<byte>, end: ReadEnd)
    requires ShortStrings(candidates) && |candidates| < 0x8000_0000
    ensures CompletionReply([Success as byte] + IntToBytes(|candidates|) + EncodeStrings(candidates) + rest, end) ==
      Outcome(|candidates|, [], false, EncodeStrings(candidates) + rest)
  {
    var after := EncodeStrings(candidates) + rest;
    var count := IntToBytes(|candidates|) + after;
    assert ReadByteSpec([Success as byte] + IntToBytes(|candidates|) + EncodeStrings(candidates) + rest) == Got(Success, count) by {
      Regroup([Success as byte], IntToBytes(|candidates|), EncodeStrings(candidates), rest);
      ReadByteCons(Success as byte, count);
    }
    assert ReadIntegerSpec(count) == Got(|candidates|, after) by {
      assert count[..4] == IntToBytes(|candidates|) && count[4..] == after;
      BytesToIntToBytes(|candidates|);
    }
  }

  /** Each further call of the generator takes the next candidate. */
  lemma NextCandidate(candidates: seq<seq<byte>>, rest: seq<byte>)
    requires ShortStrings(candidates) && candidates != []
    ensures ReadStringSpec(EncodeStrings(candidates) + rest) ==
      Got(Some(candidates[0]), EncodeStrings(candidates[1..]) + rest)
  {
    assert EncodeStrings(candidates) + rest == EncodeString(candidates[0]) + (EncodeStrings(candidates[1..]) + rest);
    ReadEncodedString(candidates[0], EncodeStrings(candidates[1..]) + rest);
  }

  // ---------------------------------------------------------------------
  // `readInteger` as written widens each signed `char` before shifting.

  /** A signed `char` widened to a 32-bit `int`: octets from 0x80 up are sign-extended. */
  function Widen(b: byte): bv32
  {
    if b < 0x80 then b as bv32 else (b as bv32) | 0xFFFF_FF00
  }

  /** A word with its top bit set reads as a negative `int`. */
  lemma SignBit(w: bv32)
    ensures w >= 0x8000_0000 ==> Signed32(w as int) < 0
  {
    if w >= 0x8000_0000 {
      TopBit(w);
      NegativeWord(w as int);
    }
  }

  lemma TopBit(w: bv32)
    requires w >= 0x8000_0000
    ensures 0x8000_0000 <= w as int < Two32
  {
  }

  lemma NegativeWord(u: int)
    requires 0x8000_0000 <= u < Two32
    ensures Signed32(u) < 0
  {
  }

  /** src/client.cpp:228-231 as written. */
  function ReadIntegerAsWritten(b: seq<byte>): (r: int32)
    requires |b| >= 4
    ensures b[0] >= 0x80 || b[1] >= 0x80 || b[2] >= 0x80 || b[3] >= 0x80 ==> r < 0
  {
    var w := (Widen(b[0]) << 24) | (Widen(b[1]) << 16) | (Widen(b[2]) << 8) | Widen(b[3]);
    assert b[0] >= 0x80 || b[1] >= 0x80 || b[2] >= 0x80 || b[3] >= 0x80 ==> w >= 0x8000_0000;
    SignBit(w);
    Signed32(w as int)
  }

  /**
   * The length 128 goes out as 00 00 00 80 and comes back as -128, so any
   * string of 128 to 255 bytes reads as null; the unsigned decoding the
   * model uses gives 128 back.
   */
  lemma WideningBreaksLengths()
    ensures IntToBytes(128) == [0, 0, 0, 0x80]
    ensures ReadIntegerAsWritten(IntToBytes(128)) == -128
    ensures BytesToInt(IntToBytes(128)) == 128
  {
    BytesToIntToBytes(128);
  }

  // ---------------------------------------------------------------------
  // The connection and the client's state.

  class Socket {
    /** Every byte the server has received from this client. */
    var sent: seq<byte>
    /** How many more bytes the connection accepts before a write comes up short. */
    var writable: nat
    /** Bytes the server has sent that the client has not read yet. */
    var inbound: seq<byte>
    var readEnd: ReadEnd

    constructor (writable: nat, inbound: seq<byte>, readEnd: ReadEnd)
      ensures this.sent == [] && this.writable == writable
      ensures this.inbound == inbound && this.readEnd == readEnd
    {
      this.sent := [];
      this.writable := writable;
      this.inbound := inbound;
      this.readEnd := readEnd;
    }

    /** `write(2)`: the connection takes as much of `data` as it still accepts. */
    method Write(data: seq<byte>) returns (r: int)
      modifies this
      ensures 0 <= r <= |data|
      ensures r == |data| <==> |data| <= old(writable)
      ensures sent == old(sent) + data[..r] && writable == old(writable) - r
      ensures inbound == old(inbound) && readEnd == old(readEnd)
    {
      r := if |data| <= writable then |data| else writable;
      sent := sent + data[..r];
      writable := writable - r;
    }

    /**
     * `read(2)` into `into`: some of what the server sent, never more than
     * fits; 0 or -1 once nothing is left.
     */
    method Read(into: array<byte>) returns (r: int)
      requires into.Length > 0
      modifies this, into
      ensures old(inbound) == [] ==> r == (if readEnd == Closed then 0 else -1) && inbound == []
      ensures old(inbound) != [] ==> 0 < r <= into.Length && r <= |old(inbound)|
      ensures old(inbound) != [] ==> into[..r] == old(inbound)[..r] && inbound == old(inbound)[r..]
      ensures sent == old(sent) && writable == old(writable) && readEnd == old(readEnd)
    {
      if inbound == [] {
        r := if readEnd == Closed then 0 else -1;
      } else {
        r := if |inbound| < into.Length then |inbound| else into.Length;
        forall i | 0 <= i < r {
          into[i] := inbound[i];
        }
        inbound := inbound[r..];
      }
    }
  }

  /** The client state that the buffer operations leave alone. */
  datatype SessionState = SessionState(databaseName: Option<seq<byte>>, completionCount: int, exit: bool)

  class Context {
    // `Buffer` (src/client.cpp:31-48), embedded in the context
    const buffer: array<byte>
    var position: int
    var limit: int

    var databaseName: Option<seq<byte>>
    const socket: Socket
    var completionCount: int
    var trouble: bool
    var exit: bool

    /** What the client printed so far. */
    var printed: seq<Printed>

    ghost predicate Valid()
      reads this
    {
      buffer.Length == Capacity && 0 <= position <= limit <= buffer.Length
    }

    /** Bytes the server will have received once the buffer is flushed. */
    ghost function Outgoing(): seq<byte>
      reads this, buffer, socket
      requires Valid()
    {
      socket.sent + buffer[..position]
    }

    /** Bytes the client can still read: the unread part of the buffer, then the socket. */
    ghost function Incoming(): seq<byte>
      reads this, buffer, socket
      requires Valid()
    {
      buffer[position..limit] + socket.inbound
    }

    /** Bytes the server can receive in all; no operation changes this. */
    ghost function Budget(): nat
      reads this, socket
    {
      |socket.sent| + socket.writable
    }

    ghost function Session(): SessionState
      reads this
    {
      SessionState(databaseName, completionCount, exit)
    }

    /** What writing a request leaves alone: the session, the reply side and the budget. */
    ghost function WriteKept(): (SessionState, seq<byte>, ReadEnd, nat)
      reads this, socket
    {
      (Session(), socket.inbound, socket.readEnd, Budget())
    }

    /** What reading a reply leaves alone: the session and the request side. */
    ghost function ReadKept(): (SessionState, seq<byte>, nat, ReadEnd)
      reads this, socket
    {
      (Session(), socket.sent, socket.writable, socket.readEnd)
    }

    /** The state after a read ran dry: latched trouble, an empty buffer, a notice. */
    ghost predicate Drained(printedBefore: seq<Printed>)
      reads this, socket
    {
      trouble && position == 0 && limit == 0 && socket.inbound == [] &&
      printed == printedBefore + [LostNotice(socket.readEnd)]
    }

    constructor (socket: Socket)
      ensures Valid() && fresh(buffer)
      ensures position == 0 && limit == 0 && this.socket == socket
      ensures databaseName == None && completionCount == -1 && !trouble && !exit && printed == []
    {
      buffer := new byte[Capacity];
      position, limit := 0, 0;
      databaseName := None;
      this.socket := socket;
      completionCount := -1;
      trouble, exit := false, false;
      printed := [];
    }

    /** `memcpy` of `piece` to the buffer's `position`, then `position += c`. */
    method Append(piece: seq<byte>)
      requires Valid() && position + |piece| <= limit
      modifies buffer, this`position
      ensures Valid() && position == old(position) + |piece|
      ensures Outgoing() == old(Outgoing()) + piece
    {
      forall i | 0 <= i < |piece| {
        buffer[position + i] := piece[i];
      }
      assert buffer[..position + |piece|] == old(buffer[..position]) + piece;
      position := position + |piece|;
    }

    /** `flush`: hand the `position` buffered bytes to the socket. */
    method Flush() returns (ok: bool)
      requires Valid()
      modifies this`position, this`trouble, this`printed, socket
      ensures Valid() && limit == old(limit) && WriteKept() == old(WriteKept())
      ensures ok <==> old(position) <= old(socket.writable)
      ensures ok ==> position == 0 && socket.sent == old(Outgoing())
      ensures ok ==> trouble == old(trouble) && printed == old(printed)
      ensures !ok ==> position == old(position) && socket.sent <= old(Outgoing())
      ensures !ok ==> trouble && printed == old(printed) + [WriteFailed]
    {
      var r := socket.Write(buffer[..position]);
      if r != position {
        printed := printed + [WriteFailed];
        trouble := true;
        return false;
      }
      position := 0;
      return true;
    }

    /**
     * `writeBytes`: append `src` to the buffer, flushing each time the buffer
     * is full.  It fails only once a flush does, which cannot happen while
     * the connection accepts every byte written so far.
     */
    method WriteBytes(src: seq<byte>) returns (r: int)
      requires Valid() && limit == buffer.Length
      modifies this`position, this`trouble, this`printed, buffer, socket
      ensures Valid() && limit == buffer.Length && WriteKept() == old(WriteKept())
      ensures |old(Outgoing())| + |src| <= old(Budget()) ==> r == |src|
      ensures r == |src| ==> Outgoing() == old(Outgoing()) + src
      ensures r == |src| ==> trouble == old(trouble) && printed == old(printed)
      ensures r != |src| ==> r == -1 && trouble && printed == old(printed) + [WriteFailed]
      ensures r != |src| ==> socket.sent <= old(Outgoing()) + src
    {
      var total := 0;
      while total < |src|
        invariant 0 <= total <= |src|
        invariant Valid() && limit == buffer.Length && WriteKept() == old(WriteKept())
        invariant Outgoing() == old(Outgoing()) + src[..total]
        invariant trouble == old(trouble) && printed == old(printed)
        decreases |src| - total
      {
        if limit == position {
          ghost var before := Outgoing();
          var ok := Flush();
          if !ok {
            assert socket.sent <= before;
            assert before <= old(Outgoing()) + src by {
              assert src[..total] <= src;
            }
            return -1;
          }
        }
        var c := if |src| - total < limit - position then |src| - total else limit - position;
        var piece := src[total..total + c];
        Append(piece);
        PrefixSplit(src, total, total + c);
        total := total + c;
      }
      assert src[..total] == src;
      return total;
    }

    /** `writeByte` */
    method WriteByte(v: byte) returns (ok: bool)
      requires Valid() && limit == buffer.Length
      modifies this`position, this`trouble, this`printed, buffer, socket
      ensures Valid() && limit == buffer.Length && WriteKept() == old(WriteKept())
      ensures |old(Outgoing())| + 1 <= old(Budget()) ==> ok
      ensures ok ==> Outgoing() == old(Outgoing()) + [v]
      ensures ok ==> trouble == old(trouble) && printed == old(printed)
      ensures !ok ==> trouble && printed == old(printed) + [WriteFailed]
      ensures !ok ==> socket.sent <= old(Outgoing()) + [v]
    {
      var r := WriteBytes([v]);
      ok := r == 1;
    }

    /** `writeInteger`: the four octets of `v`, most significant first. */
    method WriteInteger(v: int32) returns (ok: bool)
      requires Valid() && limit == buffer.Length
      modifies this`position, this`trouble, this`printed, buffer, socket
      ensures Valid() && limit == buffer.Length && WriteKept() == old(WriteKept())
      ensures |old(Outgoing())| + 4 <= old(Budget()) ==> ok
      ensures ok ==> Outgoing() == old(Outgoing()) + IntToBytes(v)
      ensures ok ==> trouble == old(trouble) && printed == old(printed)
      ensures !ok ==> trouble && printed == old(printed) + [WriteFailed]
      ensures !ok ==> socket.sent <= old(Outgoing()) + IntToBytes(v)
    {
      var r := WriteBytes(IntToBytes(v));
      ok := r == 4;
    }

    /** `writeString`: the length, then the bytes. */
    method WriteString(s: seq<byte>) returns (ok: bool)
      requires Valid() && limit == buffer.Length && |s| < 0x8000_0000
      modifies this`position, this`trouble, this`printed, buffer, socket
      ensures Valid() && limit == buffer.Length && WriteKept() == old(WriteKept())
      ensures |old(Outgoing())| + 4 + |s| <= old(Budget()) ==> ok
      ensures ok ==> Outgoing() == old(Outgoing()) + IntToBytes(|s|) + s
      ensures ok ==> trouble == old(trouble) && printed == old(printed)
      ensures !ok ==> trouble && printed == old(printed) + [WriteFailed]
      ensures !ok ==> socket.sent <= old(Outgoing()) + IntToBytes(|s|) + s
    {
      ok := WriteInteger(|s|);
      if ok {
        var r := WriteBytes(s);
        ok := r == |s|;
      } else {
        assert old(Outgoing()) + IntToBytes(|s|) <= old(Outgoing()) + IntToBytes(|s|) + s;
      }
    }

    /**
     * The opening of `execute` and of `startCompletion`: reset the buffer
     * for writing, send the tag and the text, flush, and switch the buffer
     * to reading.  Succeeds exactly when the connection accepts the request.
     */
    method SendRequest(tag: byte, text: seq<byte>) returns (ok: bool)
      requires Valid() && |text| < 0x8000_0000
      modifies this`position, this`limit, this`trouble, this`printed, buffer, socket
      ensures Valid() && Session() == old(Session())
      ensures socket.inbound == old(socket.inbound) && socket.readEnd == old(socket.readEnd)
      ensures ok <==> |Frame(tag, text)| <= old(socket.writable)
      ensures ok ==> socket.sent == old(socket.sent) + Frame(tag, text)
      ensures ok ==> Incoming() == old(socket.inbound)
      ensures ok ==> trouble == old(trouble) && printed == old(printed)
      ensures !ok ==> trouble && printed == old(printed) + [WriteFailed]
      ensures !ok ==> socket.sent <= old(socket.sent) + Frame(tag, text)
    {
      position := 0;
      limit := buffer.Length;
      assert Outgoing() == old(socket.sent);
      ok := WriteByte(tag);
      if !ok {
        assert old(socket.sent) + [tag] <= old(socket.sent) + Frame(tag, text);
        return;
      }
      ok := WriteString(text);
      if !ok {
        assert old(socket.sent) + [tag] + IntToBytes(|text|) + text == old(socket.sent) + Frame(tag, text);
        return;
      }
      assert Outgoing() == old(socket.sent) + Frame(tag, text);
      ok := Flush();
      if !ok {
        return;
      }
      limit := 0;
    }

    /** `memcpy` of `c` bytes from the buffer's `position`, then `position += c`. */
    method Take(c: nat) returns (piece: seq<byte>)
      requires Valid() && position + c <= limit
      modifies this`position
      ensures Valid() && position == old(position) + c
      ensures piece == old(Incoming())[..c] && Incoming() == old(Incoming())[c..]
    {
      piece := buffer[position..position + c];
      SliceSplit(buffer[..], position, c, limit, socket.inbound);
      position := position + c;
    }

    /**
     * The refill step of `readBytes`, taken when the buffer is used up:
     * read into the whole buffer, or latch `trouble` if nothing comes.
     */
    method Refill() returns (n: int)
      requires Valid() && position == limit
      modifies this`position, this`limit, this`trouble, this`printed, buffer, socket
      ensures Valid() && ReadKept() == old(ReadKept())
      ensures n > 0 <==> old(socket.inbound) != []
      ensures n > 0 ==> Incoming() == old(Incoming()) && position < limit
      ensures n > 0 ==> trouble == old(trouble) && printed == old(printed)
      ensures n <= 0 ==> Drained(old(printed))
    {
      position := 0;
      n := socket.Read(buffer);
      if n <= 0 {
        printed := printed + [if n == 0 then EndOfStream else ReadFailed];
        trouble := true;
        limit := 0;
        return;
      }
      limit := n;
      assert buffer[position..limit] + socket.inbound == old(socket.inbound);
    }

    /**
     * `readBytes`: take `count` bytes from the buffer, refilling it from the
     * socket whenever it is used up.  A read that yields nothing latches
     * `trouble`, empties the buffer and gives -1.
     */
    method ReadBytes(count: nat) returns (r: int, dst: seq<byte>)
      requires Valid()
      modifies this`position, this`limit, this`trouble, this`printed, buffer, socket
      ensures Valid() && ReadKept() == old(ReadKept())
      ensures count <= |old(Incoming())| ==> r == count && dst == old(Incoming())[..count]
      ensures count <= |old(Incoming())| ==> Incoming() == old(Incoming())[count..]
      ensures count <= |old(Incoming())| ==> trouble == old(trouble) && printed == old(printed)
      ensures count > |old(Incoming())| ==> r == -1 && Drained(old(printed))
    {
      ghost var input := Incoming();
      var total := 0;
      dst := [];
      while total < count
        invariant 0 <= total <= count && total <= |input|
        invariant Valid() && ReadKept() == old(ReadKept())
        invariant dst == input[..total] && Incoming() == input[total..]
        invariant trouble == old(trouble) && printed == old(printed)
        decreases count - total
      {
        var ok, piece := ReadChunk(input, total, count);
        if !ok {
          return -1, dst;
        }
        PrefixSplit(input, total, total + |piece|);
        dst := dst + piece;
        total := total + |piece|;
      }
      return total, dst;
    }

    /**
     * One round of the loop of `readBytes`, `total` of `count` bytes in:
     * refill the buffer if it is used up, then take what it holds, up to
     * what is still wanted.  A refill that yields nothing means the input
     * has run out.
     */
    method ReadChunk(ghost input: seq<byte>, total: nat, count: nat) returns (ok: bool, piece: seq<byte>)
      requires Valid() && total < count && total <= |input| && Incoming() == input[total..]
      modifies this`position, this`limit, this`trouble, this`printed, buffer, socket
      ensures Valid() && ReadKept() == old(ReadKept())
      ensures ok ==> && 0 < |piece| <= count - total && total + |piece| <= |input|
                     && piece == input[total..total + |piece|] && Incoming() == input[total + |piece|..]
                     && trouble == old(trouble) && printed == old(printed)
      ensures !ok ==> |input| == total && Drained(old(printed))
    {
      if limit == position {
        var n := Refill();
        if n <= 0 {
          return false, [];
        }
      }
      var c := if count - total < limit - position then count - total else limit - position;
      piece := Take(c);
      SuffixSplit(input, total, total + c);
      ok := true;
    }

    /** `readByte`: the next octet as a signed `char`, or -1. */
    method ReadByte() returns (v: int)
      requires Valid()
      modifies this`position, this`limit, this`trouble, this`printed, buffer, socket
      ensures Valid() && ReadKept() == old(ReadKept())
      ensures match ReadByteSpec(old(Incoming()))
        case Got(b, rest) =>
          v == b && Incoming() == rest && trouble == old(trouble) && printed == old(printed)
        case Lost => v == -1 && Drained(old(printed))
    {
      var r, dst := ReadBytes(1);
      v := if r < 1 then -1 else SignedChar(dst[0]);
    }

    /** `readInteger`: four octets, most significant first, or -1 on a short read. */
    method ReadInteger() returns (v: int32)
      requires Valid()
      modifies this`position, this`limit, this`trouble, this`printed, buffer, socket
      ensures Valid() && ReadKept() == old(ReadKept())
      ensures match ReadIntegerSpec(old(Incoming()))
        case Got(n, rest) =>
          v == n && Incoming() == rest && trouble == old(trouble) && printed == old(printed)
        case Lost => v == -1 && Drained(old(printed))
    {
      var r, dst := ReadBytes(4);
      v := if r < 4 then -1 else BytesToInt(dst);
    }

    /** `readString`: a length and that many bytes; null for a negative length or a short read. */
    method ReadString() returns (s: Option<seq<byte>>)
      requires Valid()
      modifies this`position, this`limit, this`trouble, this`printed, buffer, socket
      ensures Valid() && ReadKept() == old(ReadKept())
      ensures match ReadStringSpec(old(Incoming()))
        case Got(value, rest) =>
          s == value && Incoming() == rest && trouble == old(trouble) && printed == old(printed)
        case Lost => s == None && Drained(old(printed))
    {
      var length := ReadInteger();
      if length < 0 {
        return None;
      }
      var count, bytes := ReadBytes(length);
      if count != length {
        return None;
      }
      return Some(bytes);
    }

    /** `startCompletion`: ask the server how many completions `text` has. */
    method StartCompletion(text: seq<byte>) returns (n: int)
      requires Valid() && |text| < 0x8000_0000
      modifies this`position, this`limit, this`trouble, this`printed, buffer, socket
      ensures Valid() && Session() == old(Session())
      ensures socket.readEnd == old(socket.readEnd)
      ensures |Frame(CompleteTag, text)| > old(socket.writable) ==>
        n == -1 && trouble && printed == old(printed) + [WriteFailed] &&
        socket.sent <= old(socket.sent) + Frame(CompleteTag, text)
      ensures |Frame(CompleteTag, text)| <= old(socket.writable) ==>
        var o := CompletionReply(old(socket.inbound), socket.readEnd);
        socket.sent == old(socket.sent) + Frame(CompleteTag, text) &&
        n == o.value && printed == old(printed) + o.printed &&
        trouble == (old(trouble) || o.trouble) && Incoming() == o.rest
    {
      var ok := SendRequest(CompleteTag, text);
      if !ok {
        return -1;
      }
      ghost var input := Incoming();
      var result := ReadByte();
      if result == -1 {
        return -1;
      } else if result == Success {
        n := ReadInteger();
        return n;
      } else if result == Error {
        var message := ReadString();
        return -1;
      } else {
        printed := printed + [UnexpectedResult(result)];
        trouble := true;
        return -1;
      }
    }

    /**
     * `completionGenerator`: readline calls it with state 0 for the first
     * candidate and a positive state for each further one.
     */
    method CompletionGenerator(line: seq<byte>, state: int) returns (s: Option<seq<byte>>)
      requires Valid() && |line| < 0x8000_0000
      modifies this`completionCount, this`position, this`limit, this`trouble, this`printed, buffer, socket
      ensures Valid() && databaseName == old(databaseName) && exit == old(exit)
      ensures old(trouble) ==> s == None && unchanged(this, buffer, socket)
      ensures !old(trouble) && state != 0 && old(completionCount) <= 0 ==>
        s == None && unchanged(this, buffer, socket)
      ensures !old(trouble) && state != 0 && old(completionCount) > 0 ==>
        completionCount == old(completionCount) - 1 &&
        match ReadStringSpec(old(Incoming()))
        case Got(value, rest) =>
          s == value && Incoming() == rest && !trouble && printed == old(printed)
        case Lost => s == None && Drained(old(printed))
      ensures !old(trouble) && state == 0 && |Frame(CompleteTag, line)| <= old(socket.writable) ==>
        var o := CompletionReply(old(socket.inbound), socket.readEnd);
        socket.sent == old(socket.sent) + Frame(CompleteTag, line) &&
        (o.value <= 0 ==>
          s == None && completionCount == o.value && printed == old(printed) + o.printed &&
          trouble == o.trouble && Incoming() == o.rest) &&
        (o.value > 0 ==>
          completionCount == o.value - 1 &&
          match ReadStringSpec(o.rest)
          case Got(value, rest) => s == value && Incoming() == rest && !trouble && printed == old(printed)
          case Lost => s == None && Drained(old(printed)))
      ensures !old(trouble) && state == 0 && |Frame(CompleteTag, line)| > old(socket.writable) ==>
        s == None && completionCount == -1 && trouble && printed == old(printed) + [WriteFailed]
    {
      if trouble {
        return None;
      }
      if state == 0 {
        ghost var o := CompletionReply(socket.inbound, socket.readEnd);
        completionCount := StartCompletion(line);
        if completionCount <= 0 {
          return None;
        }
        assert !trouble && Incoming() == o.rest && printed == old(printed);
        completionCount := completionCount - 1;
        s := ReadString();
        return;
      }
      if completionCount <= 0 {
        return None;
      }
      completionCount := completionCount - 1;
      s := ReadString();
    }

    /** The row-set case of `execute`: print flags and items until `End`. */
    method PrintRows()
      requires Valid() && !trouble
      modifies this`position, this`limit, this`trouble, this`printed, buffer, socket
      ensures Valid() && ReadKept() == old(ReadKept())
      ensures var o := Rows(old(Incoming()), socket.readEnd, old(printed));
        printed == o.printed && trouble == o.trouble && Incoming() == o.rest
    {
      ghost var target := Rows(Incoming(), socket.readEnd, printed);
      var done := false;
      while !done
        invariant Valid() && !trouble
        invariant socket.sent == old(socket.sent) && socket.writable == old(socket.writable)
        invariant socket.readEnd == old(socket.readEnd)
        invariant !done ==> Rows(Incoming(), socket.readEnd, printed) == target
        invariant done ==> target == Outcome((), printed, false, Incoming())
        decreases |Incoming()|
      {
        var flag := ReadByte();
        if flag == -1 {
          return;
        } else if flag == InsertedRow {
          printed := printed + [InsertedLabel];
        } else if flag == DeletedRow {
          printed := printed + [DeletedLabel];
        } else if flag == Item {
          var item := ReadString();
          if item == None {
            return;
          }
          printed := printed + [ItemText(CText(item.value))];
        } else if flag == End {
          done := true;
          printed := printed + [RowsDone];
        } else {
          printed := printed + [UnexpectedFlag(flag)];
          trouble := true;
          return;
        }
      }
    }

    /**
     * `execute`: "exit" and "quit" only raise `exit`; after trouble nothing
     * happens; otherwise the command is sent and its reply printed.
     */
    method Execute(command: seq<byte>)
      requires Valid() && |command| < 0x8000_0000
      modifies this`databaseName, this`exit, this`position, this`limit, this`trouble, this`printed, buffer, socket
      ensures Valid() && socket.readEnd == old(socket.readEnd)
      ensures command == ExitCommand || command == QuitCommand ==>
        exit && databaseName == old(databaseName) && trouble == old(trouble) && printed == old(printed) &&
        position == old(position) && limit == old(limit) && unchanged(buffer, socket)
      ensures command != ExitCommand && command != QuitCommand ==> exit == old(exit)
      ensures command != ExitCommand && command != QuitCommand && old(trouble) ==>
        unchanged(this, buffer, socket)
      ensures (command != ExitCommand && command != QuitCommand && !old(trouble) &&
        |Frame(ExecuteTag, command)| > old(socket.writable)) ==>
        trouble && printed == old(printed) + [WriteFailed] && databaseName == old(databaseName) &&
        socket.sent <= old(socket.sent) + Frame(ExecuteTag, command)
      ensures (command != ExitCommand && command != QuitCommand && !old(trouble) &&
        |Frame(ExecuteTag, command)| <= old(socket.writable)) ==>
        var o := Respond(old(socket.inbound), socket.readEnd, old(databaseName), old(printed));
        socket.sent == old(socket.sent) + Frame(ExecuteTag, command) &&
        databaseName == o.value && printed == o.printed &&
        trouble == o.trouble && Incoming() == o.rest
    {
      if command == ExitCommand || command == QuitCommand {
        exit := true;
        return;
      }
      if trouble {
        return;
      }
      var ok := SendRequest(ExecuteTag, command);
      if !ok {
        return;
      }
      ReadReply();
    }

    /** The reply half of `execute`: dispatch on the tag and print what came. */
    method ReadReply()
      requires Valid() && !trouble
      modifies this`databaseName, this`position, this`limit, this`trouble, this`printed, buffer, socket
      ensures Valid() && socket.sent == old(socket.sent) && socket.writable == old(socket.writable)
      ensures socket.readEnd == old(socket.readEnd)
      ensures var o := Respond(old(Incoming()), socket.readEnd, old(databaseName), old(printed));
        databaseName == o.value && printed == o.printed && trouble == o.trouble && Incoming() == o.rest
    {
      var result := ReadByte();
      if result == -1 {
      } else if result == NewDatabase {
        ReadNewDatabase();
      } else if result == Success {
        PrintMessage(true);
      } else if result == RowSet {
        PrintRows();
      } else if result == Error {
        PrintMessage(false);
      } else {
        printed := printed + [UnexpectedResult(result)];
        trouble := true;
      }
    }

    /** The `NewDatabase` case of `execute`: replace the name, print the message. */
    method ReadNewDatabase()
      requires Valid() && !trouble
      modifies this`databaseName, this`position, this`limit, this`trouble, this`printed, buffer, socket
      ensures Valid() && ReadKept() == old(ReadKept()).(0 := Session())
      ensures var o := SwitchDatabase(old(Incoming()), socket.readEnd, old(printed));
        databaseName == o.value && printed == o.printed && trouble == o.trouble && Incoming() == o.rest
    {
      databaseName := ReadString();
      if databaseName == None {
        return;
      }
      PrintMessage(true);
    }

    /** The `Success` and `Error` cases of `execute`: print the message. */
    method PrintMessage(success: bool)
      requires Valid() && !trouble
      modifies this`position, this`limit, this`trouble, this`printed, buffer, socket
      ensures Valid() && ReadKept() == old(ReadKept())
      ensures var o := ShowMessage(success, old(Incoming()), socket.readEnd, databaseName, old(printed));
        printed == o.printed && trouble == o.trouble && Incoming() == o.rest
    {
      var message := ReadString();
      if message == None {
        return;
      }
      printed := printed + [if success then Message(CText(message.value)) else ErrorMessage(CText(message.value))];
    }
  }
}
