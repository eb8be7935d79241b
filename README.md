# Revori core, modelled in Dafny

Revori is a revision-oriented in-memory database. Each revision is an immutable tree of tables, indexes and rows. A revision is changed by building a new one that shares every untouched node with the old. Forks of a revision are combined by a three-way merge. The changes between two revisions are found by walking both trees together. A SQL server speaks a small binary protocol to an interactive C client.

This project models that core and proves what it promises:

- **The client** (`src/client.cpp`): one fixed 8 KiB buffer used for writing a request and then reading the reply, a sticky `trouble` latch, the wire codec, and the dispatch on the reply's tag (row sets, a new database, success, error). The completion round trip is modelled too. Output is recorded as a sequence of printed events.
- **The server's codecs**:
  - `StreamUtil`: big-endian `int`/`long` and length-prefixed strings.
  - `Protocol`: seven-bit variable-length integers, booleans and byte arrays.
  - `SQLServer`'s reply tags, its string and number scanners, the transaction stack of a session and the `COPY ... FROM STDIN` loader.
- **The storage engine**:
  - The red-black trees of `Node` (lookup, `blaze`, `delete`, `validate`), each operation proved to keep the tree red-black and to change its elements exactly as intended.
  - The traversal stack `NodeStack`, proved to step along the in-order sequence.
  - The two-tree walk `DiffIterator`, proved to report every key where the trees may differ, in order, and to skip only subtrees the trees share.
  - The per-key rule of `Merge`.
  - The orderings of `Compare`; intervals with their union, intersection and comparison.
  - The union, intersection and negation scans, and the comparison and boolean adapters that turn a query's test into scans.
- **Utilities**: `SetMultimap` with its running pair count, the `DiffServer` revision reference counts, the `Count`/`Sum` foldables, `ParameterCounter`, `InsertTemplate` and `Index`.

Java and C integers are two's-complement words. Here they are unbounded integers, and every wrap-around is written out. Keys are integers in their natural order. Copy-on-write trees are values: a tree reachable from an old root never changes.

The two ends of the connection number their replies differently:

- `src/client.cpp` knows four reply tags: `RowSet`, `NewDatabase`, `Success` and `Error`, numbered 0 to 3. It has no `CopySuccess` tag, no copy mode and no "no rows" notice.
- `SQLServer` numbers `CopySuccess` 2, `Success` 3 and `Error` 4. The consequence is listed under Findings.

## Model

| member | source | states |
|---|---|---|
| `Wire.IntToBytes` | src/com/readytalk/revori/server/StreamUtil.java:30-35 | four octets, most significant first, whose base-256 value is the word's unsigned bit pattern |
| `Wire.IntToBytesShifts` | src/com/readytalk/revori/server/StreamUtil.java:31-34 | the octets are the word shifted right by 24, 16, 8 and 0 and masked to eight bits |
| `Wire.BytesToInt` | src/com/readytalk/revori/server/StreamUtil.java:37-44 | the word whose unsigned bit pattern is the four octets read most significant first, narrowed to a signed `int` |
| `Wire.BytesToIntToBytes` | src/com/readytalk/revori/server/StreamUtil.java:30-44 | reading back a written `int` gives the same `int` for every 32-bit value, negative ones included |
| `Wire.IntToBytesToInt` | src/com/readytalk/revori/server/StreamUtil.java:30-44 | every four octets are the encoding of exactly one `int` |
| `Wire.LongToBytes` | src/com/readytalk/revori/server/StreamUtil.java:46-49 | a `long` travels as eight octets: the high word, then the low word |
| `Wire.BytesToLong` | src/com/readytalk/revori/server/StreamUtil.java:51-63 | the `long` whose unsigned bit pattern is the eight octets read most significant first |
| `Wire.BytesToLongToBytes` | src/com/readytalk/revori/server/StreamUtil.java:46-63 | reading back a written `long` gives the same `long` for every 64-bit value |
| `Client.ReadByteSpec` | src/client.cpp:216-221 | `readByte` on an input stream: the first octet as a signed `char` and the rest, or nothing when the stream is empty |
| `Client.ReadIntegerSpec` | src/client.cpp:224-232 | `readInteger`: four octets most significant first are consumed exactly when four are there; lost otherwise (corrected decoding, see Findings) |
| `Client.ReadStringSpec` | src/client.cpp:235-258 | `readString` with the length read unsigned (the corrected `readInteger`, see Findings): a length, then that many bytes; a string it returns is exactly the framed bytes; a negative length gives null |
| `Client.TrimSplits` | src/client.cpp:330-348 | trimming takes exactly the white space off both ends: what is left starts and ends with non-space |
| `Client.RemoveEdgeWhitespace` | src/client.cpp:330-348 | on a NUL-terminated line the returned start and the NUL written after the last non-space byte make `%s` print the trimmed line; no other byte changes |
| `Client.ReadEncodedString` | src/client.cpp:235-258 | `readString` recovers what `writeString` framed and stops right after it |
| `Client.RowsOfEncodedItems` | src/client.cpp:433-442 | a run of framed items is printed item by item, each as `%s` shows it |
| `Client.RowsOfEncodedRows` | src/client.cpp:417-455 | a row set framed by the server prints every row's flag and items, in order, up to `End` |
| `Client.RespondToEncoded` | src/client.cpp:381-472 | with lengths read unsigned (the corrected `readInteger`), every reply the server frames is read completely: the client prints what it carries, takes the new database name, raises no trouble and leaves the bytes after it |
| `Client.RespondToRowSet` | src/client.cpp:417-455 | a framed row-set reply prints its rows and a final newline |
| `Client.RespondToNewDatabase` | src/client.cpp:386-404 | a framed `NewDatabase` reply replaces the database name and prints the message to stdout |
| `Client.RespondToMessage` | src/client.cpp:406-466 | a framed `Success` prints its message to stdout, a framed `Error` prints `error:` and the message to stderr |
| `Client.CompletionReplyToEncoded` | src/client.cpp:281-305 | the reply to a completion request yields the candidate count and leaves the candidates unread |
| `Client.NextCandidate` | src/client.cpp:308-327 | each later call of the generator reads the next candidate string |
| `Client.WideningBreaksLengths` | src/client.cpp:224-232 | the length 128 is written as 00 00 00 80 and read back by the code as written as -128, where the unsigned decoding gives 128 |
| `Client.ReadIntegerAsWritten` | src/client.cpp:228-231 | as written, any octet of 0x80 or more makes the length negative, since each signed `char` is sign-extended before the shifts |
| `Client.Context.constructor` | src/client.cpp:50-73 | a new context: empty buffer of 8 KiB, no database name, completion count -1, no trouble, no exit |
| `Client.Context.Append` | src/client.cpp:137-154 | copies a piece into the buffer at `position` and advances `position` by its length |
| `Client.Context.Flush` | src/client.cpp:123-134 | hands the buffered bytes to the socket; fails, latches trouble and prints the error exactly when the socket takes fewer |
| `Client.Context.WriteBytes` | src/client.cpp:137-154 | the server receives `src` after what was buffered, flushing whenever the buffer fills; fails only when a flush does |
| `Client.Context.WriteByte` | src/client.cpp:157-161 | appends one octet to what the server will receive |
| `Client.Context.WriteInteger` | src/client.cpp:164-171 | appends the four octets of `v`, most significant first |
| `Client.Context.WriteString` | src/client.cpp:174-181 | appends the length, then the bytes |
| `Client.Context.SendRequest` | src/client.cpp:364-379 | the server receives the tag and the framed text, and the call succeeds exactly when the connection accepts the whole request |
| `Client.Context.Take` | src/client.cpp:206-209 | takes the next `c` bytes of the unread input out of the buffer |
| `Client.Context.Refill` | src/client.cpp:188-204 | refills the whole buffer from the socket; on end of stream or error latches trouble, empties the buffer and prints the notice |
| `Client.Context.ReadBytes` | src/client.cpp:184-213 | gives the next `count` input bytes, or -1 with trouble latched and the buffer emptied when the input runs out first |
| `Client.Context.ReadChunk` | src/client.cpp:188-210 | one round of the read loop takes between one byte and what is still wanted from the front of the input |
| `Client.Context.ReadByte` | src/client.cpp:216-221 | agrees with `ReadByteSpec` on the unread input |
| `Client.Context.ReadInteger` | src/client.cpp:224-232 | agrees with `ReadIntegerSpec`, the corrected unsigned decoding, on the unread input |
| `Client.Context.ReadString` | src/client.cpp:235-258 | agrees with `ReadStringSpec`, lengths read unsigned, on the unread input |
| `Client.Context.StartCompletion` | src/client.cpp:261-305 | sends the completion request and gives the count the reply carries, or -1 with the failure recorded |
| `Client.Context.CompletionGenerator` | src/client.cpp:308-327 | state 0 starts a completion; later calls return the next candidate while the count lasts, then null |
| `Client.Context.PrintRows` | src/client.cpp:417-455 | prints what the row-set loop prints for the unread input and leaves what follows `End` |
| `Client.Context.Execute` | src/client.cpp:351-473 | `exit`/`quit` only set the exit flag; otherwise, with no earlier trouble, the request goes out and the reply has the effect `Respond` gives it |
| `Client.Context.ReadReply` | src/client.cpp:381-472 | dispatches on the reply tag with the effect `Respond` gives; an unknown tag latches trouble |
| `Client.Context.ReadNewDatabase` | src/client.cpp:386-404 | replaces the database name (even by null) and prints the message |
| `Client.Context.PrintMessage` | src/client.cpp:406-466 | prints the message of a `Success` or `Error` reply |
| `Streams.DecodeInt` | src/com/readytalk/revori/server/StreamUtil.java:37-44 | `readInt` on the stream's bytes: ends in `EOFException` exactly when fewer than four remain; otherwise the value whose encoding is the first four |
| `Streams.DecodeLong` | src/com/readytalk/revori/server/StreamUtil.java:51-63 | `readLong`: `EOFException` exactly when fewer than eight remain; otherwise consumes eight |
| `Streams.DecodeString` | src/com/readytalk/revori/server/StreamUtil.java:21-28 | `readString`: a decoded string consumes its length and body |
| `Streams.WriteInt` | src/com/readytalk/revori/server/StreamUtil.java:30-35 | appends the four octets of `v` to the stream |
| `Streams.ReadInt` | src/com/readytalk/revori/server/StreamUtil.java:37-44 | agrees with `DecodeInt` and leaves the stream after the word (empty on end of file) |
| `Streams.WriteLong` | src/com/readytalk/revori/server/StreamUtil.java:46-49 | appends the eight octets of `v` |
| `Streams.ReadLong` | src/com/readytalk/revori/server/StreamUtil.java:51-63 | agrees with `DecodeLong` |
| `Streams.WriteString` | src/com/readytalk/revori/server/StreamUtil.java:9-19 | appends the framed UTF-8 bytes; `null` goes out as the empty string |
| `Streams.EncodeString` | src/com/readytalk/revori/server/StreamUtil.java:9-19 | the frame `writeString` puts out: a four-octet length word, then exactly the string's bytes, none for `null`; `Streams.StringRoundTrip` reads it back |
| `Streams.ReadFully` | src/com/readytalk/revori/server/StreamUtil.java:65-78 | reads until `length` bytes arrived or the stream ended, returns how many, and fills exactly those slots of the buffer |
| `Streams.ReadString` | src/com/readytalk/revori/server/StreamUtil.java:21-28 | agrees with `DecodeString` on the stream's bytes |
| `Streams.IntRoundTrip` | src/com/readytalk/revori/server/StreamUtil.java:30-44 | `readInt` after `writeInt` gives the value back and leaves the following bytes |
| `Streams.LongRoundTrip` | src/com/readytalk/revori/server/StreamUtil.java:46-63 | `readLong` after `writeLong` gives the value back |
| `Streams.StringRoundTrip` | src/com/readytalk/revori/server/StreamUtil.java:9-28 | `readString` after `writeString` gives the string back, `null` as the empty string |
| `Streams.TruncatedString` | src/com/readytalk/revori/server/StreamUtil.java:21-28 | a stream cut anywhere inside a string's frame ends in `EOFException` |
| `Protocol.VarintShape` | src/com/readytalk/revori/server/protocol/Protocol.java:408-417 | every octet of a varint but the last carries the continuation bit 0x80; the last does not |
| `Protocol.WriteInteger` | src/com/readytalk/revori/server/protocol/Protocol.java:408-417 | `writeInteger` puts out at least one octet, and exactly the values 0 to 127 go out as that single octet; `Protocol.IntegerRoundTrip` reads every value back |
| `Protocol.WriteLong` | src/com/readytalk/revori/server/protocol/Protocol.java:429-438 | the same for `writeLong`; `Protocol.LongRoundTrip` reads every value back |
| `Protocol.WriteBoolean` | src/com/readytalk/revori/server/protocol/Protocol.java:402-406 | one octet, non-zero exactly for `true` |
| `Protocol.ReadBoolean` | src/com/readytalk/revori/server/protocol/Protocol.java:489-498 | `readBoolean` consumes one octet; it throws `EOFException` exactly on an empty stream |
| `Protocol.WriteByteArray` | src/com/readytalk/revori/server/protocol/Protocol.java:440-445 | the length as a varint, then exactly the bytes |
| `Protocol.ReadByteArray` | src/com/readytalk/revori/server/protocol/Protocol.java:538-546 | `readByteArray` fails with `EOFException` when the length cannot be read or the body is short, and with `NegativeArraySizeException` for a negative length; a decoded array and what follows it are shorter than the stream, since at least one octet of length was read |
| `Protocol.ReadInteger` | src/com/readytalk/revori/server/protocol/Protocol.java:500-511 | `readInteger` consumes at least one octet, and a stream that ends before an octet without continuation bit ends in `EOFException` |
| `Protocol.ReadLong` | src/com/readytalk/revori/server/protocol/Protocol.java:525-536 | `readLong`, the same in 64-bit arithmetic |
| `Protocol.ReadIntegerThrows` | src/com/readytalk/revori/server/protocol/Protocol.java:500-511 | `readInteger` throws `EOFException` exactly when every octet left has its continuation bit set |
| `Protocol.ReadLongThrows` | src/com/readytalk/revori/server/protocol/Protocol.java:525-536 | the same for `readLong` |
| `Protocol.ReadVarint32` | src/com/readytalk/revori/server/protocol/Protocol.java:500-511 | reading the varint of a 32-bit pattern gives the `int` with that pattern and leaves the following bytes |
| `Protocol.ReadVarint64` | src/com/readytalk/revori/server/protocol/Protocol.java:525-536 | reading the varint of a 64-bit pattern gives the `long` with that pattern |
| `Protocol.IntegerRoundTrip` | src/com/readytalk/revori/server/protocol/Protocol.java:408-511 | `readInteger` inverts `writeInteger` for every `int`, negative ones included |
| `Protocol.LongRoundTrip` | src/com/readytalk/revori/server/protocol/Protocol.java:429-536 | `readLong` inverts `writeLong` for every `long` |
| `Protocol.SmallIntegers` | src/com/readytalk/revori/server/protocol/Protocol.java:412-414 | exactly the values 0 to 127 take one octet, which is the value itself |
| `Protocol.VarintLength` | src/com/readytalk/revori/server/protocol/Protocol.java:408-417 | a varint spends one octet per started group of seven bits |
| `Protocol.NegativesTakeFullWidth` | src/com/readytalk/revori/server/protocol/Protocol.java:408-438 | every negative `int` takes five octets and every negative `long` ten, since the writers shift without sign |
| `Protocol.BooleanRoundTrip` | src/com/readytalk/revori/server/protocol/Protocol.java:402-498 | `readBoolean` inverts `writeBoolean`; an empty stream ends in `EOFException` |
| `Protocol.ByteArrayRoundTrip` | src/com/readytalk/revori/server/protocol/Protocol.java:440-546 | `readByteArray` inverts `writeByteArray` |
| `Protocol.ShortByteArray` | src/com/readytalk/revori/server/protocol/Protocol.java:538-546 | a body cut short ends in `EOFException` |
| `SqlText.Tokenize` | server/src/main/java/com/readytalk/revori/server/SQLServer.java:1295-1311 | the loop builds exactly the concatenation of the per-character pieces: each character, padded with a space on a side where a parenthesis touches a non-blank |
| `SqlText.TokenizeOnlyAddsSpaces` | server/src/main/java/com/readytalk/revori/server/SQLServer.java:1295-1311 | `tokenize` only adds spaces: with spaces dropped, output and input are the same, and the output is no shorter |
| `SqlText.TokenizeWithoutParens` | server/src/main/java/com/readytalk/revori/server/SQLServer.java:1295-1311 | text without parentheses comes out unchanged |
| `SqlText.TokenizeSeparatesParens` | server/src/main/java/com/readytalk/revori/server/SQLServer.java:1299-1308 | every parenthesis in the output has white space or the end of the text on both sides |
| `SqlText.LeadingSpace` | server/src/main/java/com/readytalk/revori/server/SQLServer.java:1742-1749 | the length of the white-space prefix: all of it white space, and the next character, if any, not |
| `SqlText.SkipSpace` | server/src/main/java/com/readytalk/revori/server/SQLServer.java:1741-1752 | the text after its leading white space |
| `SqlText.ParseName` | server/src/main/java/com/readytalk/revori/server/SQLServer.java:1754-1771 | null exactly when the text does not start with a letter or `_`; otherwise the longest prefix of letters, digits and `_` |
| `SqlText.RunExtends` | server/src/main/java/com/readytalk/revori/server/SQLServer.java:1933-1963 | scanning never takes back a field a delimiter has closed |
| `SqlText.Run` | server/src/main/java/com/readytalk/revori/server/SQLServer.java:1933-1963 | the escape scanner over a text: it keeps the pieces closed before and closes at most one more per character |
| `SqlText.RunEscape` | server/src/main/java/com/readytalk/revori/server/SQLServer.java:1933-1963 | scanning escaped text adds exactly the unescaped text to the current piece and closes nothing |
| `SqlText.TrailingBackslash` | server/src/main/java/com/readytalk/revori/server/SQLServer.java:1505-1511 | an unpaired backslash at the end of a line is dropped and leaves the scanner expecting an escape |
| `SqlText.StringLiteral` | server/src/main/java/com/readytalk/revori/server/SQLServer.java:1925-1970 | the loop computes the literal value and the remaining text defined by the quote scanner |
| `SqlText.LiteralOfEscaped` | server/src/main/java/com/readytalk/revori/server/SQLServer.java:1934-1964 | an escaped value followed by a quote yields the value and the text after the quote |
| `SqlText.UnterminatedLiteral` | server/src/main/java/com/readytalk/revori/server/SQLServer.java:1934-1967 | escaped text without a closing quote yields no literal |
| `SqlText.StringLiteralRoundTrip` | server/src/main/java/com/readytalk/revori/server/SQLServer.java:1925-1970 | any quoted value after any white space parses back to the value and stops right after the closing quote |
| `SqlText.StringLiteralUnterminated` | server/src/main/java/com/readytalk/revori/server/SQLServer.java:1925-1970 | a literal without its closing quote does not parse |
| `SqlText.DigitsFrom` | server/src/main/java/com/readytalk/revori/server/SQLServer.java:1981-1989 | the length of the run of digits starting at a position |
| `SqlText.NumberLiteral` | server/src/main/java/com/readytalk/revori/server/SQLServer.java:1972-2001 | after white space, an optional minus and at least one digit, taking every digit that follows; accepted only after an atomic token or skipped white space |
| `SqlServer.SuccessMisread` | server/src/main/java/com/readytalk/revori/server/SQLServer.java:89-91 | the server's `Success` (3) is the client's `Error`: a success message is printed as an error |
| `SqlServer.ErrorMisread` | server/src/main/java/com/readytalk/revori/server/SQLServer.java:89-91 | the server's `Error` (4) is no tag the client knows: the session stops in trouble |
| `SqlServer.CompletionMisread` | server/src/main/java/com/readytalk/revori/server/SQLServer.java:2621-2640 | a completion reply reaches the client's `Error` branch: the count is read as a string length and no completion is offered |
| `SqlServer.Retagged` | server/src/main/java/com/readytalk/revori/server/SQLServer.java:89-91 | mapping each server tag to the client's gives the frame the client was written for |
| `SqlServer.RespondCanonicalToEncoded` | server/src/main/java/com/readytalk/revori/server/SQLServer.java:89-91 | with the tags mapped, every reply the server writes is shown as meant |
| `SqlServer.CopySuccessShown` | server/src/main/java/com/readytalk/revori/server/SQLServer.java:2275-2276 | with the tags mapped, `CopySuccess` is shown like `Success` |
| `SqlServer.CompletionCanonicalToEncoded` | server/src/main/java/com/readytalk/revori/server/SQLServer.java:2621-2640 | with the tags mapped, the completion count arrives and the candidates follow |
| `SqlServer.ReadString` | server/src/main/java/com/readytalk/revori/server/SQLServer.java:1283-1293 | sizes the buffer from the length and fills it until the stream ends: the bytes that arrived, padded with zeros |
| `SqlServer.PaddedVersusStrict` | server/src/main/java/com/readytalk/revori/server/SQLServer.java:1283-1293 | on a whole frame it agrees with StreamUtil's reader; where that one ends in `EOFException` on a short body, this one returns the padded body |
| `SqlServer.PaddedRoundTrip` | server/src/main/java/com/readytalk/revori/server/SQLServer.java:1283-1293 | the padded reader inverts `writeString` |
| `SqlServer.RowRoundTrip` | server/src/main/java/com/readytalk/revori/server/SQLServer.java:1500-1533 | scanning a row of escaped fields joined by commas gives back every field: all but the last closed, the last still open |
| `SqlServer.CopyContext.constructor` | server/src/main/java/com/readytalk/revori/server/SQLServer.java:447-455 | one parameter slot per column, each `null`, empty field text, count 0, no trouble, nothing applied |
| `SqlServer.CopyContext.Copy` | server/src/main/java/com/readytalk/revori/server/SQLServer.java:1492-1542 | succeeds exactly when the line's fields, one per column with a non-empty last one, all convert (`CopyValues`) and the builder accepts them; then the slots hold those values and the row is applied. It fails at a comma past the last column, a field that does not convert, too few fields, an empty or unconvertible last field, or a builder rejection; the fields stored before the failure stay stored and the failing field's text stays in the builder |
| `SqlServer.CopyContext.ApplyRow` | server/src/main/java/com/readytalk/revori/server/SQLServer.java:1557-1565 | a row after a failed one changes nothing; otherwise a row that copies counts one more (32-bit) and is applied, and one that fails marks the trouble |
| `SqlServer.CopyContext.Store` | server/src/main/java/com/readytalk/revori/server/SQLServer.java:1519-1521 | at an unescaped comma: stores exactly when the column exists and the field converts, clearing the text; otherwise nothing changes |
| `SqlServer.CopyContext.Append` | server/src/main/java/com/readytalk/revori/server/SQLServer.java:1505-1531 | every character other than an unescaped comma changes the field text as the escape scanner's step does |
| `SqlServer.CopyContext.Fields` | server/src/main/java/com/readytalk/revori/server/SQLServer.java:1503-1533 | the loop stores each field its comma closes; it stops at the first field the line's scan closes that has no column or does not convert, which is where `CopyValues` gives none |
| `SqlServer.ParseLong` | src/com/readytalk/oss/dbms/server/SQLServer.java:1276 | `Long.parseLong`: a value comes only from a sign followed by decimal digits, or digits alone; a negative value only from a leading minus |
| `SqlServer.DecimalParses` | src/com/readytalk/oss/dbms/server/SQLServer.java:1270-1281 | `Long.parseLong` reads back every `int` written in decimal |
| `SqlServer.ConvertAccepts` | src/com/readytalk/oss/dbms/server/SQLServer.java:1270-1281 | `convert`: a number column turns the decimal of an `int` into that number; a string column takes any text as it is |
| `SqlServer.ConvertRow` | server/src/main/java/com/readytalk/revori/server/SQLServer.java:1519-1539 | a row's texts convert exactly when each converts for its column, one value per text, each that text's conversion |
| `SqlServer.FirstBadAt` | server/src/main/java/com/readytalk/revori/server/SQLServer.java:1517-1521 | the field where `copy` throws is the one place where all fields before it store and it has no column or does not convert |
| `SqlServer.CopyRoundTrip` | server/src/main/java/com/readytalk/revori/server/SQLServer.java:1500-1541 | a row of escaped fields joined by commas, one per column with a non-empty last field, is handed over as exactly its fields' conversions |
| `SqlServer.CopyRejectsText` | server/src/main/java/com/readytalk/revori/server/SQLServer.java:1539 | `abc` in a number column makes `copy` throw |
| `SqlServer.CopyAcceptsNumber` | server/src/main/java/com/readytalk/revori/server/SQLServer.java:1539-1541 | `5` in a number column is handed to the builder as 5 |
| `SqlServer.TokenizedCopyRow` | server/src/main/java/com/readytalk/revori/server/SQLServer.java:2593 | row lines pass through `tokenize` like every request before `applyCopy` sees them, so `a(b` typed into a string column is stored as `a ( b` |
| `SqlServer.Overflow` | server/src/main/java/com/readytalk/revori/server/SQLServer.java:1519-1521 | a comma past the last column comes after fields that the whole line's scan also closes |
| `SqlServer.Decimal` | server/src/main/java/com/readytalk/revori/server/SQLServer.java:1555 | `String.valueOf` of an `int`: at most eleven characters, a sign and digits |
| `SqlServer.InsertedMessage` | server/src/main/java/com/readytalk/revori/server/SQLServer.java:1555 | the message ending a `COPY` fits a string frame |
| `SqlServer.Session.constructor` | server/src/main/java/com/readytalk/revori/server/SQLServer.java:458-470 | a session with no transaction and no copy in progress |
| `SqlServer.Session.PushTransaction` | server/src/main/java/com/readytalk/revori/server/SQLServer.java:1455-1459 | opens a transaction from the enclosing transaction's head, or from the server's head when there is none |
| `SqlServer.Session.SetHead` | server/src/main/java/com/readytalk/revori/server/SQLServer.java:1446-1453 | the innermost transaction reaches the given head; nothing else changes |
| `SqlServer.Session.CommitTransaction` | server/src/main/java/com/readytalk/revori/server/SQLServer.java:1461-1468 | the outermost transaction merges its tail and head into the server; a nested one hands its head to the enclosing one |
| `SqlServer.Session.PopTransaction` | server/src/main/java/com/readytalk/revori/server/SQLServer.java:1470-1475 | fails with "no transaction in progress" when none is open; otherwise drops the innermost |
| `SqlServer.Session.ApplyInTransaction` | server/src/main/java/com/readytalk/revori/server/SQLServer.java:1477-1490 | a change in a transaction of its own lands in the enclosing transaction, or is merged into the server; when `builder.apply` throws, nothing lands and the exception passes on; either way the `finally` pop leaves the stack as before |
| `SqlServer.Session.StartCopy` | server/src/main/java/com/readytalk/revori/server/SQLServer.java:2267-2277 | creates the copy context, opens a transaction and writes `CopySuccess` with its message |
| `SqlServer.Session.ApplyCopy` | server/src/main/java/com/readytalk/revori/server/SQLServer.java:1544-1567 | `\.` commits and closes the copy and reports the count; any other line is a row: skipped once a row failed, otherwise applied and counted exactly when its values convert (`CopyValues`) and the builder accepts them, and marking the trouble when not |
| `SqlServer.Session.EndCopy` | server/src/main/java/com/readytalk/revori/server/SQLServer.java:1550-1556 | the copy's transaction reaches the committed revision and commits into the enclosing transaction or the server; `Success` and the count go out; the copy closes |
| `Compare.Opposite` | src/com/readytalk/oss/dbms/imp/Interval.java:7-10 | each bound type's opposite is the other one |
| `Compare.CompareValues` | src/main/java/com/readytalk/revori/imp/Compare.java:82-95 | zero exactly for the same value; `Dummy` below every other value; keys by the column order |
| `Compare.EqualByComparator` | src/main/java/com/readytalk/revori/imp/Compare.java:97-102 | two keys are equal exactly when the comparator finds no difference |
| `Compare.CompareBounds` | src/main/java/com/readytalk/revori/imp/Compare.java:156-189 | a missing bound lies below every value as a low bound and above every value as a high bound |
| `Compare.CompareToBound` | src/main/java/com/readytalk/revori/imp/Compare.java:191-205 | against a missing bound, -1 for a high bound and 1 for a low one; zero only for an equal present bound |
| `Compare.CompareToBoundType` | src/main/java/com/readytalk/revori/imp/Compare.java:207-227 | a value equal to an exclusive bound lies outside it: above a high bound, below a low one; zero only on an inclusive bound |
| `Compare.BoundsByPlace` | src/main/java/com/readytalk/revori/imp/Compare.java:156-189 | the bound comparison is the order of the bounds' places on one line with the missing bounds at both ends |
| `Compare.Antisymmetric` | src/main/java/com/readytalk/revori/imp/Compare.java:82-95 | swapping the operands negates the comparison |
| `Compare.KeyAgainstBounds` | src/main/java/com/readytalk/revori/imp/Compare.java:207-227 | a key passes a low bound exactly when the comparison is not negative, a high bound exactly when it is not positive |
| `Compare.Validate` | src/main/java/com/readytalk/revori/imp/Compare.java:71-80 | null and instances of the type pass unchanged; anything else throws |
| `Compare.CompareTables` | src/main/java/com/readytalk/revori/imp/Compare.java:39-57 | zero only for the same table; the index table comes before every other |
| `Compare.TablesTotallyOrdered` | src/main/java/com/readytalk/revori/imp/Compare.java:39-57 | the table order is antisymmetric and transitive |
| `Intervals.UnboundedHoldsEverything` | src/com/readytalk/oss/dbms/imp/Interval.java:15-16 | the unbounded interval holds every key |
| `Intervals.Intersection` | src/com/readytalk/oss/dbms/imp/Interval.java:40-76 | the intersection's low bound is at least both lows and its high bound at most both highs; `Intervals.IntersectionContains` says which keys it holds |
| `Intervals.Union` | src/com/readytalk/oss/dbms/imp/Interval.java:78-114 | the union (high tie corrected) has a low bound at most both lows and a high bound at least both highs |
| `Intervals.CompareIntervalsAsWritten` | src/main/java/com/readytalk/revori/imp/Compare.java:110-154 | `compare(Interval, Interval)` as written lies in -2..2: positive only when the left high end is not below the right one, negative only the other way round, 0 only on equal high ends of equal type |
| `Intervals.CompareIntervals` | src/main/java/com/readytalk/revori/imp/Compare.java:110-154 | the corrected comparison, with the same range and sign; `Intervals.ApartIntervals` says what ±2 means |
| `Intervals.IntersectionContains` | src/com/readytalk/oss/dbms/imp/Interval.java:40-76 | a key lies in the intersection exactly when it lies in both intervals |
| `Intervals.UnionContainsOperands` | src/com/readytalk/oss/dbms/imp/Interval.java:78-114 | every key of either interval lies in the union (corrected high tie, see Findings) |
| `Intervals.UnionProper` | src/com/readytalk/oss/dbms/imp/Interval.java:78-114 | the union of two proper intervals is proper |
| `Intervals.UnionWithinOperands` | src/com/readytalk/oss/dbms/imp/Interval.java:78-114 | where two proper intervals overlap or touch, the union holds no key neither holds |
| `Intervals.ApartIntervals` | src/main/java/com/readytalk/revori/imp/Compare.java:110-154 | where the corrected comparison finds two intervals apart (±2), every key of the higher lies above every key of the lower |
| `Intervals.UnionAsWritten` | src/com/readytalk/oss/dbms/imp/Interval.java:78-114 | the union as written agrees with the corrected one except on a tie at the high end |
| `Intervals.UnionAsWrittenDropsHighEnd` | src/com/readytalk/oss/dbms/imp/Interval.java:106-110 | (1, 5] and (2, 5] unite as written to (1, 5), which loses the key 5 both hold |
| `Intervals.CompareAsWrittenMergesApart` | src/main/java/com/readytalk/revori/imp/Compare.java:117-128 | [5, 6] against [1, 2] compares as 1, overlapping, though 3 lies between them |
| `Scans.FlagsConsistent` | src/com/readytalk/oss/dbms/imp/NegationScan.java:15-25 | across unions, intersections and negations of interval scans, a specific scan is useful and an unknown one is not specific |
| `Scans.UnionPieceKeys` | src/com/readytalk/oss/dbms/imp/UnionScan.java:48-57 | with the corrected comparison and union (see Findings), what one step of the union walk appends holds every key of the pair, and for proper intervals no other |
| `Scans.UnionPieceProper` | src/com/readytalk/oss/dbms/imp/UnionScan.java:48-57 | what one step appends from proper intervals is proper |
| `Scans.UnionStepKeys` | src/com/readytalk/oss/dbms/imp/UnionScan.java:38-57 | each step of the walk keeps every key of the intervals read so far in the result, and for proper intervals no other |
| `Scans.UnionEvaluate` | src/com/readytalk/oss/dbms/imp/UnionScan.java:30-69 | the walk with the corrected comparison and union: every key of either list lies in the result, and for proper intervals no other key does and the result is proper; an empty operand gives the other list |
| `Scans.UnionAsWrittenSpansGap` | src/com/readytalk/oss/dbms/imp/UnionScan.java:48-56 | as written, the walk unites [5, 6] and [1, 2] into [1, 6], which holds 3, a key of neither |
| `Scans.UnionAsWrittenScan` | src/com/readytalk/oss/dbms/imp/UnionScan.java:30-69 | `UnionScan.evaluate` as written: a union with an empty list gives the other list back |
| `Scans.UnionAsWrittenDropsKey` | src/com/readytalk/oss/dbms/imp/UnionScan.java:48-56 | as written, the walk unites (1, 5] and (2, 5] into (1, 5), which loses 5, a key of both |
| `Scans.UnionRest` | src/com/readytalk/oss/dbms/imp/UnionScan.java:60-66 | once one list is used up, appending the other's rest keeps exactly the keys of both lists, and keeps them proper |
| `Scans.AppendRest` | src/com/readytalk/oss/dbms/imp/UnionScan.java:60-66 | each closing loop appends the rest of its list in order |
| `Scans.LeadingKeys` | src/com/readytalk/oss/dbms/imp/NegationScan.java:32-38 | the leading gap, where it is emitted, holds exactly the keys below the first low bound |
| `Scans.NegationStep` | src/com/readytalk/oss/dbms/imp/NegationScan.java:31-47 | after each interval, the gaps so far hold exactly the keys below its low bound that no earlier interval holds |
| `Scans.NegationEnd` | src/com/readytalk/oss/dbms/imp/NegationScan.java:49-56 | with the trailing gap the gaps hold exactly the keys in none of the intervals |
| `Scans.SoleGapsSorted` | src/com/readytalk/oss/dbms/imp/NegationScan.java:31-56 | the gaps around one proper interval form a sorted list |
| `Scans.NegationEvaluate` | src/com/readytalk/oss/dbms/imp/NegationScan.java:27-59 | an empty operand gives the unbounded interval; for a sorted operand the result holds exactly the keys the operand does not; one interval gives the gaps below and above it |
| `Scans.IntersectionAsWrittenLosesKeys` | src/com/readytalk/oss/dbms/imp/IntersectionScan.java:38-52 | [0, 10] intersected with the negation of [5, 5] keeps only [0, 5) as written, losing 7, which both hold |
| `Scans.IntersectionAsWritten` | src/com/readytalk/oss/dbms/imp/IntersectionScan.java:30-55 | `IntersectionScan.evaluate` as written: an intersection with an empty list is empty |
| `Scans.IntersectionStep` | src/com/readytalk/oss/dbms/imp/IntersectionScan.java:39-51 | each step of the walk keeps in the result every shared key of the pairs behind it |
| `Scans.IntersectionExit` | src/com/readytalk/oss/dbms/imp/IntersectionScan.java:38 | where the corrected walk stops, no pair ahead shares a key, so every key in both lists is in the result |
| `Scans.IntersectionEvaluate` | src/com/readytalk/oss/dbms/imp/IntersectionScan.java:30-55 | every key of the result lies in both lists; for sorted lists every key in both lies in the result; an empty operand gives nothing |
| `Scans.EvaluateScan` | src/com/readytalk/oss/dbms/imp/UnionScan.java:30-32 | evaluating a scan tree, each combining scan walking its operands' lists: the list holds exactly the keys `Keys` gives the scan wherever every union takes proper operands and every intersection and negation sorted ones (`KeysExact`); leaves give one proper interval, their negations a sorted list |
| `Adapters.MakeComparison` | src/com/readytalk/oss/dbms/imp/ComparisonAdapter.java:13-24 | the constructor accepts exactly the comparison operations and throws `IllegalArgumentException` otherwise |
| `Adapters.MakeConnective` | server/src/main/java/com/readytalk/revori/imp/BooleanBinaryAdapter.java:18-37 | accepts exactly a Boolean operation over two Boolean operands; a wrong operation throws `IllegalArgumentException`, a wrong operand `ClassCastException` |
| `Adapters.CompareTo` | src/com/readytalk/oss/dbms/imp/ComparisonAdapter.java:48-62 | `compareTo` on two keys succeeds, negative exactly when the left key is smaller and zero exactly when they are equal |
| `Adapters.Evaluate` | src/com/readytalk/oss/dbms/imp/ComparisonAdapter.java:31-67 | a comparison, connective or negation evaluates to a Boolean or to `Undefined` |
| `Adapters.NullAndUndefined` | src/com/readytalk/oss/dbms/imp/ComparisonAdapter.java:37-42 | `null` makes a comparison or connective false, `Undefined` propagates, and `IS NULL` of `null` is true |
| `Adapters.OnColumnIsTwoValued` | src/com/readytalk/oss/dbms/imp/ComparisonAdapter.java:31-67 | a test on one column evaluates to a Boolean wherever the column holds a key |
| `Adapters.ComparisonScanExact` | src/com/readytalk/oss/dbms/imp/ComparisonAdapter.java:69-100 | comparing the column with a constant key scans exactly the keys that pass; `<>` scans everything |
| `Adapters.ComparisonScan` | src/com/readytalk/oss/dbms/imp/ComparisonAdapter.java:69-100 | an `Undefined` bound gives the unknown scan; otherwise a scan is made exactly for a key or sentinel bound and a comparison operation, the failure being the unexpected type or a non-key bound |
| `Adapters.MakeScan` | server/src/main/java/com/readytalk/revori/imp/BooleanBinaryAdapter.java:68-84 | a constant makes a scan exactly when it is a Boolean, a column reference never does, `IS NULL` scans everything, and a connective makes an intersection or a union of its operands' scans |
| `Adapters.ExactScan` | server/src/main/java/com/readytalk/revori/imp/BooleanBinaryAdapter.java:68-84 | for a test without `<>` and `IS NULL` the scan's keys (`Scans.Keys`, what the corrected walks yield where `Scans.EvaluateScan` states it) are exactly the keys of the rows that pass the test |
| `Adapters.LiteralScanSorted` | src/com/readytalk/oss/dbms/imp/ComparisonAdapter.java:69-100 | the scan of an exact comparison, constant or negation of one evaluates to a sorted list holding exactly its keys |
| `Adapters.DisjunctionScanProper` | server/src/main/java/com/readytalk/revori/imp/BooleanBinaryAdapter.java:68-84 | the scan of an exact `OR` of literals evaluates to proper intervals holding exactly its keys |
| `Adapters.FlatScanExact` | server/src/main/java/com/readytalk/revori/imp/BooleanBinaryAdapter.java:68-84 | for an exact `OR` of literals or `AND` of two literals, the evaluated scan holds exactly its keys, so, with `ExactScan`, exactly the keys of the rows that pass |
| `Adapters.ExactOk` | server/src/main/java/com/readytalk/revori/imp/BooleanBinaryAdapter.java:68-84 | the scan of such a test is always made |
| `Adapters.NegatedInexactScan` | server/src/main/java/com/readytalk/revori/imp/BooleanUnaryAdapter.java:52-58 | `NOT (column <> 5)` scans no key, yet the row holding 5 passes the test |
| `Adapters.GuardedScanCovers` | server/src/main/java/com/readytalk/revori/imp/BooleanUnaryAdapter.java:52-63 | with negation taken only over exact tests, every row that passes a one-column test lies in the scan's keys (`Scans.Keys`, the corrected walks' meaning) |
| `Adapters.GuardedOk` | server/src/main/java/com/readytalk/revori/imp/BooleanUnaryAdapter.java:52-63 | the guarded scan of a one-column test is always made |
| `Foldables.Start` | src/com/readytalk/revori/Foldables.java:13 | a missing accumulation counts as 0 |
| `Foldables.CountAdd` | src/com/readytalk/revori/Foldables.java:12-15 | one more than the accumulation, wrapping from `Integer.MAX_VALUE` to `MIN_VALUE` |
| `Foldables.CountSubtract` | src/com/readytalk/revori/Foldables.java:17-20 | one less than the accumulation, wrapping from `MIN_VALUE` to `MAX_VALUE` |
| `Foldables.FirstInteger` | src/com/readytalk/revori/Foldables.java:26 | `(Integer) values[0]`: `ArrayIndexOutOfBoundsException` exactly for no value, `NullPointerException` exactly for `null`, `ClassCastException` exactly for another object, else the `Integer` |
| `Foldables.SumAdd` | src/com/readytalk/revori/Foldables.java:24-27 | the first value added modulo 2^32, exact where no overflow happens; throws exactly what reading the first value throws |
| `Foldables.SumSubtract` | src/com/readytalk/revori/Foldables.java:29-32 | the first value taken out modulo 2^32; throws exactly what reading the first value throws |
| `Foldables.CountRoundTrip` | src/com/readytalk/revori/Foldables.java:11-21 | subtracting a row undoes adding it, wrap-around included |
| `Foldables.SumRoundTrip` | src/com/readytalk/revori/Foldables.java:23-33 | subtracting a value undoes adding it, wrap-around included |
| `Parameters.OrdersMembers` | server/src/main/java/com/readytalk/revori/ParameterCounter.java:36-38 | an order is among the visited parameters exactly when a visited parameter carries it |
| `Parameters.PreorderAllAppend` | server/src/main/java/com/readytalk/revori/ParameterCounter.java:61-63 | visiting two lists of expressions in turn visits the concatenation |
| `Parameters.ParameterCounter.constructor` | server/src/main/java/com/readytalk/revori/ParameterCounter.java:24-25 | a new counter has seen no parameter and counts 0 |
| `Parameters.ParameterCounter.Visit` | server/src/main/java/com/readytalk/revori/ParameterCounter.java:35-46 | a parameter not seen before is recorded and counted; one seen before throws; any other expression changes nothing |
| `Parameters.VisitAll` | server/src/main/java/com/readytalk/revori/ParameterCounter.java:61-63 | visiting expressions in turn succeeds exactly when their parameter orders are distinct, and then counts exactly them |
| `Parameters.VisitFails` | server/src/main/java/com/readytalk/revori/ParameterCounter.java:38-40 | a parameter met again makes the whole walk's orders repeat |
| `Parameters.CountParameters` | server/src/main/java/com/readytalk/revori/ParameterCounter.java:59-65 | the number of parameters in the expressions and their operands, which is the number of distinct ones, or the exception when one occurs twice; 0 for no expressions |
| `Templates.CoveredIffNoneMissing` | src/main/java/com/readytalk/revori/InsertTemplate.java:75-83 | no key column is left over exactly when every primary-key column is listed |
| `Templates.MissingKeyColumns` | src/main/java/com/readytalk/revori/InsertTemplate.java:75-78 | the primary-key columns not among the listed columns |
| `Templates.MakeInsertTemplate` | src/main/java/com/readytalk/revori/InsertTemplate.java:59-84 | throws for a duplicate parameter, then for unequal lengths, then for an uncovered primary key, and otherwise makes the template with its parameter count |
| `Indexes.MakeIndex` | src/com/readytalk/oss/dbms/Index.java:35-50 | the given columns first, then each primary-key column not among them, once; nothing else |
| `Indexes.CompareColumns` | src/com/readytalk/oss/dbms/Index.java:52-69 | shorter column lists first, then the first column that differs |
| `Indexes.CompareIndexes` | src/com/readytalk/oss/dbms/Index.java:71-78 | by table, then by columns; zero exactly for the same table and columns |
| `Indexes.ColumnOrderZero` | src/com/readytalk/oss/dbms/Index.java:52-69 | only equal column lists compare equal |
| `Indexes.ColumnOrderTotal` | src/com/readytalk/oss/dbms/Index.java:52-69 | the column order is antisymmetric and transitive, as sorting indexes needs |
| `Multimaps.PairsUpdate` | src/com/readytalk/revori/util/SetMultimap.java:86-91 | replacing one key's set changes the number of pairs by the change in that set's size |
| `Multimaps.PairsRemove` | src/com/readytalk/revori/util/SetMultimap.java:94-100 | dropping a key loses exactly the pairs of its set |
| `Multimaps.PairsMerged` | src/com/readytalk/revori/util/SetMultimap.java:186-191 | merging two maps of sets unites their pairs |
| `Multimaps.SetMultimap.constructor` | src/com/readytalk/revori/util/SetMultimap.java:12-13 | a new multimap holds nothing and counts 0 |
| `Multimaps.SetMultimap.Put` | src/com/readytalk/revori/util/SetMultimap.java:41-45 | the value joins the key's set; `size` grows only for a new pair; the pairs gain exactly that one |
| `Multimaps.SetMultimap.Remove` | src/com/readytalk/revori/util/SetMultimap.java:47-57 | true exactly when the pair was held; then it goes and `size` drops by one; nothing else changes |
| `Multimaps.SetMultimap.ViewAdd` | src/com/readytalk/revori/util/SetMultimap.java:77-84 | true exactly for a new pair, which is then held and counted |
| `Multimaps.SetMultimap.ViewContains` | src/com/readytalk/revori/util/SetMultimap.java:102-108 | a view contains a value exactly when the pair is held; a missing set contains nothing |
| `Multimaps.SetMultimap.ViewSize` | src/com/readytalk/revori/util/SetMultimap.java:154-160 | the size of the key's set, 0 exactly when the key has no pair |
| `Multimaps.SetMultimap.Size` | src/com/readytalk/revori/util/SetMultimap.java:182-184 | `size` is the number of pairs held |
| `Multimaps.SetMultimap.Clear` | src/com/readytalk/revori/util/SetMultimap.java:193-196 | nothing is held and `size` is 0 |
| `Multimaps.SetMultimap.AddAll` | src/com/readytalk/revori/util/SetMultimap.java:86-91 | the key's set gains the values, created if missing, and `size` grows by what it grew |
| `Multimaps.SetMultimap.PutAll` | src/com/readytalk/revori/util/SetMultimap.java:186-191 | every set of the other multimap is added to the same key; the pairs are the union of both |
| `Multimaps.SetMultimap.AddEach` | src/com/readytalk/revori/util/SetMultimap.java:187-190 | the loop of `putAll` merges every key of the snapshot |
| `Multimaps.SetMultimap.ViewClearAsWritten` | src/com/readytalk/revori/util/SetMultimap.java:94-100 | the key's set goes, but `size` drops only when the view resolved its set before |
| `Multimaps.SetMultimap.ViewClear` | src/com/readytalk/revori/util/SetMultimap.java:94-100 | the key's set goes and its pairs leave the count |
| `Multimaps.FreshViewClearKeepsCount` | src/com/readytalk/revori/util/SetMultimap.java:94-100 | `put(1, 2)` then `get(1).clear()` on a fresh view leaves nothing held but `size` 1 |
| `DiffServers.TagsAfterPut` | src/main/java/com/readytalk/revori/subscribe/DiffServer.java:40-45 | pointing a tag at a revision moves one holder from its old revision to the new one |
| `DiffServers.TagsAfterRemove` | src/main/java/com/readytalk/revori/subscribe/DiffServer.java:76-78 | dropping a tag loses its one holder |
| `DiffServers.RetagCounts` | src/main/java/com/readytalk/revori/subscribe/DiffServer.java:72-74 | retagging keeps every reference count equal to the number of tags holding the revision |
| `DiffServers.UntagCounts` | src/main/java/com/readytalk/revori/subscribe/DiffServer.java:76-78 | untagging keeps the counts in step with the tags |
| `DiffServers.RetagConsistent` | src/main/java/com/readytalk/revori/subscribe/DiffServer.java:72-74 | a tag taking a held revision keeps the whole server state consistent |
| `DiffServers.DiffServer.constructor` | src/main/java/com/readytalk/revori/subscribe/DiffServer.java:28-32 | a new server: only the tail exists, sequence number 0, held by no tag |
| `DiffServers.DiffServer.Increment` | src/main/java/com/readytalk/revori/subscribe/DiffServer.java:54-59 | one more holder; a revision held for the first time joins `revisions` |
| `DiffServers.DiffServer.Decrement` | src/main/java/com/readytalk/revori/subscribe/DiffServer.java:61-70 | nothing for null; a count at or below zero throws; otherwise one holder fewer, and a revision no longer held leaves `revisions` |
| `DiffServers.DiffServer.Retag` | src/main/java/com/readytalk/revori/subscribe/DiffServer.java:73 | the tag comes to hold the revision and lets go of the old one, without the exception, keeping the state consistent |
| `DiffServers.DiffServer.Wrap` | src/main/java/com/readytalk/revori/subscribe/DiffServer.java:43-45 | a new revision gets the next sequence number and no holder |
| `DiffServers.DiffServer.OnHead` | src/main/java/com/readytalk/revori/subscribe/DiffServer.java:37-51 | every new head is wrapped with the next sequence number and `Head` moves to it; other revisions keep their counts |
| `DiffServers.DiffServer.SetTag` | src/main/java/com/readytalk/revori/subscribe/DiffServer.java:72-74 | the tag comes to hold what `Head` holds; before any head the lookup is null and the call fails changing nothing |
| `DiffServers.DiffServer.RemoveTag` | src/main/java/com/readytalk/revori/subscribe/DiffServer.java:76-78 | the tag lets go; a revision whose last holder it was leaves `revisions` |
| `DiffServers.DiffServer.Tail` | src/main/java/com/readytalk/revori/subscribe/DiffServer.java:97-99 | the tail is the empty revision with sequence number 0, which no tag holds |
| `DiffServers.DiffServer.Next` | src/main/java/com/readytalk/revori/subscribe/DiffServer.java:90-95 | the first held revision after `base` in sequence order, or null exactly when none lies after it |
| `DiffServers.TagRoundTrip` | src/main/java/com/readytalk/revori/subscribe/DiffServer.java:72-78 | tagging a fresh key and untagging it leaves every count and `revisions` as they were |
| `Trees.SearchFinds` | src/main/java/com/readytalk/revori/imp/Node.java:63-75 | in a search tree the lookup finds `Null` exactly for a missing key, and otherwise the key's node with its value |
| `Trees.RotateLeft` | src/main/java/com/readytalk/revori/imp/Node.java:77-83 | the left rotation keeps the elements and keys, and a search tree stays one |
| `Trees.RotateRight` | src/main/java/com/readytalk/revori/imp/Node.java:85-91 | the right rotation keeps the elements and keys, and a search tree stays one |
| `Trees.Paint` | src/main/java/com/readytalk/revori/imp/Node.java:149-152 | recolouring keeps the elements, order and balance; painting black creates no red-red edge, and the black height moves by the colour |
| `Rebalance.FixingDone` | src/main/java/com/readytalk/revori/imp/Node.java:146-219 | when the insertion loop stops, painting the root black gives a red-black tree with the same elements |
| `Rebalance.RecolorStep` | src/main/java/com/readytalk/revori/imp/Node.java:148-154 | the red-uncle case keeps the loop state two levels up and the elements |
| `Rebalance.LeftInner` | src/main/java/com/readytalk/revori/imp/Node.java:156-167 | the inner rotation with the parent on the left puts the red pair outside, keeping order and elements |
| `Rebalance.LeftOuter` | src/main/java/com/readytalk/revori/imp/Node.java:168-179 | the recolouring and right rotation of the outer case leave a sound tree with the same elements |
| `Rebalance.RightInner` | src/main/java/com/readytalk/revori/imp/Node.java:191-202 | the mirror of the inner rotation |
| `Rebalance.RightOuter` | src/main/java/com/readytalk/revori/imp/Node.java:203-214 | the mirror of the outer case |
| `Rebalance.ShortDone` | src/main/java/com/readytalk/revori/imp/Node.java:350-477 | when the deletion loop stops at the root or a red child, painting it black gives a red-black tree with the same elements |
| `Rebalance.Settled` | src/main/java/com/readytalk/revori/imp/Node.java:409-410 | a finished repair, plugged back in, leaves nothing to repair |
| `Rebalance.RedSiblingLeft` | src/main/java/com/readytalk/revori/imp/Node.java:354-374 | the red-sibling case keeps the short child short under a red parent with a black sibling |
| `Rebalance.RedSiblingOrdered` | src/main/java/com/readytalk/revori/imp/Node.java:354-374 | the red-sibling rotation keeps the search order |
| `Rebalance.RedSiblingElements` | src/main/java/com/readytalk/revori/imp/Node.java:354-374 | the red-sibling rotation keeps the elements |
| `Rebalance.RedSiblingRight` | src/main/java/com/readytalk/revori/imp/Node.java:415-435 | the mirror of the red-sibling case |
| `Rebalance.RedSiblingOrderedRight` | src/main/java/com/readytalk/revori/imp/Node.java:415-435 | the mirror of the red-sibling ordering |
| `Rebalance.RedSiblingElementsRight` | src/main/java/com/readytalk/revori/imp/Node.java:415-435 | the mirror of the red-sibling elements |
| `Rebalance.MoveUp` | src/main/java/com/readytalk/revori/imp/Node.java:376-380 | a black sibling with black children turns red and the parent becomes the short child |
| `Rebalance.FarRed` | src/main/java/com/readytalk/revori/imp/Node.java:382-389 | the inner rotation of the sibling keeps its keys, elements and order |
| `Rebalance.FinishLeft` | src/main/java/com/readytalk/revori/imp/Node.java:381-410 | the final rotations with the short child on the left leave a sound tree with the same elements |
| `Rebalance.FinishRight` | src/main/java/com/readytalk/revori/imp/Node.java:442-471 | the mirror of the final rotations |
| `Nodes.Find` | src/main/java/com/readytalk/revori/imp/Node.java:63-75 | the loop finds what the binary search finds: `Null` exactly for a missing key, else the key's node and value |
| `Nodes.PathFind` | src/main/java/com/readytalk/revori/imp/Node.java:56-61 | the loop ends where the nested lookup along the keys ends, stopping at `Null` |
| `Nodes.WalkAppend` | src/main/java/com/readytalk/revori/imp/Node.java:56-61 | a walk along a longer path goes on from where the shorter one ended |
| `Nodes.WalkStep` | src/main/java/com/readytalk/revori/imp/Node.java:58 | one step yields the key's nested tree, `Null` for a missing key, or a failed cast for a column value |
| `Nodes.Blaze` | src/main/java/com/readytalk/revori/imp/Node.java:97-226 | a null key throws; otherwise the result is red-black, holds the old elements plus the key, returns the key's value, is unchanged when the key was there, and holds `Null` for a new key |
| `Nodes.Descend` | src/main/java/com/readytalk/revori/imp/Node.java:118-138 | the descent stops at the key's node or `Null`, the path plugged back giving the old root |
| `Nodes.Repair` | src/main/java/com/readytalk/revori/imp/Node.java:143-220 | the insertion loop ends in a red-black tree with the same elements |
| `Nodes.RepairStep` | src/main/java/com/readytalk/revori/imp/Node.java:147-215 | one turn of the loop keeps its state, shortens the path and keeps the elements |
| `Nodes.Located` | src/main/java/com/readytalk/revori/imp/Node.java:130-138 | where the descent stops at a node, that node is the key's |
| `Nodes.Absent` | src/main/java/com/readytalk/revori/imp/Node.java:141-146 | where the descent reaches `Null`, the key is missing and a red node there starts the repair |
| `Nodes.Delete` | src/main/java/com/readytalk/revori/imp/Node.java:257-485 | the result is red-black, holds the old elements without the key's, has no node for it, and is the old tree when the key was missing |
| `Nodes.Remove` | src/main/java/com/readytalk/revori/imp/Node.java:313-347 | removing the found node gives a red-black tree without the key's element |
| `Nodes.Relinked` | src/main/java/com/readytalk/revori/imp/Node.java:330-347 | the child linked in place of the removed node, repaired when that node was black, gives a red-black tree |
| `Nodes.Minimum` | src/main/java/com/readytalk/revori/imp/Node.java:228-239 | the walk down reaches the leftmost node, with a spine that only goes left |
| `Nodes.Rebalanced` | src/main/java/com/readytalk/revori/imp/Node.java:348-478 | the deletion loop ends in a red-black tree with the same elements |
| `Nodes.RebalanceStep` | src/main/java/com/readytalk/revori/imp/Node.java:351-473 | one turn keeps the loop state and the elements and makes progress |
| `Nodes.RedSibling` | src/main/java/com/readytalk/revori/imp/Node.java:354-374 | the red-sibling case grows the path by one, the short child's parent now red |
| `Nodes.Resolve` | src/main/java/com/readytalk/revori/imp/Node.java:376-411 | a black sibling: either the parent becomes the short child or the repair finishes |
| `Nodes.Rotate` | src/main/java/com/readytalk/revori/imp/Node.java:381-410 | a black sibling with a red child: the rotations leave the whole tree, a red-black tree once its root is painted black, holding the same elements |
| `Nodes.Missing` | src/main/java/com/readytalk/revori/imp/Node.java:302-310 | a descent that reaches `Null` leaves the tree unchanged |
| `Nodes.RemoveSingle` | src/main/java/com/readytalk/revori/imp/Node.java:313-342 | a node with at most one child is replaced by that child |
| `Nodes.RemoveSuccessor` | src/main/java/com/readytalk/revori/imp/Node.java:316-346 | a node with two children takes its successor's key and value, and the successor is removed instead |
| `Nodes.Removed` | src/main/java/com/readytalk/revori/imp/Node.java:257-485 | what is left holds the old keys without the removed one |
| `Validation.LeafCountsWithin` | src/main/java/com/readytalk/revori/imp/Node.java:539-556 | the counts the check compares are some of the counts of all paths |
| `Validation.LevelChecksExact` | src/main/java/com/readytalk/revori/imp/Node.java:512-556 | counting every path, the colour checks pass exactly for a black-rooted, balanced tree without a red-red edge |
| `Validation.RedBlackPasses` | src/main/java/com/readytalk/revori/imp/Node.java:512-556 | every red-black tree passes |
| `Validation.AsWrittenAccepts` | src/main/java/com/readytalk/revori/imp/Node.java:539-556 | the check as written accepts every tree the corrected one accepts |
| `Validation.ValidateExact` | src/main/java/com/readytalk/revori/imp/Node.java:495-558 | the corrected check accepts exactly trees that are red-black in colour and height, nested trees included |
| `Validation.ValidateAsWrittenAccepts` | src/main/java/com/readytalk/revori/imp/Node.java:530-532 | the check as written accepts every tree the corrected one accepts, nested trees included |
| `Validation.AsWrittenMissesImbalance` | src/main/java/com/readytalk/revori/imp/Node.java:539-556 | a black root over one black leaf is unbalanced, yet the check as written passes it |
| `Chains.InOrderElements` | src/main/java/com/readytalk/revori/imp/NodeStack.java:114-144 | the in-order walk visits exactly the tree's entries |
| `Chains.InOrderAscending` | src/main/java/com/readytalk/revori/imp/NodeStack.java:114-144 | in a search tree the in-order walk visits keys in ascending order |
| `Chains.PendingFacts` | src/main/java/com/readytalk/revori/imp/NodeStack.java:120-144 | from a stack down a search tree, the entries left to visit are exactly the root's entries from the node in hand's key on, ascending |
| `Chains.ChainDepth` | src/main/java/com/readytalk/revori/imp/NodeStack.java:17 | a stack down a tree is no deeper than the tree is high |
| `Chains.PendingLeft` | src/main/java/com/readytalk/revori/imp/NodeStack.java:115-117 | stepping to the left child moves its left subtree in front of the entries still to visit |
| `Chains.PendingRight` | src/main/java/com/readytalk/revori/imp/NodeStack.java:122-127 | stepping to the right child drops the node in hand from the entries still to visit |
| `Chains.AfterUp` | src/main/java/com/readytalk/revori/imp/NodeStack.java:135-137 | leaving a right child changes nothing still to visit |
| `Chains.AfterStop` | src/main/java/com/readytalk/revori/imp/NodeStack.java:139-143 | leaving a left child makes its parent the next entry |
| `Chains.NextStep` | src/main/java/com/readytalk/revori/imp/NodeStack.java:120-132 | moving to the in-order successor removes exactly the first entry still to visit |
| `NodeStacks.NodeStack.Over` | src/main/java/com/readytalk/revori/imp/NodeStack.java:27-31 | an empty stack over the given array, started on nothing |
| `NodeStacks.NodeStack.constructor` | src/main/java/com/readytalk/revori/imp/NodeStack.java:33-35 | an empty stack over a fresh array of 64 slots |
| `NodeStacks.NodeStack.Nested` | src/main/java/com/readytalk/revori/imp/NodeStack.java:37-49 | an empty stack sharing the basis's array from the basis's index, which points back to it |
| `NodeStacks.NodeStack.PopStack` | src/main/java/com/readytalk/revori/imp/NodeStack.java:51-61 | the stack is retired and its basis, no longer pointed at, is returned |
| `NodeStacks.NodeStack.Push` | src/main/java/com/readytalk/revori/imp/NodeStack.java:63-68 | the node joins the stack as the node in hand, the old one stored in the next slot |
| `NodeStacks.NodeStack.Peek` | src/main/java/com/readytalk/revori/imp/NodeStack.java:70-74 | the node that many places below the node in hand |
| `NodeStacks.NodeStack.Pop` | src/main/java/com/readytalk/revori/imp/NodeStack.java:80-95 | the stack loses its last `count` nodes, becoming empty when it pops past its base |
| `NodeStacks.NodeStack.Clear` | src/main/java/com/readytalk/revori/imp/NodeStack.java:101-104 | the stack is empty |
| `NodeStacks.NodeStack.Descend` | src/main/java/com/readytalk/revori/imp/NodeStack.java:106-112 | the stack grows by the left child for a positive direction, else the right one |
| `NodeStacks.NodeStack.Next` | src/main/java/com/readytalk/revori/imp/NodeStack.java:120-132 | the stack moves to the in-order successor: the entries still to visit lose their first one |
| `NodeStacks.NodeStack.DescendToLeftmost` | src/main/java/com/readytalk/revori/imp/NodeStack.java:114-118 | the stack goes down to the leftmost node, taking its left subtree into what is still to visit |
| `NodeStacks.NodeStack.AscendNext` | src/main/java/com/readytalk/revori/imp/NodeStack.java:134-144 | the stack moves past the node in hand's whole subtree |
| `Diffs.AnyAboveKeys` | src/com/readytalk/revori/imp/DiffIterator.java:46-88 | the search's test holds exactly when some key of the subtree passes the low bound |
| `Diffs.SpineStep` | src/com/readytalk/revori/imp/DiffIterator.java:65-70 | at a key below the bound only the right subtree can hold a key that passes |
| `Diffs.DescentMeaning` | src/com/readytalk/revori/imp/DiffIterator.java:46-88 | 1 means step left to a subtree holding a passing key, -1 means step right past a failing key, 0 means stop here |
| `Diffs.LookupElements` | src/com/readytalk/revori/imp/DiffIterator.java:264-267 | the entry a tree gives for a key is its element with that key, if any |
| `Diffs.StartHere` | src/com/readytalk/revori/imp/DiffIterator.java:112-193 | a start search stopping at a passing node leaves exactly the passing entries to visit |
| `Diffs.StartNowhere` | src/com/readytalk/revori/imp/DiffIterator.java:166-185 | a search stopping where nothing passes leaves nothing to visit |
| `Diffs.StartAfter` | src/com/readytalk/revori/imp/DiffIterator.java:137-141 | on a shared subtree, stepping past it leaves the entries after it |
| `Diffs.SharedSubtree` | src/com/readytalk/revori/imp/DiffIterator.java:133 | a subtree both trees share gives both the same entry for each of its keys |
| `Diffs.TakeFirst` | src/com/readytalk/revori/imp/DiffIterator.java:227-248 | the first pending entry is the next to report, the rest comes after it |
| `Diffs.Absent` | src/com/readytalk/revori/imp/DiffIterator.java:227-236 | a key before the other tree's first pending entry is absent from that tree |
| `Diffs.Gap` | src/com/readytalk/revori/imp/DiffIterator.java:202-249 | every key between the last reported and the next was skipped as shared |
| `Diffs.Exhausted` | src/com/readytalk/revori/imp/DiffIterator.java:250-259 | once both pending entries lie past the high bound, every remaining key was skipped |
| `Diffs.ReportOne` | src/com/readytalk/revori/imp/DiffIterator.java:227-236 | reporting one side's entry: it is that tree's and absent from the other, and nothing unreported lies before it |
| `Diffs.ReportBoth` | src/com/readytalk/revori/imp/DiffIterator.java:237-242 | reporting both sides' entries of one key, with nothing unreported before it |
| `Diffs.SkipShared` | src/com/readytalk/revori/imp/DiffIterator.java:214-221 | stepping both stacks past a shared node skips its keys and nothing else |
| `Diffs.StartAsWritten` | src/com/readytalk/revori/imp/DiffIterator.java:112-193 | the start search as written: each stack is cleared, or extends the stack it started from |
| `Diffs.StartAsWrittenLosesAncestors` | src/com/readytalk/revori/imp/DiffIterator.java:137-141 | when both searches reach a shared subtree whose root fails the low bound, both stacks are cleared, so a key held by one tree alone (12 against 13, interval from 6) is never reported |
| `DiffIterators.CompareForDescent` | src/com/readytalk/revori/imp/DiffIterator.java:46-88 | the loop decides the same as the search rule: step left, step right, or stop |
| `DiffIterators.Step` | src/com/readytalk/revori/imp/DiffIterator.java:127-161 | one stack steps down, the other stays |
| `DiffIterators.SearchStep` | src/com/readytalk/revori/imp/DiffIterator.java:116-163 | one round of the start search: it stops as the source does, or shortens the trees in hand |
| `DiffIterators.StartSearch` | src/com/readytalk/revori/imp/DiffIterator.java:116-164 | the search loop ends with both stacks stopped, or on a shared node when unchanged nodes are skipped |
| `DiffIterators.Settle` | src/com/readytalk/revori/imp/DiffIterator.java:137-185 | the stacks are cleared or kept so that exactly the passing entries, minus skipped shared keys, remain |
| `DiffIterators.ClimbBoth` | src/com/readytalk/revori/imp/DiffIterator.java:137-141 | on a shared node the search would step right from, both stacks climb past it, and the keys skipped agree in both trees |
| `DiffIterators.KeepShared` | src/com/readytalk/revori/imp/DiffIterator.java:133-141 | on a shared node the search would step left from, both stacks are kept and the shared left subtree is skipped |
| `DiffIterators.KeepOrClearBoth` | src/com/readytalk/revori/imp/DiffIterator.java:166-185 | the final test on both stacks leaves each walking from the interval's start, skipping nothing |
| `DiffIterators.ClimbPast` | src/com/readytalk/revori/imp/DiffIterator.java:137-141 | stepping past a shared subtree skips its keys |
| `DiffIterators.KeepOrClear` | src/com/readytalk/revori/imp/DiffIterator.java:166-185 | a stack at `Null` or a failing key is cleared; otherwise it keeps its entries |
| `DiffIterators.ReportFrom` | src/com/readytalk/revori/imp/DiffIterator.java:227-236 | reports the node in hand, present in its tree and absent from the other, and moves on |
| `DiffIterators.ReportPair` | src/com/readytalk/revori/imp/DiffIterator.java:237-242 | reports both nodes of a shared key and moves both stacks on |
| `DiffIterators.Start` | src/com/readytalk/revori/imp/DiffIterator.java:112-193 | the start search leaves both stacks walking the interval from its start |
| `DiffIterators.SkipBoth` | src/com/readytalk/revori/imp/DiffIterator.java:214-221 | both stacks step past a shared node whose keys agree in both trees |
| `DiffIterators.ClearBoth` | src/com/readytalk/revori/imp/DiffIterator.java:100-101 | both stacks are empty |
| `DiffIterators.ReportLower` | src/com/readytalk/revori/imp/DiffIterator.java:223-243 | reports the lower key, or both sides of an equal key |
| `DiffIterators.ReportAlone` | src/com/readytalk/revori/imp/DiffIterator.java:244-255 | reports the entry of the one stack still in the interval |
| `DiffIterators.Turn` | src/com/readytalk/revori/imp/DiffIterator.java:202-261 | one turn of the walk: skip a shared node, report a key, or stop with an empty pair |
| `DiffIterators.Report` | src/com/readytalk/revori/imp/DiffIterator.java:211-260 | reports the smaller key within the high bound, with both entries for an equal key, or finds the interval exhausted in both trees |
| `DiffIterators.Walk` | src/com/readytalk/revori/imp/DiffIterator.java:195-262 | the walk reports the next key in the interval after the last one, or ends with nothing left |
| `DiffIterators.DiffIterator.constructor` | src/com/readytalk/revori/imp/DiffIterator.java:28-44 | takes the first interval from the iterator, without having searched |
| `DiffIterators.DiffIterator.FindStart` | src/com/readytalk/revori/imp/DiffIterator.java:112-193 | the start of the current interval is found |
| `DiffIterators.DiffIterator.NextIn` | src/com/readytalk/revori/imp/DiffIterator.java:195-200 | the next key in the current interval, found by starting the search once |
| `DiffIterators.DiffIterator.Resume` | src/com/readytalk/revori/imp/DiffIterator.java:202-261 | after the start is found, the next key in the current interval |
| `DiffIterators.DiffIterator.Next` | src/com/readytalk/revori/imp/DiffIterator.java:90-110 | the next key where the trees may differ, moving through the intervals; false only when every interval is exhausted |
| `DiffIterators.DiffIterator.Restart` | src/com/readytalk/revori/imp/DiffIterator.java:98-102 | clears both stacks and takes the next interval |
| `Merges.ThreeWay` | src/main/java/com/readytalk/revori/imp/Merge.java:39-47 | defined exactly when a side is unchanged or both agree, giving the changed side |
| `Merges.ShortCircuit` | src/main/java/com/readytalk/revori/imp/Merge.java:39-47 | the whole-revision shortcuts are the three-way rule: only three distinct revisions need a key-by-key merge |
| `Merges.Decide` | src/main/java/com/readytalk/revori/imp/Merge.java:98-153 | per-key decision: right-only inserts (not secondary indexes), agreement, delete-wins, conflict only at the bottom with differing values |
| `Merges.LeafMerge` | src/main/java/com/readytalk/revori/imp/Merge.java:130-153 | the bottom-level rule leaves a key unsettled only when both forks hold it |
| `Merges.DecideIsLeafMerge` | src/main/java/com/readytalk/revori/imp/Merge.java:98-153 | at the bottom the decision is the three-way rule with delete winning |
| `Merges.KeyOf` | src/main/java/com/readytalk/revori/imp/Merge.java:155-159 | the key every present node shares |
| `Merges.Resolved` | src/main/java/com/readytalk/revori/imp/Merge.java:161-184 | the resolver's answer becomes the merged value, null deleting the key |
| `Merges.MergeKey` | src/main/java/com/readytalk/revori/imp/Merge.java:161-184 | the decision, with conflicts replaced by the resolver's answer |
| `Merges.MergeKeyAtBottom` | src/main/java/com/readytalk/revori/imp/Merge.java:98-184 | at the bottom every key ends with the three-way value, or the resolver's answer where that is unsettled |

## Left out

- Sockets, `InputStream`/`OutputStream` and standard output are objects holding byte sequences and printed events. Blocking, timeouts and partial-write retry are not modelled. A short write is fatal, as in the code.
- `malloc` failure in the client is not modelled: allocations always succeed.
- The client's `main`: argument parsing, connecting, the readline loop and history. Readline's completion callback is modelled only as the generator that `readline` calls with a state number.
- Node identity: Java compares nodes with `==`. Here nodes are values compared structurally, and the copy-on-write tokens (`getNode`) are not modelled.
- The `Null` sentinel's self-links and its corruption checks in `validate` are not modelled.
- The null-key `NullPointerException` of `delete` is not modelled; `blaze` does model it.
- Comparators: keys are integers. The column comparator is the integer order (`Compare.Order`), apart from the `Undefined` and `Dummy` sentinels.
- Nested trees are entries of a node's value. The key classes (`Table`, `Index`, `Column` objects) are not modelled beyond that.
- `NodeStack.toString` and `descendLeft` (a debugging aid and an unused step) are not modelled.
- Overflow of the 64-slot stack array is not modelled: the trees are assumed shallow enough for it, as the source assumes.
- `DiffIterator`'s interval iterator is a sequence of intervals. Its `Verbose` dumps are left out.
- A `null` interval is not modelled.
- Java's `Character.isLetter` and `isDigit` are modelled on ASCII only; `isWhitespace` is modelled exactly.
- `UnknownScan` is not part of this model beyond a leaf scan that is unknown and neither useful nor specific. `Scans.EvaluateScan` evaluates it as the unbounded interval.
- Scans.EvaluateScan: exactness is proved only for scans in `KeysExact`. The corrected union of sorted lists need not be sorted: [1, 2], [3, 4] united with [10, 11] gives [1, 2], [10, 11], [3, 4], [10, 11], and the negation of that list holds 3. An intersection of two touching intervals, such as [1, 3] and (3, 5], gives the improper (3, 3], which a union can widen to take in 3.
- The adapters' interval bounds are plan-time values. A bound that is `null` or a Boolean is modelled as the error result `NonKeyBound`. In the source, `(Comparable)` accepts both: a `null` bound becomes a `null` interval end, and a Boolean fails later in `compareTo` with `ClassCastException`.
- Client.Context.ReadInteger: the session reads lengths unsigned, the corrected decoding of the first Findings row, so a string whose length has an octet of 0x80 or more, such as one of 128 to 255 bytes, is read in full here where the program reads it as null or misreads its length. `Client.ReadIntegerAsWritten` models the sign extension of `src/client.cpp:228-231`.
- Client.Context.Execute: compares the command with `exit` and `quit` as whole sequences. `strcmp` (`src/client.cpp:353-354`) stops at the first NUL, so a byte sequence holding `exit` or `quit`, then a NUL and more bytes, would end the session there and is sent to the server here. A line from `readline` holds no NUL, so the two agree on every command the program can receive.
- `StreamUtil.writeString` and `readString` encode and decode UTF-8 (`StreamUtil.java:15`, `:27`). The model keeps strings as the raw bytes on the wire, so the replacement of malformed input on decoding is not modelled.
- `validate`'s `original` argument, which only re-validates the old tree and names it in the error, is not modelled.
- DiffIterators.DiffIterator.constructor: requires a non-empty interval list. The source calls `intervalIterator.next()` (`DiffIterator.java:43`), which throws `NoSuchElementException` on an empty one.
- Multimaps.SetMultimap.AddAll: drops the `boolean` result of `addAll`, whether the set changed; `size` records the growth. It also stands for a call on a fresh `get(key)` view, which looks the key's set up anew. A view the caller keeps caches the set it resolved (SetMultimap.java:61-75) and goes on using it after `clear()` or another view's `clear()` has detached it from the map; for example `v = get(1); v.add(2); clear(); v.add(3)` leaves `size` 1 over an empty map while `v.contains(3)` is true. Kept views are not modelled.
- Multimaps.SetMultimap.ViewAdd: stands for a call on a fresh `get(key)` view, which looks the key's set up anew. A view the caller keeps caches the set it resolved (SetMultimap.java:61-75) and goes on using it after `clear()` or another view's `clear()` has detached it from the map; for example `v = get(1); v.add(2); clear(); v.add(3)` leaves `size` 1 over an empty map while `v.contains(3)` is true. Kept views are not modelled.
- Multimaps.SetMultimap.ViewContains: stands for a call on a fresh `get(key)` view, which looks the key's set up anew. A view the caller keeps caches the set it resolved (SetMultimap.java:61-75) and goes on using it after `clear()` or another view's `clear()` has detached it from the map; for example `v = get(1); v.add(2); clear(); v.add(3)` leaves `size` 1 over an empty map while `v.contains(3)` is true. Kept views are not modelled.
- Multimaps.SetMultimap.ViewSize: stands for a call on a fresh `get(key)` view, which looks the key's set up anew. A view the caller keeps caches the set it resolved (SetMultimap.java:61-75) and goes on using it after `clear()` or another view's `clear()` has detached it from the map; for example `v = get(1); v.add(2); clear(); v.add(3)` leaves `size` 1 over an empty map while `v.contains(3)` is true. Kept views are not modelled.
- Multimaps.SetMultimap.ViewClearAsWritten: stands for a call on a fresh `get(key)` view, which looks the key's set up anew. A view the caller keeps caches the set it resolved (SetMultimap.java:61-75) and goes on using it after `clear()` or another view's `clear()` has detached it from the map; for example `v = get(1); v.add(2); clear(); v.add(3)` leaves `size` 1 over an empty map while `v.contains(3)` is true. Kept views are not modelled.
- The `SetMultimap` views' `isEmpty`, `containsAll`, `iterator` and `toString`, and the operations that throw `UnsupportedOperationException`, are not modelled.
- `DiffServer`'s listener registration, `Subscription` objects and revision diffs are not modelled. Revisions are identified by their sequence number.
- `Merge` covers the revision short cuts and the decision taken at each key. Not modelled:
  - the `MyRevisionBuilder` updates;
  - the rebuilding of secondary indexes and views, and the foreign-key checks (`Merge.java:186-351`);
  - the `MergeIterator` traversal;
  - the conflict resolver's table, column and primary-key arguments (`Merge.java:162-169`).
  The resolver is a function of the base value and the two forks' values.
- SQL parsing beyond the scanners modelled here, query planning and execution, and revision building belong to the rest of the repository and are not part of this model.
- Revisions in `SQLServer` sessions are opaque values. The new head after a commit or merge is a parameter.
- Floating point does not occur in the core.
- The revori server's `Util.convert` is not part of this model. `SqlServer.Convert` follows the `convert` of src/com/readytalk/oss/dbms/server/SQLServer.java:1270-1281: `int32` and `int64` columns parse the text with `Long.parseLong`, and `string` columns keep it.
- SqlServer.ParseLong: accepts only the ASCII digits 0 to 9, where `Long.parseLong` also accepts the other Unicode decimal digits that `Character.digit` knows.
- Whether `builder.apply` accepts a row's values is an input of `SqlServer.CopyContext.Copy` and `SqlServer.Session.ApplyCopy` (`applies`). The revision builder, with its key and constraint checks, belongs to the storage engine.
- SqlServer.Session.PushTransaction: the server's head is the session's `serverHead`, which no merge advances in this model; what `server.head()` returns after a merge lands is left to the environment.

## Findings

| source | as written | input that shows it | evidently intended | confidence | as-written member | corrected member |
|---|---|---|---|---|---|---|
| src/client.cpp:224-232 | `readInteger` widens each byte through a signed `char`, so a byte of 0x80 or more sign-extends over the higher bytes | a string of 128 bytes: its length 00 00 00 80 reads as -128 and the string as null | the four bytes read unsigned, giving 128 | not executed | `Client.WideningBreaksLengths` | `Client.ReadIntegerSpec` |
| src/com/readytalk/oss/dbms/imp/Interval.java:106-110 | on equal high ends `union` takes the inclusiveness of the high end from the low bound types | (1, 5] and (2, 5] unite to (1, 5), losing 5 | the high end is inclusive when either high end is | not executed | `Intervals.UnionAsWrittenDropsHighEnd` | `Intervals.UnionContainsOperands` |
| src/main/java/com/readytalk/revori/imp/Compare.java:117-128 | `compare(Interval, Interval)` answers "overlapping" for two apart intervals when a bound is inclusive | [5, 6] against [1, 2] gives 1, so their union would cover 3 | 2, apart | not executed | `Intervals.CompareAsWrittenMergesApart` | `Intervals.ApartIntervals` |
| src/com/readytalk/oss/dbms/imp/UnionScan.java:48-56 | the walk compares with `Compare.compare` and unites with `Interval.union` as written, so it inherits both of their discrepancies | [5, 6] united with [1, 2] gives [1, 6], which holds 3; (1, 5] united with (2, 5] gives (1, 5), which loses 5 | the union holds exactly the keys of both lists | not executed | `Scans.UnionAsWrittenSpansGap` | `Scans.UnionEvaluate` |
| src/com/readytalk/oss/dbms/imp/IntersectionScan.java:38-52 | the walk stops as soon as one list runs out, leaving the other list's current interval unchecked | [0, 10] against the negation of [5, 5], that is (-inf, 5) and (5, +inf): the result is [0, 5) and loses 7 | every key in both lists is kept | not executed | `Scans.IntersectionAsWrittenLosesKeys` | `Scans.IntersectionEvaluate` |
| server/src/main/java/com/readytalk/revori/imp/BooleanUnaryAdapter.java:52-58 | `NOT` negates its operand's scan even when that scan is only an over-approximation of the test | `NOT (c <> 5)`: the scan of `<>` is everything, its negation nothing, yet the row with 5 passes | negate only a scan that is exact, otherwise scan everything | not executed | `Adapters.NegatedInexactScan` | `Adapters.GuardedScanCovers` |
| src/com/readytalk/revori/util/SetMultimap.java:94-100 | a view's `clear` lowers `size` only when the view had already looked its set up | `put(1, 2)` then `get(1).clear()`: no pair is left but `size` is 1 | `size` drops by the size of the set cleared | not executed | `Multimaps.FreshViewClearKeepsCount` | `Multimaps.SetMultimap.ViewClear` |
| server/src/main/java/com/readytalk/revori/server/SQLServer.java:89-91 | the server numbers `Success` 3 and `Error` 4; the client reads 3 as `Error` and 4 as unknown | any success reply is printed as an error; any error reply stops the client | one numbering on both ends | not executed | `SqlServer.SuccessMisread` | `SqlServer.RespondCanonicalToEncoded` |
| src/com/readytalk/revori/imp/DiffIterator.java:137-141 | when both start searches reach one shared node whose key fails the low bound, `findStart` clears both stacks, dropping the ancestors still to visit | two trees sharing the subtree {5, 7} under root 10 and differing at 12 and 13, interval from 6: nothing is reported | step past the shared subtree and go on from its ancestors | not executed | `Diffs.StartAsWrittenLosesAncestors` | `DiffIterators.Settle` |
| src/main/java/com/readytalk/revori/imp/Node.java:539-556 | `validate` compares black-node counts only at nodes whose two children are `Null` | a black root whose only child is a black leaf: paths of 2 and 1 black nodes pass | every path counted, so the tree is refused | not executed | `Validation.AsWrittenMissesImbalance` | `Validation.ValidateExact` |
