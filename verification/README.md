# rust-http-server request parser, modelled in Dafny

This project models the request-parsing core of the `rust-http-server` crate:

- `parse_request_line`, `Request::new` and `Request::parse` (src/request.rs);
- the read–decode–parse–drain loop `request_from_reader` (src/request.rs);
- the header map with `Headers::new`, `Headers::parse` and `Headers::get` (src/headers.rs);
- the test reader `ChunkReader`, which hands out at most `num_bytes_per_read` bytes per `read` (src/chunk_reader.rs).

Everything is modelled over bytes (`Text.byte`), because every offset the code
computes is a byte offset. This covers `find("\r\n")`, slicing, the consumed
counts and `drain`. Method, target, version, header names and header values are
their UTF-8 bytes. Whitespace is the ASCII part of `char::is_whitespace`: bytes 9
to 13 and 32. An ASCII byte never occurs inside a multi-byte UTF-8 sequence, so
splitting and trimming on those bytes agree with the code's character-level
operations on well-formed input.

`std::str::from_utf8` is the predicate `Utf8.ValidUtf8`. It follows table 3-7 of
the Unicode Standard: no overlong forms, no surrogates, nothing above U+10FFFF,
no truncated sequence. `Utf8.ValidPrefix` adds the `valid_up_to` / `error_len`
view of a failed decode.

The reader behind `request_from_reader` is a sequence of `ReadResult`s, one per
call of `read`: either the bytes delivered into the 8-byte scratch buffer, or a
failure. A read past the end of the sequence returns 0 bytes.
`RequestReading.ChunkReaderReads` produces that sequence from a `ChunkReader`.

Where HTTP/1.1 would ask for more, the model follows the code:

- A `Request` has two states, `Initialized` and `Done`. There is no header phase: the loop returns as soon as the request line is parsed.
- The count `parse_request_line` returns is the offset of the CRLF. The CRLF itself is not counted, so it stays in the buffer.
- Header names are stored as written, with no lower-casing. A repeated name overwrites the earlier value instead of joining the values. `get` is an exact, case-sensitive lookup.
- The only checks on a header name are "not empty" and "holds no whitespace". No other token characters are checked.
- "/coffee HTTP/1.1" fails with `UnsupportedMethod`, because the first word is checked before the number of words.
- A read that ends inside a multi-byte character makes the whole buffer fail to decode, and the request fails with `InvalidUtf8`. See "## Findings".

## Model

| member | source | states |
|---|---|---|
| ChunkReading.NewChunkReader | src/chunk_reader.rs:11-17 | a new reader holds the given bytes and chunk size, and its cursor is at the start |
| ChunkReading.Read | src/chunk_reader.rs:21-34 | a read at the end returns 0 and changes nothing; otherwise it copies the next `min(chunk size, remaining, buffer length)` bytes of the data into the front of the buffer and advances the cursor by exactly that count; it returns 0 exactly when at the end, or when the chunk size or the buffer is empty; the rest of the buffer is untouched |
| ChunkReading.Trace | src/chunk_reader.rs:21-34 | reading until a read returns 0 yields non-empty chunks, none longer than the chunk size or the buffer |
| ChunkReading.TraceDeliversAll | src/chunk_reader.rs:21-34 | with a positive chunk size and buffer, the chunks concatenate to exactly the unread data, in order |
| ChunkReading.ReadToEnd | src/chunk_reader.rs:21-34 | a read loop terminates; what it collected is the data between the start and end cursor positions; with a positive chunk size and buffer, that is all the unread data |
| HeaderParsing.NewHeaders | src/headers.rs:8-10 | a new header map answers `None` for every name |
| HeaderParsing.Get | src/headers.rs:52-54 | a lookup finds a value exactly when that exact name is stored, and returns the stored value |
| HeaderParsing.FieldLine | src/headers.rs:29-35 | an accepted line yields a non-empty name with no whitespace and no colon, and a value with no whitespace at either end |
| HeaderParsing.ParseDecoded | src/headers.rs:24-49 | every case of the first CRLF decides the whole outcome: none gives `(0, false, None)`; one at offset 0 gives `(2, true, None)`; one at offset `n > 0` gives `InvalidFormat`, with nothing consumed or stored, exactly when `FieldLine` rejects the line before it, and otherwise `(n + 2, false, None)` with that one name stored with its value and every other name keeping its value; any error is `InvalidFormat` with nothing consumed or stored |
| HeaderParsing.Parse | src/headers.rs:12-22 | undecodable input gives `(0, false, InvalidUtf8)` and stores nothing; decodable input is handled line by line as `ParseDecoded` states |
| HeaderParsing.ParseFieldLine | src/headers.rs:24-37 | `name:value`, with whitespace other than CR before the name, after the colon and after the value, followed by CRLF and anything well-formed, stores exactly `name -> value` and consumes the line plus 2 |
| HeaderParsing.FieldLineOfBytes | src/headers.rs:29-35 | trimming and splitting a line built from a name, a value and any whitespace before the name, after the colon and after the value recovers that name and value |
| HeaderParsing.FieldLineHasNoCrlf | src/headers.rs:24 | such a line holds no CRLF, so the first CRLF found is the one that ends it |
| HeaderParsing.RejectsLineWithoutColon | src/headers.rs:39-45 | a non-empty line without a colon is `InvalidFormat`, with nothing consumed and nothing stored |
| HeaderParsing.RejectsMalformedName | src/headers.rs:35-45 | a line whose name is empty or holds whitespace is `InvalidFormat`, with nothing consumed and nothing stored |
| HeaderParsing.RemainderStaysDecodable | src/headers.rs:24-37 | after an accepted line, the unconsumed rest is still well-formed UTF-8, so the next call on it decodes |
| HeaderParsing.RepeatedNameKeepsLastValue | src/headers.rs:36 | two lines with the same name leave the second value stored |
| HeaderExamples.ValidSingleHeader | src/headers.rs:61-71 | "Host: localhost:42069\r\n\r\n" consumes 23, is not done, stores Host; "host" is not found |
| HeaderExamples.InvalidSpacingHeader | src/headers.rs:73-82 | a space between the name and the colon is an error, with nothing consumed and the call not done |
| HeaderExamples.SingleHeaderWithExtraWhitespace | src/headers.rs:84-94 | surrounding whitespace is trimmed; 30 bytes are consumed |
| HeaderExamples.ValidTwoHeaders | src/headers.rs:96-116 | two calls consume 30 then 32 bytes and leave both headers stored |
| HeaderExamples.ValidDone | src/headers.rs:118-127 | a bare CRLF is `(2, true, None)` |
| HeaderExamples.ValidEmoji | src/headers.rs:129-139 | a four-byte character in a value is stored intact; 13 bytes are consumed |
| RequestParsing.NewRequest | src/request.rs:22-27 | a new request is `Initialized` and holds no line |
| RequestParsing.LineOfParts | src/request.rs:79-115 | an accepted list of words is exactly the three words of a well-formed line. Each rejection is fixed, in the code's order of checks: no words is exactly `MissingMethod`; a first word other than GET or POST is `UnsupportedMethod`, whatever follows; a good method alone is `MissingRequestTarget`; a missing third word, or one without the `HTTP/` prefix, is `InvalidHttpVersion`; more than three words is `TooManyParts` |
| RequestParsing.ParseRequestLine | src/request.rs:74-128 | `(0, None)` exactly when no CRLF has arrived; otherwise an error or `(n, line)` with `n` the offset of the first CRLF, a well-formed line whose words are the words before that CRLF, and `n > 0` |
| RequestParsing.Parse | src/request.rs:29-41 | an initialized request passes `parse_request_line` errors through; it becomes done, holding the parsed line, exactly when a CRLF is present; a done request consumes 0 and is unchanged; a line is held exactly when the request is done |
| RequestParsing.RequestLineRoundTrip | src/request.rs:117-124 | a well-formed line followed by CRLF and anything parses back to itself, with the line's length as the count |
| RequestParsing.LineOfOwnParts | src/request.rs:79-124 | the words of a well-formed line are accepted and rebuild that line |
| RequestParsing.TokensOfRequestLine | src/request.rs:76-77 | splitting a well-formed line on whitespace gives its three words |
| RequestParsing.ParseJoinedLine | src/request.rs:74-124 | words joined by spaces and followed by CRLF give what `LineOfParts` decides for those words, with the joined length as the count |
| RequestParsing.AcceptsWellFormedWords | src/request.rs:75-124 | any first line whose whitespace-separated words are those of a well-formed line, whatever leading, repeated, tab or trailing whitespace surrounds them, is accepted as that line, with the offset of the first CRLF as the count |
| RequestParsing.RejectsIllFormedWords | src/request.rs:75-115 | whatever whitespace separates the words before the first CRLF, a rejected line reports exactly the error `LineOfParts` gives for those words |
| RequestParsing.ParseRequestLineExtend | src/request.rs:75-76 | once a CRLF is present, appending bytes does not change the outcome |
| RequestReading.Drive | src/request.rs:44-72 | the loop succeeds only with a done request that holds a line; a read of 0 bytes, or an exhausted reader, fails with `UnexpectedEof`; a failed read fails with `ReadFailed` |
| RequestReading.DriveStep | src/request.rs:50-70 | after a non-empty read: the buffer fails to decode, or the parse fails, or the request is done and returned, or the loop continues on the buffer minus the consumed prefix |
| RequestReading.RequestFromReader | src/request.rs:44-72 | the imperative loop returns what `Drive` does, and succeeds only with a done request that holds a line; its invariant keeps the buffer equal to every byte the reads delivered so far, since bytes are consumed only on the call that completes the request |
| RequestReading.OneShot | src/request.rs:44-72 | when everything arrives in one read, success means non-empty, well-formed input whose first line parses, and the result holds that line |
| RequestReading.ChunkingInvariant | src/request.rs:58-66 | when every read ends on a character boundary, any split of the input into reads gives the one-read outcome |
| RequestReading.ChunkReaderOutcome | src/request.rs:44-72 | ASCII input through a `ChunkReader` of any positive chunk size gives the one-read outcome |
| RequestReading.DriveTolerant | src/request.rs:44-72 | the corrected loop succeeds only with a done request that holds a line; a read of 0 bytes, or an exhausted reader, fails with `UnexpectedEof`; a failed read fails with `ReadFailed` |
| RequestReading.TolerantStep | src/request.rs:60-70 | after a non-empty read, the corrected loop parses only the decoded prefix of the buffer: a parse error is returned, a done request is returned, otherwise the loop continues on the buffer minus the consumed prefix, with any unfinished character still in it |
| RequestReading.TolerantChunkingInvariant | src/request.rs:58-66 | with the corrected decoding step, any split of well-formed input into reads, even through a character, gives the one-read outcome |
| RequestReading.TolerantChunkReaderOutcome | src/request.rs:44-72 | with the corrected step, well-formed input through a `ChunkReader` of any positive chunk size gives the one-read outcome |
| RequestExamples.GoodRequestAnyChunking | src/request.rs:44-72 | a well-formed ASCII request line, followed by CRLF, read in chunks of any positive size, gives a done request holding that line |
| RequestExamples.BadRequestAnyChunking | src/request.rs:44-72 | a first line `LineOfParts` rejects gives that same error, in chunks of any positive size |
| RequestExamples.GoodGetRequestLine | src/request.rs:139-161 | "GET / HTTP/1.1" read one byte at a time is done with GET, "/", "1.1" |
| RequestExamples.GoodGetRequestLineWithPath | src/request.rs:163-185 | "GET /coffee HTTP/1.1" read three bytes at a time is done with GET, "/coffee", "1.1" |
| RequestExamples.InvalidNumberOfPartsInRequestLine | src/request.rs:187-199 | "/coffee HTTP/1.1" fails, with `UnsupportedMethod` |
| RequestExamples.GoodPostRequestLine | src/request.rs:201-222 | "POST / HTTP/1.1" through a cursor is done with POST, "/", "1.1" |
| RequestExamples.InvalidOutOfOrderRequestLine | src/request.rs:224-236 | "/ GET HTTP/1.1" fails, with `UnsupportedMethod` |
| RequestExamples.RequestLineNotYetComplete | src/request.rs:127 | a line without its CRLF is `(0, None)` |
| RequestExamples.RequestLineMissingMethod | src/request.rs:79-81 | an empty first line is `MissingMethod` |
| RequestExamples.RequestLineMissingTarget | src/request.rs:94-96 | "GET" alone is `MissingRequestTarget` |
| RequestExamples.RequestLineMissingVersion | src/request.rs:99-108 | "GET /" is `InvalidHttpVersion` |
| RequestExamples.RequestLineInvalidVersion | src/request.rs:99-108 | "GET / 1.1", whose version lacks the `HTTP/` prefix, is `InvalidHttpVersion` |
| RequestExamples.RequestLineTooManyParts | src/request.rs:110-115 | "GET / HTTP/1.1 x" is `TooManyParts` |
| RequestExamples.PaddedLineAccepted | src/request.rs:75-124 | the three words of a well-formed line, with any CR-free whitespace before, between and after them, followed by CRLF, are accepted as that line, with the line's length as the count |
| RequestExamples.PaddedLineRejected | src/request.rs:75-115 | three words that `LineOfParts` rejects, with any CR-free whitespace before, between and after them, followed by CRLF, give the error `LineOfParts` gives |
| RequestExamples.LeadingSpaceUnsupportedMethod | src/request.rs:83-92 | " PUT / HTTP/1.1" is `UnsupportedMethod`: the leading space is skipped and the method is checked first |
| RequestExamples.IrregularSpacingAccepted | src/request.rs:76-77 | " GET  /\tHTTP/1.1 " is accepted as GET, "/", "1.1": leading, doubled, tab and trailing whitespace only separate words |
| RequestExamples.SplitCharacterRejected | src/request.rs:58-61 | "GET /😄 HTTP/1.1\r\n" split after the emoji's first byte fails with `InvalidUtf8`, although read whole, or through the corrected loop, it parses |
| Utf8.ValidUtf8 | src/headers.rs:13-21 | the input `from_utf8` accepts: characters one after another, each matching a row of table 3-7 (its properties are stated by `Utf8.ValidPrefix`, `Utf8.ValidPrefixOfTruncated` and `Utf8.PrefixOfValidDecodes` below) |
| Utf8.ValidPrefix | src/request.rs:60-61 | `Some(k)` means the first `k` bytes are well-formed and the rest is empty or the start of a character still to come; the answer is `Some` of the whole length exactly when the bytes are well-formed |
| Utf8.ValidPrefixOfTruncated | src/request.rs:60-61 | conversely, a well-formed prefix followed by nothing or by the start of a character still to come decodes exactly up to that prefix, so `None` means an invalid byte sequence |
| Utf8.PrefixOfValidDecodes | src/request.rs:58-61 | a prefix of well-formed input never holds an invalid sequence: at worst it stops inside a character |
| Utf8.SplitAfterAscii | src/headers.rs:24-37 | cutting well-formed input after an ASCII byte leaves two well-formed halves |
| Text.Tokens | src/request.rs:77 | `split_whitespace` gives non-empty words that hold no whitespace |
| Text.TokensOfJoin | src/request.rs:77 | splitting words joined by single spaces, after any leading whitespace, gives those words back |
| Text.FindCrlf | src/request.rs:75 | the offset of the first CRLF, or none exactly when there is none |
| Text.TrimStart | src/headers.rs:29 | the result is a suffix of the input, what was removed is all whitespace, and the result does not start with whitespace |
| Text.TrimEnd | src/headers.rs:29 | the result is a prefix of the input, what was removed is all whitespace, and the result does not end with whitespace |
| Text.Trim | src/headers.rs:29 | the result neither starts nor ends with whitespace, and it is empty exactly when the input is all whitespace |
| Text.SplitOnce | src/headers.rs:30-32 | a split at the first occurrence of the separator, which the part before it does not hold; none exactly when the separator does not occur |
| Text.StripPrefix | src/request.rs:99-101 | the rest of the word exactly when the word starts with the prefix, and the word is the prefix followed by that rest |

## Left out

- src/main.rs, src/lib.rs and src/bin/tcp_listener.rs are not part of this model, and none of them belongs to the parser.
  - src/main.rs is a demo. A thread reads a file in 8-byte chunks and decodes each chunk lossily, replacing invalid bytes. It splits the text on `\n` and sends each completed line over a channel. A final line without `\n` is dropped.
  - src/bin/tcp_listener.rs accepts TCP connections, runs `request_from_reader` on each one and prints the parsed request line.
  - src/lib.rs only declares and re-exports the modules.
- `io::Error` values and their message strings are not modelled. Each error is a constructor of `RequestError` or `HeaderError`. A failing `read` is `ReadFailed`, whatever its kind.
- The header map is a `map`. Iteration order and hashing of the `HashMap` play no part in the code and are not modelled.
- Whitespace is ASCII only. `char::is_whitespace` also accepts Unicode spaces such as U+00A0 and U+2003. A request line or header holding one of those is split or trimmed differently by the code.
- ChunkReading.Read: does not model the `usize` overflow of `self.pos + self.num_bytes_per_read` (src/chunk_reader.rs:26). With a chunk size near `usize::MAX`, the second read panics in the code: on the overflow in a debug build, and on a slice whose end lies before its start in a release build. The model adds without bound and hands out the rest of the data. So `ChunkReading.Trace`, `ChunkReading.TraceDeliversAll`, `ChunkReading.ReadToEnd`, `RequestReading.ChunkReaderOutcome`, `RequestReading.TolerantChunkReaderOutcome`, `RequestExamples.GoodRequestAnyChunking` and `RequestExamples.BadRequestAnyChunking` hold for every positive chunk size only in the model; in the code they hold while the position plus the chunk size fits in a `usize`, which covers the sizes 1, 3 and 8 of the tests.
- The other offsets and counts (`find`, `n + 2`, `drain`) are unbounded integers in the model. In the code they are bounded by the length of a buffer in memory and cannot overflow.
- The `Cursor` of the tests is modelled as a `ChunkReader` with a chunk size of 8. A `Cursor` fills the whole 8-byte scratch buffer when it can, which is the same sequence of reads.
- `ChunkReader::new` takes a `&str`. The model accepts any bytes. The tests use UTF-8 literals only.
- Reads are not required to deliver at most 8 bytes, the size of the scratch buffer. The loop's outcome does not depend on that bound.
- HeaderParsing.ParseFieldLine: requires the whitespace around the name and value to hold no CR. The code also accepts a lone CR there, as long as it is not followed by LF; such a CR could instead join the LF of the next run into an earlier CRLF, so that case is left to `HeaderParsing.ParseDecoded`, whose contract covers every input. `HeaderParsing.FieldLineOfBytes` takes any whitespace.
- RequestReading.RequestFromReader: states the relation between the buffer and the bytes read as a loop invariant, not in the postcondition. The postcondition ties the method to `Drive`, and `DriveStep` states the per-step behaviour.

## Findings

| source | as written | input that shows it | evidently intended | confidence | as-written member | corrected member |
|---|---|---|---|---|---|---|
| src/request.rs:58-61 | after every read the whole buffer must decode, so a read that ends inside a multi-byte character fails the request with `InvalidUtf8` | "GET /😄 HTTP/1.1\r\n" whose first read ends after the emoji's first byte (F0) | decoding the accumulated buffer should tolerate a character split across two reads, and keep the unfinished bytes for the next read | not executed | RequestExamples.SplitCharacterRejected | RequestReading.DriveTolerant |

Under the corrected step, a decode failure whose only problem is an unfinished
character at the end of the buffer is not an error. `RequestReading.DriveTolerant`
parses the well-formed prefix and keeps the unfinished bytes in the buffer.
`RequestReading.TolerantChunkingInvariant` proves that any split of well-formed
input into reads then gives the outcome of a single read.

The reads in the crate's own tests end on character boundaries, because they are
ASCII. Under that condition `RequestReading.ChunkingInvariant` proves the same
for the loop as written.
