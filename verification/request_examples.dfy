/**
  The unit tests of src/request.rs, restated as lemmas about `request_from_reader`
  (`RequestReading.Drive`) reading through a `ChunkReader`, together with one example
  for each error `parse_request_line` can report. Test data is written as byte
  sequences; each constant's comment gives its text.
*/
module RequestExamples {
  import opened Wrappers
  import opened Text
  import opened Utf8
  import opened ChunkReading
  import opened RequestParsing
  import opened RequestReading
  import HeaderExamples

  /** "/" */
  const ROOT: seq<byte> := [47]
  /** "/coffee" */
  const COFFEE: seq<byte> := [47, 99, 111, 102, 102, 101, 101]
  /** "1.1" */
  const V1_1: seq<byte> := [49, 46, 49]
  /** "PUT" */
  const PUT: seq<byte> := [80, 85, 84]
  /** "x" */
  const EXTRA: seq<byte> := [120]
  /** A newline and the twelve spaces that indent each header line of the test requests */
  const NL_INDENT: seq<byte> := [10, 32, 32, 32, 32, 32, 32, 32, 32, 32, 32, 32, 32]
  /** "Host: localhost:42069" */
  const HOST_LINE: seq<byte> := [72, 111, 115, 116, 58, 32, 108, 111, 99, 97, 108, 104, 111, 115, 116, 58, 52, 50, 48, 54, 57]
  /** "User-Agent: curl/7.81.0" */
  const USER_AGENT_LINE: seq<byte> := [85, 115, 101, 114, 45, 65, 103, 101, 110, 116, 58, 32, 99, 117, 114, 108, 47, 55, 46, 56, 49, 46, 48]
  // "Accept: */*"
  const ACCEPT_LINE: seq<byte> := [65, 99, 99, 101, 112, 116, 58, 32, 42, 47, 42]

  /**
    What follows the request line in every test request: each header line comes after
    a newline and the indentation of the multi-line string literal that holds it.
  */
  function TestTail(): seq<byte> {
    IndentedLine(HOST_LINE) + IndentedLine(USER_AGENT_LINE) + IndentedLine(ACCEPT_LINE) + CRLF
  }

  function IndentedLine(line: seq<byte>): seq<byte> {
    NL_INDENT + line + CRLF
  }

  /** `std::io::Cursor` read into the 8-byte scratch buffer: up to 8 bytes per read, like a `ChunkReader` of 8. */
  function CursorReads(data: seq<byte>): seq<ReadResult> {
    ChunkReaderReads(NewChunkReader(data, 8))
  }

  lemma HeaderLinesAreAscii()
    ensures IsAscii(NL_INDENT) && IsAscii(HOST_LINE) && IsAscii(USER_AGENT_LINE) && IsAscii(ACCEPT_LINE)
  {
  }

  /** A header line of the test requests, after its newline and indentation, is ASCII. */
  lemma IndentedLineIsAscii(line: seq<byte>)
    requires IsAscii(line)
    ensures IsAscii(IndentedLine(line))
  {
    HeaderLinesAreAscii();
    AsciiConcat(NL_INDENT, line);
    AsciiConcat(NL_INDENT + line, CRLF);
  }

  lemma TestTailIsAscii()
    ensures IsAscii(TestTail())
  {
    HeaderLinesAreAscii();
    var header1 := IndentedLine(HOST_LINE);
    var header2 := IndentedLine(USER_AGENT_LINE);
    var header3 := IndentedLine(ACCEPT_LINE);
    IndentedLineIsAscii(HOST_LINE);
    IndentedLineIsAscii(USER_AGENT_LINE);
    IndentedLineIsAscii(ACCEPT_LINE);
    AsciiConcat(header1, header2);
    AsciiConcat(header1 + header2, header3);
    AsciiConcat(header1 + header2 + header3, CRLF);
  }

  /**
    A well-formed request line, followed by CRLF and any ASCII bytes, read through a
    `ChunkReader` of any positive chunk size: the request is done and holds that line.
  */
  lemma GoodRequestAnyChunking(l: RequestLine, rest: seq<byte>, bytesPerRead: nat)
    requires IsWellFormed(l) && bytesPerRead > 0
    requires IsAscii(RequestLineBytes(l) + CRLF + rest)
    ensures Drive(NewRequest(), [], ChunkReaderReads(NewChunkReader(RequestLineBytes(l) + CRLF + rest, bytesPerRead)))
      == Ok(Request(Some(l), Done))
  {
    var data := RequestLineBytes(l) + CRLF + rest;
    ChunkReaderOutcome(data, bytesPerRead);
    AsciiIsValid(data);
    RequestLineRoundTrip(l, rest);
  }

  /**
    A first line whose words `parse_request_line` rejects, read through a `ChunkReader`
    of any positive chunk size: the same error, however the bytes arrive.
  */
  lemma BadRequestAnyChunking(ts: seq<seq<byte>>, rest: seq<byte>, bytesPerRead: nat)
    requires AllTokens(ts)
    requires LineOfParts(ts).Err? && bytesPerRead > 0
    requires IsAscii(JoinSpaced(ts) + CRLF + rest)
    ensures Drive(NewRequest(), [], ChunkReaderReads(NewChunkReader(JoinSpaced(ts) + CRLF + rest, bytesPerRead)))
      == Err(LineOfParts(ts).error)
  {
    var data := JoinSpaced(ts) + CRLF + rest;
    ChunkReaderOutcome(data, bytesPerRead);
    AsciiIsValid(data);
    ParseJoinedLine(ts, rest);
  }

  lemma TestRequestIsAscii(l: RequestLine)
    requires IsAscii(RequestLineBytes(l))
    ensures IsAscii(RequestLineBytes(l) + CRLF + TestTail())
  {
    AsciiConcat(RequestLineBytes(l), CRLF);
    TestTailIsAscii();
    AsciiConcat(RequestLineBytes(l) + CRLF, TestTail());
  }

  /** `test_good_get_request_line`: one byte per read. */
  lemma GoodGetRequestLine()
    ensures var l := RequestLine(GET, ROOT, V1_1);
      Drive(NewRequest(), [], ChunkReaderReads(NewChunkReader(RequestLineBytes(l) + CRLF + TestTail(), 1)))
      == Ok(Request(Some(l), Done))
  {
    var l := RequestLine(GET, ROOT, V1_1);
    TestRequestIsAscii(l);
    GoodRequestAnyChunking(l, TestTail(), 1);
  }

  /** `test_good_get_request_line_with_path`: three bytes per read. */
  lemma GoodGetRequestLineWithPath()
    ensures var l := RequestLine(GET, COFFEE, V1_1);
      Drive(NewRequest(), [], ChunkReaderReads(NewChunkReader(RequestLineBytes(l) + CRLF + TestTail(), 3)))
      == Ok(Request(Some(l), Done))
  {
    var l := RequestLine(GET, COFFEE, V1_1);
    TestRequestIsAscii(l);
    GoodRequestAnyChunking(l, TestTail(), 3);
  }

  /** `test_good_post_request_line`: read through a `Cursor`. */
  lemma GoodPostRequestLine()
    ensures var l := RequestLine(POST, ROOT, V1_1);
      Drive(NewRequest(), [], CursorReads(RequestLineBytes(l) + CRLF + TestTail())) == Ok(Request(Some(l), Done))
  {
    var l := RequestLine(POST, ROOT, V1_1);
    TestRequestIsAscii(l);
    GoodRequestAnyChunking(l, TestTail(), 8);
  }

  /**
    `test_invalid_number_of_parts_in_request_line`: "/coffee HTTP/1.1" fails, and it
    fails on its first word, before the number of words is looked at.
  */
  lemma InvalidNumberOfPartsInRequestLine()
    ensures Drive(NewRequest(), [], CursorReads(JoinSpaced([COFFEE, HTTP_PREFIX + V1_1]) + CRLF + TestTail()))
      == Err(UnsupportedMethod)
  {
    var ts := [COFFEE, HTTP_PREFIX + V1_1];
    assert JoinSpaced(ts) == COFFEE + [SPACE] + (HTTP_PREFIX + V1_1);
    AsciiConcat(JoinSpaced(ts), CRLF);
    TestTailIsAscii();
    AsciiConcat(JoinSpaced(ts) + CRLF, TestTail());
    BadRequestAnyChunking(ts, TestTail(), 8);
  }

  /** `test_invalid_out_of_order_request_line`: "/ GET HTTP/1.1" fails on its first word. */
  lemma InvalidOutOfOrderRequestLine()
    ensures Drive(NewRequest(), [], CursorReads(JoinSpaced([ROOT, GET, HTTP_PREFIX + V1_1]) + CRLF + TestTail()))
      == Err(UnsupportedMethod)
  {
    var ts := [ROOT, GET, HTTP_PREFIX + V1_1];
    assert ts[1..] == [GET, HTTP_PREFIX + V1_1];
    assert JoinSpaced(ts[1..]) == GET + [SPACE] + (HTTP_PREFIX + V1_1);
    assert JoinSpaced(ts) == ROOT + [SPACE] + (GET + [SPACE] + (HTTP_PREFIX + V1_1));
    AsciiConcat(JoinSpaced(ts), CRLF);
    TestTailIsAscii();
    AsciiConcat(JoinSpaced(ts) + CRLF, TestTail());
    BadRequestAnyChunking(ts, TestTail(), 8);
  }

  lemma LastLine(ts: seq<seq<byte>>)
    requires AllTokens(ts)
    ensures ParseRequestLine(JoinSpaced(ts) + CRLF) ==
      match LineOfParts(ts)
      case Err(e) => Err(e)
      case Ok(l) => Ok((|JoinSpaced(ts)|, Some(l)))
  {
    var empty: seq<byte> := [];
    ParseJoinedLine(ts, empty);
    assert JoinSpaced(ts) + CRLF + empty == JoinSpaced(ts) + CRLF;
  }

  /** Before any CRLF there is nothing to parse yet: `(0, None)`, no error. */
  lemma RequestLineNotYetComplete()
    ensures ParseRequestLine(RequestLineBytes(RequestLine(GET, ROOT, V1_1))) == Ok((0, None))
  {
    RequestLineHasNoCrlf(RequestLine(GET, ROOT, V1_1));
  }

  /** An empty first line: "missing method". */
  lemma RequestLineMissingMethod()
    ensures ParseRequestLine(CRLF) == Err(MissingMethod)
  {
    LastLine([]);
    assert JoinSpaced([]) + CRLF == CRLF;
  }

  /** "GET": "missing request target". */
  lemma RequestLineMissingTarget()
    ensures ParseRequestLine(GET + CRLF) == Err(MissingRequestTarget)
  {
    LastLine([GET]);
  }

  lemma JoinTwo(a: seq<byte>, b: seq<byte>)
    ensures JoinSpaced([a, b]) == a + [SPACE] + b
  {
    assert [a, b][1..] == [b];
  }

  lemma JoinThree(a: seq<byte>, b: seq<byte>, c: seq<byte>)
    ensures JoinSpaced([a, b, c]) == a + [SPACE] + b + [SPACE] + c
  {
    assert [a, b, c][1..] == [b, c];
    JoinTwo(b, c);
  }

  lemma JoinFour(a: seq<byte>, b: seq<byte>, c: seq<byte>, d: seq<byte>)
    ensures JoinSpaced([a, b, c, d]) == a + [SPACE] + b + [SPACE] + c + [SPACE] + d
  {
    assert [a, b, c, d][1..] == [b, c, d];
    JoinThree(b, c, d);
  }

  /** "GET /": "missing or invalid http version". */
  lemma RequestLineMissingVersion()
    ensures ParseRequestLine(GET + [SPACE] + ROOT + CRLF) == Err(InvalidHttpVersion)
  {
    LastLine([GET, ROOT]);
    JoinTwo(GET, ROOT);
  }

  /** "GET / 1.1": the version lacks its `HTTP/` prefix, "missing or invalid http version". */
  lemma RequestLineInvalidVersion()
    ensures ParseRequestLine(GET + [SPACE] + ROOT + [SPACE] + V1_1 + CRLF) == Err(InvalidHttpVersion)
  {
    assert StripPrefix(V1_1, HTTP_PREFIX).None?;
    LastLine([GET, ROOT, V1_1]);
    JoinThree(GET, ROOT, V1_1);
  }

  /** "GET / HTTP/1.1 x": "too many parts in request line". */
  lemma RequestLineTooManyParts()
    ensures ParseRequestLine(GET + [SPACE] + ROOT + [SPACE] + (HTTP_PREFIX + V1_1) + [SPACE] + EXTRA + CRLF) == Err(TooManyParts)
  {
    var version := HTTP_PREFIX + V1_1;
    assert StripPrefix(version, HTTP_PREFIX) == Some(V1_1);
    assert NoWhitespace(version);
    LastLine([GET, ROOT, version, EXTRA]);
    JoinFour(GET, ROOT, version, EXTRA);
  }

  /** " GET  /\tHTTP/1.1 ": leading, doubled, tab and trailing whitespace around the words of "GET / HTTP/1.1". */
  function IrregularLine(): seq<byte> {
    [SPACE] + GET + ([SPACE, SPACE] + ROOT + ([TAB] + (HTTP_PREFIX + V1_1) + [SPACE]))
  }

  /** Three words, each after a run of whitespace (the first run may be empty), and trailing whitespace. */
  lemma PaddedWords(w1: seq<byte>, a: seq<byte>, w2: seq<byte>, b: seq<byte>, w3: seq<byte>, c: seq<byte>, w4: seq<byte>)
    requires AllWhitespace(w1) && AllWhitespace(w2) && AllWhitespace(w3) && AllWhitespace(w4)
    requires w2 != [] && w3 != [] && IsToken(a) && IsToken(b) && IsToken(c)
    ensures Tokens(w1 + a + (w2 + b + (w3 + c + w4))) == [a, b, c]
  {
    var tail2 := w2 + b + (w3 + c + w4);
    assert tail2[0] == w2[0];
    ConsTwo(a, b, c);
    PaddedTwoWords(w2, b, w3, c, w4);
    WordBeforeWords(w1, a, tail2, [b, c]);
  }

  lemma PaddedTwoWords(w2: seq<byte>, b: seq<byte>, w3: seq<byte>, c: seq<byte>, w4: seq<byte>)
    requires AllWhitespace(w2) && AllWhitespace(w3) && AllWhitespace(w4)
    requires w3 != [] && IsToken(b) && IsToken(c)
    ensures Tokens(w2 + b + (w3 + c + w4)) == [b, c]
  {
    var tail3 := w3 + c + w4;
    assert tail3[0] == w3[0];
    assert [b] + [c] == [b, c];
    assert Tokens(tail3) == [c] by {
      TokensCons(w3, c, w4);
      TokensOfWhitespace(w4);
    }
    WordBeforeWords(w2, b, tail3, [c]);
  }

  /** A word after whitespace, then words after whitespace: the word comes first. */
  lemma WordBeforeWords(w: seq<byte>, t: seq<byte>, rest: seq<byte>, ts: seq<seq<byte>>)
    requires AllWhitespace(w) && IsToken(t)
    requires rest != [] && IsWhitespace(rest[0]) && Tokens(rest) == ts
    ensures Tokens(w + t + rest) == [t] + ts
  {
    TokensCons(w, t, rest);
  }

  lemma ConsTwo<T>(a: T, b: T, c: T)
    ensures [a] + [b, c] == [a, b, c]
  {
  }

  /** Whitespace without CR around tokens makes a line without CR. */
  lemma PaddedWordsNoCr(w1: seq<byte>, a: seq<byte>, w2: seq<byte>, b: seq<byte>, w3: seq<byte>, c: seq<byte>, w4: seq<byte>)
    requires IsToken(a) && IsToken(b) && IsToken(c)
    requires CR !in w1 && CR !in w2 && CR !in w3 && CR !in w4
    ensures CR !in w1 + a + (w2 + b + (w3 + c + w4))
  {
    assert CR !in a && CR !in b && CR !in c by {
      assert IsWhitespace(CR);
    }
  }

  /** A first line without CR whose words are those of a well-formed line is accepted as that line. */
  lemma AcceptedLine(line: seq<byte>, l: RequestLine)
    requires CR !in line && IsWellFormed(l) && Tokens(line) == Parts(l)
    ensures ParseRequestLine(line + CRLF) == Ok((|line|, Some(l)))
  {
    CrlfEndsLine(line);
    AcceptsWellFormedWords(line + CRLF, l);
  }

  /** The CRLF after a line without CR is the first one. */
  lemma CrlfEndsLine(line: seq<byte>)
    requires CR !in line
    ensures FindCrlf(line + CRLF) == Some(|line|) && (line + CRLF)[..|line|] == line
  {
    assert line + CRLF + [] == line + CRLF;
    assert !ContainsCrlf(line) by {
      assert forall j :: 0 <= j < |line| ==> line[j] != CR;
    }
    FirstCrlfAfterLine(line, []);
  }

  /** A well-formed line's words with whitespace runs other than CR around them are accepted as that line. */
  lemma PaddedLineAccepted(w1: seq<byte>, w2: seq<byte>, w3: seq<byte>, w4: seq<byte>, l: RequestLine)
    requires AllWhitespace(w1) && AllWhitespace(w2) && AllWhitespace(w3) && AllWhitespace(w4)
    requires CR !in w1 && CR !in w2 && CR !in w3 && CR !in w4
    requires w2 != [] && w3 != [] && IsWellFormed(l)
    ensures var line := w1 + l.requestMethod + (w2 + l.requestTarget + (w3 + (HTTP_PREFIX + l.httpVersion) + w4));
      ParseRequestLine(line + CRLF) == Ok((|line|, Some(l)))
  {
    var version := HTTP_PREFIX + l.httpVersion;
    NoWhitespaceConcat(HTTP_PREFIX, l.httpVersion);
    assert IsToken(l.requestMethod) && IsToken(l.requestTarget) && IsToken(version);
    PaddedWords(w1, l.requestMethod, w2, l.requestTarget, w3, version, w4);
    PaddedWordsNoCr(w1, l.requestMethod, w2, l.requestTarget, w3, version, w4);
    AcceptedLine(w1 + l.requestMethod + (w2 + l.requestTarget + (w3 + version + w4)), l);
  }

  /** Three words that `LineOfParts` rejects, with CR-free whitespace around them, give its error. */
  lemma PaddedLineRejected(w1: seq<byte>, a: seq<byte>, w2: seq<byte>, b: seq<byte>, w3: seq<byte>, c: seq<byte>, w4: seq<byte>)
    requires AllWhitespace(w1) && AllWhitespace(w2) && AllWhitespace(w3) && AllWhitespace(w4)
    requires CR !in w1 && CR !in w2 && CR !in w3 && CR !in w4
    requires w2 != [] && w3 != [] && IsToken(a) && IsToken(b) && IsToken(c)
    requires LineOfParts([a, b, c]).Err?
    ensures ParseRequestLine(w1 + a + (w2 + b + (w3 + c + w4)) + CRLF) == Err(LineOfParts([a, b, c]).error)
  {
    var line := w1 + a + (w2 + b + (w3 + c + w4));
    PaddedWords(w1, a, w2, b, w3, c, w4);
    PaddedWordsNoCr(w1, a, w2, b, w3, c, w4);
    RejectedLine(line, [a, b, c]);
  }

  lemma RejectedLine(line: seq<byte>, ts: seq<seq<byte>>)
    requires CR !in line && Tokens(line) == ts && AllTokens(ts) && LineOfParts(ts).Err?
    ensures ParseRequestLine(line + CRLF) == Err(LineOfParts(ts).error)
  {
    CrlfEndsLine(line);
    RejectsIllFormedWords(line + CRLF, |line|);
  }

  /**
    " PUT / HTTP/1.1": after the leading space is skipped, the first word is checked
    first, so the error is "unsupported method".
  */
  lemma LeadingSpaceUnsupportedMethod()
    ensures ParseRequestLine([SPACE] + PUT + ([SPACE] + ROOT + ([SPACE] + (HTTP_PREFIX + V1_1) + [])) + CRLF) == Err(UnsupportedMethod)
  {
    var version := HTTP_PREFIX + V1_1;
    assert IsToken(PUT) && IsToken(ROOT) && IsToken(version);
    assert LineOfParts([PUT, ROOT, version]) == Err(UnsupportedMethod);
    assert AllWhitespace([SPACE]) && AllWhitespace([]);
    PaddedLineRejected([SPACE], PUT, [SPACE], ROOT, [SPACE], version, []);
  }

  /** Irregular spacing is accepted: the words, not the whitespace, make the request line. */
  lemma IrregularSpacingAccepted()
    ensures ParseRequestLine(IrregularLine() + CRLF) == Ok((|IrregularLine()|, Some(RequestLine(GET, ROOT, V1_1))))
  {
    var l := RequestLine(GET, ROOT, V1_1);
    assert IsWellFormed(l);
    assert AllWhitespace([SPACE]) && AllWhitespace([SPACE, SPACE]) && AllWhitespace([TAB]);
    PaddedLineAccepted([SPACE], [SPACE, SPACE], [TAB], [SPACE], l);
  }

  // ---------------------------------------------------------------------------
  // A character split across two reads
  // ---------------------------------------------------------------------------

  /** "GET /😄 HTTP/1.1": a well-formed request line whose target holds a four-byte character. */
  function EmojiLine(): (l: RequestLine)
    ensures IsWellFormed(l)
  {
    var target := ROOT + HeaderExamples.EMOJI;
    assert forall i :: 0 <= i < |target| ==> !IsWhitespace(target[i]);
    RequestLine(GET, target, V1_1)
  }

  /** The emoji request, with the first read ending after the first byte of the emoji. */
  function SplitChunks(): seq<seq<byte>> {
    [GET + [SPACE] + ROOT + HeaderExamples.EMOJI[..1], HeaderExamples.EMOJI[1..] + [SPACE] + HTTP_PREFIX + V1_1 + CRLF]
  }

  lemma SplitChunksFlatten()
    ensures Flatten(SplitChunks()) == RequestLineBytes(EmojiLine()) + CRLF
  {
    var c := SplitChunks();
    assert c[1..] == [c[1]];
    assert Flatten([c[1]]) == c[1] + Flatten([]);
    assert HeaderExamples.EMOJI == HeaderExamples.EMOJI[..1] + HeaderExamples.EMOJI[1..];
  }

  lemma EmojiIsValid()
    ensures ValidUtf8(HeaderExamples.EMOJI)
  {
    assert CharWidth(HeaderExamples.EMOJI) == 4;
    assert HeaderExamples.EMOJI[4..] == [];
  }

  /** The emoji request line and its CRLF: ASCII around the emoji. */
  lemma EmojiRequestBytes()
    ensures RequestLineBytes(EmojiLine()) + CRLF == (GET + [SPACE] + ROOT) + HeaderExamples.EMOJI + ([SPACE] + HTTP_PREFIX + V1_1 + CRLF)
  {
  }

  lemma EmojiRequestIsValid()
    ensures ValidUtf8(RequestLineBytes(EmojiLine()) + CRLF)
  {
    var head := GET + [SPACE] + ROOT;
    var tail := [SPACE] + HTTP_PREFIX + V1_1 + CRLF;
    assert IsAscii(head) && IsAscii(tail);
    EmojiIsValid();
    ValidBetweenAscii(head, HeaderExamples.EMOJI, tail);
    EmojiRequestBytes();
  }

  /**
    `request_from_reader` as written decodes the whole buffer after every read, so the
    first read, which ends inside the emoji, is rejected as invalid UTF-8 although the
    request is well-formed: delivered in one read it parses, and the tolerant loop
    (`RequestReading.DriveTolerant`) parses it from the same two reads.
  */
  lemma SplitCharacterRejected()
    ensures Drive(NewRequest(), [], DataReads(SplitChunks())) == Err(InvalidUtf8)
    ensures OneShot(Flatten(SplitChunks())) == Ok(Request(Some(EmojiLine()), Done))
    ensures DriveTolerant(NewRequest(), [], DataReads(SplitChunks())) == Ok(Request(Some(EmojiLine()), Done))
  {
    FirstReadRejected();
    SplitRequestParses();
  }

  /** The first read ends inside the emoji, so the buffer does not decode. */
  lemma FirstReadRejected()
    ensures Drive(NewRequest(), [], DataReads(SplitChunks())) == Err(InvalidUtf8)
  {
    var c := SplitChunks();
    var rs := DataReads(c);
    var head := GET + [SPACE] + ROOT;
    assert IsAscii(head);
    assert !ValidUtf8(HeaderExamples.EMOJI[..1]) by {
      assert CharWidth(HeaderExamples.EMOJI[..1]) == 0;
    }
    AsciiPrefixValid(head, HeaderExamples.EMOJI[..1]);
    assert [] + rs[0].bytes == c[0];
    DriveStep(NewRequest(), [], rs, c[0]);
  }

  /** Read whole, or through the corrected loop, the split request parses. */
  lemma SplitRequestParses()
    ensures OneShot(Flatten(SplitChunks())) == Ok(Request(Some(EmojiLine()), Done))
    ensures DriveTolerant(NewRequest(), [], DataReads(SplitChunks())) == Ok(Request(Some(EmojiLine()), Done))
  {
    SplitChunksFlatten();
    EmojiRequestIsValid();
    var empty: seq<byte> := [];
    RequestLineRoundTrip(EmojiLine(), empty);
    assert RequestLineBytes(EmojiLine()) + CRLF + empty == RequestLineBytes(EmojiLine()) + CRLF;
    TolerantChunkingInvariant(SplitChunks());
  }
}
