/**
  The unit tests of src/headers.rs, restated as lemmas about `HeaderParsing.Parse`.
  Test data is written as byte sequences; each constant's comment gives its text.
*/
module HeaderExamples {
  import opened Wrappers
  import opened Text
  import opened Utf8
  import opened HeaderParsing

  /** "Host" */
  const HOST: seq<byte> := [72, 111, 115, 116]
  /** "host" */
  const HOST_LOWER: seq<byte> := [104, 111, 115, 116]
  /** "localhost:42069" */
  const LOCALHOST: seq<byte> := [108, 111, 99, 97, 108, 104, 111, 115, 116, 58, 52, 50, 48, 54, 57]
  /** "Content-Type" */
  const CONTENT_TYPE: seq<byte> := [67, 111, 110, 116, 101, 110, 116, 45, 84, 121, 112, 101]
  /** "application/json" */
  const JSON: seq<byte> := [97, 112, 112, 108, 105, 99, 97, 116, 105, 111, 110, 47, 106, 115, 111, 110]
  /** "Emoji" */
  const EMOJI_NAME: seq<byte> := [69, 109, 111, 106, 105]
  /** U+1F604 SMILING FACE WITH OPEN MOUTH AND SMILING EYES, encoded in UTF-8 */
  const EMOJI: seq<byte> := [0xF0, 0x9F, 0x98, 0x84]

  function Spaces(n: nat): (s: seq<byte>)
    ensures |s| == n && IsOws(s) && IsAscii(s)
  {
    seq(n, _ => SPACE)
  }

  lemma NamesAreAscii()
    ensures IsAscii(HOST) && IsAscii(LOCALHOST) && IsAscii(CONTENT_TYPE) && IsAscii(JSON) && IsAscii(EMOJI_NAME)
  {
  }

  lemma FieldLineIsAscii(ows1: seq<byte>, k: seq<byte>, ows2: seq<byte>, v: seq<byte>, ows3: seq<byte>)
    requires IsAscii(ows1) && IsAscii(k) && IsAscii(ows2) && IsAscii(v) && IsAscii(ows3)
    ensures IsAscii(FieldLineBytes(ows1, k, ows2, v, ows3))
  {
    AsciiConcat(ows1, k);
    AsciiConcat(ows1 + k, [COLON]);
    AsciiConcat(ows1 + k + [COLON], ows2);
    AsciiConcat(ows1 + k + [COLON] + ows2, v);
    AsciiConcat(ows1 + k + [COLON] + ows2 + v, ows3);
  }

  /** An ASCII line, its CRLF and ASCII bytes after it decode. */
  lemma LineThenRestValid(line: seq<byte>, rest: seq<byte>)
    requires IsAscii(line) && IsAscii(rest)
    ensures ValidUtf8(line + CRLF + rest)
  {
    AsciiConcat(line, CRLF);
    AsciiConcat(line + CRLF, rest);
    AsciiIsValid(line + CRLF + rest);
  }

  /** `test_valid_single_header`: "Host: localhost:42069\r\n\r\n" consumes 23 bytes; "host" is a different key. */
  lemma ValidSingleHeader()
    ensures var r := Parse(NewHeaders(), HOST + [COLON, SPACE] + LOCALHOST + CRLF + CRLF);
      && r == ParseOutcome(r.headers, 23, false, None)
      && Get(r.headers, HOST) == Some(LOCALHOST)
      && Get(r.headers, HOST_LOWER) == None
  {
    assert HOST + [COLON, SPACE] + LOCALHOST + CRLF + CRLF == HostLine() + CRLF + CRLF;
    ParseHostLine(NewHeaders(), CRLF);
    assert HOST_LOWER != HOST;
  }

  /** "Host: localhost:42069" */
  function HostLine(): seq<byte> {
    FieldLineBytes([], HOST, [SPACE], LOCALHOST, [])
  }

  lemma ParseHostLine(h: Headers, rest: seq<byte>)
    requires IsAscii(rest)
    ensures Parse(h, HostLine() + CRLF + rest) == ParseOutcome(Headers(h.fields[HOST := LOCALHOST]), 23, false, None)
  {
    NamesAreAscii();
    FieldLineIsAscii([], HOST, [SPACE], LOCALHOST, []);
    LineThenRestValid(HostLine(), rest);
    ParseFieldLine(h, [], HOST, [SPACE], LOCALHOST, [], rest);
  }

  /** `test_invalid_spacing_header`: "       Host : localhost:42069       \r\n\r\n" is an error and consumes nothing. */
  lemma InvalidSpacingHeader()
    ensures var r := Parse(NewHeaders(), Spaces(7) + HOST + [SPACE, COLON, SPACE] + LOCALHOST + Spaces(7) + CRLF + CRLF);
      r == ParseOutcome(NewHeaders(), 0, false, Some(InvalidFormat))
  {
    var name := HOST + [SPACE];
    var tail := [SPACE] + LOCALHOST + Spaces(7);
    var line := Spaces(7) + name + [COLON] + tail;
    assert Spaces(7) + HOST + [SPACE, COLON, SPACE] + LOCALHOST + Spaces(7) + CRLF + CRLF == line + CRLF + CRLF;
    assert name[|name| - 1] == SPACE;
    NamesAreAscii();
    AsciiConcat(HOST, [SPACE]);
    FieldLineIsAscii(Spaces(7), name, [], tail, []);
    assert FieldLineBytes(Spaces(7), name, [], tail, []) == line;
    LineThenRestValid(line, CRLF);
    RejectsMalformedName(NewHeaders(), Spaces(7), name, tail, CRLF);
  }

  /** `test_single_header_with_extra_whitespace`: "   Host: localhost:42069    \r\n\r\n" consumes 30 bytes. */
  lemma SingleHeaderWithExtraWhitespace()
    ensures var r := Parse(NewHeaders(), Spaces(3) + HOST + [COLON, SPACE] + LOCALHOST + Spaces(4) + CRLF + CRLF);
      && r == ParseOutcome(r.headers, 30, false, None)
      && Get(r.headers, HOST) == Some(LOCALHOST)
  {
    assert Spaces(3) + HOST + [COLON, SPACE] + LOCALHOST + Spaces(4) + CRLF + CRLF == PaddedHostLine() + CRLF + CRLF;
    ParsePaddedHostLine(NewHeaders(), CRLF);
  }

  /** "   Host: localhost:42069    " */
  function PaddedHostLine(): seq<byte> {
    FieldLineBytes(Spaces(3), HOST, [SPACE], LOCALHOST, Spaces(4))
  }

  /** "Content-Type: application/json" */
  function ContentTypeLine(): seq<byte> {
    FieldLineBytes([], CONTENT_TYPE, [SPACE], JSON, [])
  }

  lemma ParsePaddedHostLine(h: Headers, rest: seq<byte>)
    requires IsAscii(rest)
    ensures Parse(h, PaddedHostLine() + CRLF + rest) == ParseOutcome(Headers(h.fields[HOST := LOCALHOST]), 30, false, None)
  {
    NamesAreAscii();
    FieldLineIsAscii(Spaces(3), HOST, [SPACE], LOCALHOST, Spaces(4));
    LineThenRestValid(PaddedHostLine(), rest);
    ParseFieldLine(h, Spaces(3), HOST, [SPACE], LOCALHOST, Spaces(4), rest);
  }

  lemma ParseContentTypeLine(h: Headers, rest: seq<byte>)
    requires IsAscii(rest)
    ensures Parse(h, ContentTypeLine() + CRLF + rest) == ParseOutcome(Headers(h.fields[CONTENT_TYPE := JSON]), 32, false, None)
  {
    NamesAreAscii();
    FieldLineIsAscii([], CONTENT_TYPE, [SPACE], JSON, []);
    LineThenRestValid(ContentTypeLine(), rest);
    ParseFieldLine(h, [], CONTENT_TYPE, [SPACE], JSON, [], rest);
  }

  /** "   Host: localhost:42069    \r\nContent-Type: application/json\r\n\r\n" */
  function TwoHeaderData(): seq<byte> {
    PaddedHostLine() + CRLF + ContentTypeLine() + CRLF + CRLF
  }

  lemma TwoHeadersFirstCall()
    ensures Parse(NewHeaders(), TwoHeaderData()) == ParseOutcome(Headers(map[HOST := LOCALHOST]), 30, false, None)
  {
    var rest := ContentTypeLine() + CRLF + CRLF;
    assert TwoHeaderData() == PaddedHostLine() + CRLF + rest;
    ParsePaddedHostLine(NewHeaders(), rest);
  }

  lemma TwoHeadersSecondCall(h: Headers)
    ensures Parse(h, TwoHeaderData()[30..]) == ParseOutcome(Headers(h.fields[CONTENT_TYPE := JSON]), 32, false, None)
  {
    assert |PaddedHostLine() + CRLF| == 30;
    assert TwoHeaderData()[30..] == ContentTypeLine() + CRLF + CRLF;
    ParseContentTypeLine(h, CRLF);
  }

  /**
    `test_valid_two_headers`: the first call consumes 30 bytes and stores `Host`; the
    call on the remaining bytes consumes another 32 and adds `Content-Type`.
  */
  lemma ValidTwoHeaders()
    ensures var r1 := Parse(NewHeaders(), TwoHeaderData());
      var r2 := Parse(r1.headers, TwoHeaderData()[r1.consumed..]);
      && r1.consumed == 30 && !r1.done && r1.error == None
      && Get(r1.headers, HOST) == Some(LOCALHOST)
      && r2.consumed == 32 && !r2.done && r2.error == None
      && Get(r2.headers, CONTENT_TYPE) == Some(JSON)
      && Get(r2.headers, HOST) == Some(LOCALHOST)
  {
    TwoHeadersFirstCall();
    TwoHeadersSecondCall(Headers(map[HOST := LOCALHOST]));
  }

  /** `test_valid_done`: a bare CRLF ends the header block. */
  lemma ValidDone()
    ensures Parse(NewHeaders(), CRLF) == ParseOutcome(NewHeaders(), 2, true, None)
  {
    AsciiIsValid(CRLF);
  }

  /** `test_valid_emoji`: "Emoji: \u{1F604}\r\n" consumes 13 bytes and stores the four-byte character. */
  lemma ValidEmoji()
    ensures var r := Parse(NewHeaders(), EMOJI_NAME + [COLON, SPACE] + EMOJI + CRLF);
      && r == ParseOutcome(r.headers, 13, false, None)
      && Get(r.headers, EMOJI_NAME) == Some(EMOJI)
  {
    var data := EMOJI_NAME + [COLON, SPACE] + EMOJI + CRLF;
    assert data == FieldLineBytes([], EMOJI_NAME, [SPACE], EMOJI, []) + CRLF + [];
    assert ValidUtf8(EMOJI + CRLF) by {
      assert CharWidth(EMOJI + CRLF) == 4;
      assert (EMOJI + CRLF)[4..] == CRLF;
      AsciiIsValid(CRLF);
    }
    AsciiPrefixValid(EMOJI_NAME + [COLON, SPACE], EMOJI + CRLF);
    assert data == (EMOJI_NAME + [COLON, SPACE]) + (EMOJI + CRLF);
    ParseFieldLine(NewHeaders(), [], EMOJI_NAME, [SPACE], EMOJI, [], []);
  }
}
