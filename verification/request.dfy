/**
  The request side of src/request.rs: `parse_request_line`, which recognises the first
  line of a request once its CRLF has arrived, and the two-state `Request` machine that
  calls it. A request is `Initialized` until its request line has been parsed and
  `Done` afterwards; there is no header phase.
*/
module RequestParsing {
  import opened Wrappers
  import opened Text

  /** "GET" */
  const GET: seq<byte> := [71, 69, 84]
  /** "POST" */
  const POST: seq<byte> := [80, 79, 83, 84]
  /** "HTTP/", the prefix the third token must carry */
  const HTTP_PREFIX: seq<byte> := [72, 84, 84, 80, 47]

  /** The three parts of a request line, as UTF-8 bytes; the version is stored without its prefix. */
  datatype RequestLine = RequestLine(requestMethod: seq<byte>, requestTarget: seq<byte>, httpVersion: seq<byte>)

  /**
    The ways a request can fail: the five messages of `parse_request_line`, the two
    raised by `request_from_reader` itself, and an error the reader returned.
  */
  datatype RequestError =
    | MissingMethod
    | UnsupportedMethod
    | MissingRequestTarget
    | InvalidHttpVersion
    | TooManyParts
    | InvalidUtf8
    | UnexpectedEof
    | ReadFailed

  datatype RequestState = Initialized | Done

  datatype Request = Request(requestLine: Option<RequestLine>, state: RequestState)

  /** A request carries a request line exactly when it is done. */
  predicate Valid(req: Request) {
    req.state.Done? <==> req.requestLine.Some?
  }

  /** A line `parse_request_line` accepts: a supported method, a target and a version, none holding whitespace. */
  predicate IsWellFormed(l: RequestLine) {
    && (l.requestMethod == GET || l.requestMethod == POST)
    && l.requestTarget != [] && NoWhitespace(l.requestTarget)
    && NoWhitespace(l.httpVersion)
  }

  /** `method SP request-target SP HTTP/version`, without the CRLF. */
  function RequestLineBytes(l: RequestLine): seq<byte> {
    l.requestMethod + [SPACE] + l.requestTarget + [SPACE] + HTTP_PREFIX + l.httpVersion
  }

  /** The three words of a request line, the version carrying its `HTTP/` prefix. */
  function Parts(l: RequestLine): seq<seq<byte>> {
    [l.requestMethod, l.requestTarget, HTTP_PREFIX + l.httpVersion]
  }

  /** `Request::new`. */
  function NewRequest(): (req: Request)
    ensures Valid(req) && req.state.Initialized?
  {
    Request(None, Initialized)
  }

  /**
    The request line named by the whitespace-separated parts of the first line, checked
    in the order `parse_request_line` checks them: a method, which must be GET or POST;
    a target; an `HTTP/`-prefixed version; and nothing more.
  */
  function LineOfParts(parts: seq<seq<byte>>): (r: Result<RequestLine, RequestError>)
    requires AllTokens(parts)
    ensures r.Ok? ==> IsWellFormed(r.value)
    ensures r.Ok? ==> parts == Parts(r.value)
    ensures r.Err? ==> r.error in {MissingMethod, UnsupportedMethod, MissingRequestTarget, InvalidHttpVersion, TooManyParts}
    ensures parts == [] <==> r == Err(MissingMethod)
    ensures parts != [] && parts[0] != GET && parts[0] != POST ==> r == Err(UnsupportedMethod)
    ensures |parts| == 1 && (parts[0] == GET || parts[0] == POST) ==> r == Err(MissingRequestTarget)
    ensures |parts| >= 2 && (parts[0] == GET || parts[0] == POST) && (|parts| == 2 || StripPrefix(parts[2], HTTP_PREFIX).None?) ==>
      r == Err(InvalidHttpVersion)
    ensures |parts| > 3 && (parts[0] == GET || parts[0] == POST) && StripPrefix(parts[2], HTTP_PREFIX).Some? ==>
      r == Err(TooManyParts)
  {
    if |parts| == 0 then Err(MissingMethod)
    else if parts[0] != GET && parts[0] != POST then Err(UnsupportedMethod)
    else if |parts| < 2 then Err(MissingRequestTarget)
    else if |parts| < 3 || StripPrefix(parts[2], HTTP_PREFIX).None? then Err(InvalidHttpVersion)
    else if |parts| > 3 then Err(TooManyParts)
    else
      var version := StripPrefix(parts[2], HTTP_PREFIX).value;
      assert NoWhitespace(parts[2]);
      NoWhitespaceConcat(HTTP_PREFIX, version);
      Ok(RequestLine(parts[0], parts[1], version))
  }

  /**
    `parse_request_line`: `Ok((0, None))` until a CRLF has arrived; then the bytes before
    the first CRLF are split on whitespace and must form a request line. The count
    returned on success is the offset of the CRLF: the CRLF itself is not counted.
  */
  function ParseRequestLine(s: seq<byte>): (r: Result<(nat, Option<RequestLine>), RequestError>)
    ensures r == Ok((0, None)) <==> !ContainsCrlf(s)
    ensures r.Err? ==> ContainsCrlf(s) && r.error !in {InvalidUtf8, UnexpectedEof, ReadFailed}
    ensures r.Ok? ==> (r.value.1.Some? <==> r.value.0 > 0)
    ensures r.Ok? && r.value.1.Some? ==>
      var (n, l) := (r.value.0, r.value.1.value);
      && FindCrlf(s) == Some(n)
      && IsWellFormed(l)
      && Tokens(s[..n]) == Parts(l)
  {
    match FindCrlf(s)
    case None => Ok((0, None))
    case Some(n) =>
      match LineOfParts(Tokens(s[..n]))
      case Err(e) => Err(e)
      case Ok(l) => Ok((n, Some(l)))
  }

  /**
    `Request::parse`: a done request ignores its input; an initialized one runs
    `parse_request_line`, passes its errors through unchanged, and becomes done,
    holding the parsed line, once a line has been recognised.
  */
  function Parse(req: Request, data: seq<byte>): (r: Result<(Request, nat), RequestError>)
    ensures req.state.Done? ==> r == Ok((req, 0))
    ensures req.state.Initialized? ==> (r.Err? <==> ParseRequestLine(data).Err?)
    ensures r.Err? ==> ParseRequestLine(data) == Err(r.error)
    ensures r.Ok? ==> r.value.1 <= |data|
    ensures r.Ok? && r.value.0.state.Initialized? ==> r.value == (req, 0)
    ensures r.Ok? && req.state.Initialized? ==> (r.value.0.state.Done? <==> ContainsCrlf(data))
    ensures r.Ok? && req.state.Initialized? && r.value.0.state.Done? ==>
      && r.value.0.requestLine == ParseRequestLine(data).value.1
      && FindCrlf(data) == Some(r.value.1)
    ensures Valid(req) && r.Ok? ==> Valid(r.value.0)
  {
    match req.state
    case Initialized =>
      (match ParseRequestLine(data)
       case Err(e) => Err(e)
       case Ok((consumed, maybeLine)) =>
         if maybeLine.Some? then Ok((Request(maybeLine, Done), consumed))
         else Ok((req, consumed)))
    case Done => Ok((req, 0))
  }

  // ---------------------------------------------------------------------------
  // Properties
  // ---------------------------------------------------------------------------

  /** A well-formed request line is its three words joined by single spaces. */
  lemma JoinedRequestLine(l: RequestLine)
    requires IsWellFormed(l)
    ensures AllTokens(Parts(l))
    ensures JoinSpaced(Parts(l)) == RequestLineBytes(l)
  {
    var ts := Parts(l);
    NoWhitespaceConcat(HTTP_PREFIX, l.httpVersion);
    assert IsToken(ts[0]) && IsToken(ts[1]) && IsToken(ts[2]);
    assert ts[1..][1..] == [ts[2]];
    assert JoinSpaced(ts[1..]) == l.requestTarget + [SPACE] + (HTTP_PREFIX + l.httpVersion);
  }

  /** The words of a well-formed request line make that line again. */
  lemma LineOfOwnParts(l: RequestLine)
    requires IsWellFormed(l)
    ensures AllTokens(Parts(l)) && LineOfParts(Parts(l)) == Ok(l)
  {
    JoinedRequestLine(l);
    assert StripPrefix(HTTP_PREFIX + l.httpVersion, HTTP_PREFIX) == Some(l.httpVersion);
  }

  /** The tokens of a well-formed request line are its three parts. */
  lemma TokensOfRequestLine(l: RequestLine)
    requires IsWellFormed(l)
    ensures Tokens(RequestLineBytes(l)) == Parts(l)
  {
    JoinedRequestLine(l);
    TokensOfJoin([], Parts(l));
    assert [] + RequestLineBytes(l) == RequestLineBytes(l);
  }

  /** A well-formed request line holds no CRLF and does not end in CR. */
  lemma RequestLineHasNoCrlf(l: RequestLine)
    requires IsWellFormed(l)
    ensures !ContainsCrlf(RequestLineBytes(l))
    ensures RequestLineBytes(l)[|RequestLineBytes(l)| - 1] != CR
  {
    var s := RequestLineBytes(l);
    assert CR !in s by {
      assert forall i :: 0 <= i < |s| ==> s[i] != CR by {
        forall i | 0 <= i < |s|
          ensures s[i] != CR
        {
          assert CR != SPACE && IsWhitespace(CR);
        }
      }
    }
  }

  /**
    Round trip: a well-formed line followed by CRLF parses back to the same line,
    whatever follows it, and the count is the length of the line.
  */
  lemma RequestLineRoundTrip(l: RequestLine, rest: seq<byte>)
    requires IsWellFormed(l)
    ensures ParseRequestLine(RequestLineBytes(l) + CRLF + rest) == Ok((|RequestLineBytes(l)|, Some(l)))
  {
    JoinedRequestLine(l);
    LineOfOwnParts(l);
    ParseJoinedLine(Parts(l), rest);
  }

  /**
    The outcome is decided by the bytes up to the first CRLF: once a CRLF is present,
    more data changes nothing. This is what lets the caller re-parse a growing buffer.
  */
  lemma ParseRequestLineExtend(s: seq<byte>, t: seq<byte>)
    requires ContainsCrlf(s)
    ensures ParseRequestLine(s + t) == ParseRequestLine(s)
  {
    FindCrlfExtend(s, t);
    var n := FindCrlf(s).value;
    assert (s + t)[..n] == s[..n];
  }

  /**
    The outcome is decided by the tokens of the first line: whatever words are joined
    by spaces and followed by CRLF, `parse_request_line` reports what those words make.
  */
  lemma ParseJoinedLine(ts: seq<seq<byte>>, rest: seq<byte>)
    requires AllTokens(ts)
    ensures ParseRequestLine(JoinSpaced(ts) + CRLF + rest) ==
      match LineOfParts(ts)
      case Err(e) => Err(e)
      case Ok(l) => Ok((|JoinSpaced(ts)|, Some(l)))
  {
    var line := JoinSpaced(ts);
    JoinSpacedNoCr(ts);
    assert !ContainsCrlf(line);
    FirstCrlfAfterLine(line, rest);
    assert (line + CRLF + rest)[..|line|] == line;
    TokensOfJoin([], ts);
    assert [] + line == line;
  }

  /**
    Acceptance does not depend on how the words are spaced: any first line whose
    whitespace-separated words are those of a well-formed request line, with leading,
    repeated, tab or trailing whitespace, is accepted as that line, and the count is the
    offset of its CRLF.
  */
  lemma AcceptsWellFormedWords(s: seq<byte>, l: RequestLine)
    requires FindCrlf(s).Some? && IsWellFormed(l)
    requires Tokens(s[..FindCrlf(s).value]) == Parts(l)
    ensures ParseRequestLine(s) == Ok((FindCrlf(s).value, Some(l)))
  {
    LineOfOwnParts(l);
  }

  /**
    The rejecting side: whatever whitespace separates the words of the first line,
    the error reported is the one `LineOfParts` gives for those words, so the method
    is checked before the target, the version and the word count.
  */
  lemma RejectsIllFormedWords(s: seq<byte>, n: nat)
    requires FindCrlf(s) == Some(n)
    requires LineOfParts(Tokens(s[..n])).Err?
    ensures ParseRequestLine(s) == Err(LineOfParts(Tokens(s[..n])).error)
  {
  }
}
