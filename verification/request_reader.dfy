/**
  `request_from_reader` (src/request.rs): read at most 8 bytes at a time, append them to
  a growing buffer, decode the whole buffer as UTF-8, feed it to `Request::parse`, drop
  the consumed prefix, and stop once the request is done. A read of 0 bytes before that
  is a premature end of input.

  The reader is abstract: a sequence of `ReadResult`s, one per call of `read`, each
  either the bytes delivered into the 8-byte scratch buffer or a failure. Once the
  sequence is exhausted every further read returns 0 bytes, as a reader at its end does.
*/
module RequestReading {
  import opened Wrappers
  import opened Text
  import opened Utf8
  import opened ChunkReading
  import opened RequestParsing

  datatype ReadResult = Data(bytes: seq<byte>) | Failed

  /** A reader that delivers `chunks`, one per call, and then reports end of input. */
  function DataReads(chunks: seq<seq<byte>>): (rs: seq<ReadResult>)
    ensures |rs| == |chunks|
    ensures forall i :: 0 <= i < |chunks| ==> rs[i] == Data(chunks[i])
  {
    seq(|chunks|, i requires 0 <= i < |chunks| => Data(chunks[i]))
  }

  /** The reads a `ChunkReader` answers to `read(&mut tmp)` with the 8-byte scratch buffer. */
  function ChunkReaderReads(r: ChunkReader): (rs: seq<ReadResult>)
    requires ChunkReading.Valid(r)
  {
    DataReads(Trace(r, 8))
  }

  /**
    The loop of `request_from_reader` from a given request and buffer: one read per
    iteration, with the decode, parse and drain steps in the order the code takes them.
  */
  function Drive(req: Request, buf: seq<byte>, results: seq<ReadResult>): (r: Result<Request, RequestError>)
    requires RequestParsing.Valid(req)
    ensures r.Ok? ==> r.value.state.Done? && r.value.requestLine.Some?
    ensures results == [] ==> r == Err(UnexpectedEof)
    ensures results != [] && results[0] == Data([]) ==> r == Err(UnexpectedEof)
    ensures results != [] && results[0].Failed? ==> r == Err(ReadFailed)
    decreases |results|
  {
    if results == [] || results[0] == Data([]) then Err(UnexpectedEof)
    else if results[0].Failed? then Err(ReadFailed)
    else
      var b := buf + results[0].bytes;
      if !ValidUtf8(b) then Err(InvalidUtf8)
      else
        match Parse(req, b)
        case Err(e) => Err(e)
        case Ok((next, consumed)) =>
          if next.state.Done? then Ok(next)
          else Drive(next, b[consumed..], results[1..])
  }

  /** One iteration of the loop after a read that delivered bytes. */
  lemma DriveStep(req: Request, buf: seq<byte>, results: seq<ReadResult>, b: seq<byte>)
    requires RequestParsing.Valid(req)
    requires results != [] && results[0].Data? && results[0].bytes != []
    requires b == buf + results[0].bytes
    ensures !ValidUtf8(b) ==> Drive(req, buf, results) == Err(InvalidUtf8)
    ensures ValidUtf8(b) && Parse(req, b).Err? ==> Drive(req, buf, results) == Err(Parse(req, b).error)
    ensures ValidUtf8(b) && Parse(req, b).Ok? && Parse(req, b).value.0.state.Done? ==>
      Drive(req, buf, results) == Ok(Parse(req, b).value.0)
    ensures ValidUtf8(b) && Parse(req, b).Ok? && !Parse(req, b).value.0.state.Done? ==>
      Drive(req, buf, results) == Drive(Parse(req, b).value.0, b[Parse(req, b).value.1..], results[1..])
  {
  }

  /**
    The outcome when the whole input arrives in one read: decided by
    `parse_request_line` on all of it.
  */
  function OneShot(data: seq<byte>): (r: Result<Request, RequestError>)
    ensures r.Ok? <==> data != [] && ValidUtf8(data) && ParseRequestLine(data).Ok? && ParseRequestLine(data).value.1.Some?
    ensures r.Ok? ==> r.value == Request(ParseRequestLine(data).value.1, Done)
    ensures !ContainsCrlf(data) ==> r == (if data != [] && !ValidUtf8(data) then Err(InvalidUtf8) else Err(UnexpectedEof))
  {
    if data == [] then Err(UnexpectedEof)
    else if !ValidUtf8(data) then Err(InvalidUtf8)
    else
      match ParseRequestLine(data)
      case Err(e) => Err(e)
      case Ok((_, line)) => if line.Some? then Ok(Request(line, Done)) else Err(UnexpectedEof)
  }

  /** The bytes a run of reads delivered, in order; a failed read delivers none. */
  function Delivered(rs: seq<ReadResult>): seq<byte> {
    if rs == [] then []
    else Delivered(rs[..|rs| - 1]) + (if rs[|rs| - 1].Data? then rs[|rs| - 1].bytes else [])
  }

  /**
    `request_from_reader`. At the head of every iteration the buffer holds every byte
    read so far: `Request::parse` consumes bytes only on the call that makes the
    request done, and the loop then returns, so the drain never shortens a buffer
    the loop goes on with.
  */
  method RequestFromReader(results: seq<ReadResult>) returns (r: Result<Request, RequestError>)
    ensures r == Drive(NewRequest(), [], results)
    ensures r.Ok? ==> r.value.state.Done? && r.value.requestLine.Some?
  {
    var req := NewRequest();
    var buf: seq<byte> := [];
    var i := 0;
    while true
      invariant 0 <= i <= |results|
      invariant RequestParsing.Valid(req) && req.state.Initialized?
      invariant buf == Delivered(results[..i])
      invariant Drive(req, buf, results[i..]) == Drive(NewRequest(), [], results)
      decreases |results| - i
    {
      if i == |results| {
        return Err(UnexpectedEof);
      }
      var next := results[i];
      if next.Failed? {
        return Err(ReadFailed);
      }
      if |next.bytes| == 0 {
        return Err(UnexpectedEof);
      }
      DriveStep(req, buf, results[i..], buf + next.bytes);
      assert results[i..][1..] == results[i + 1..];
      assert results[..i + 1][..i] == results[..i];
      i := i + 1;
      buf := buf + next.bytes;
      if !ValidUtf8(buf) {
        return Err(InvalidUtf8);
      }
      var step := Parse(req, buf);
      if step.Err? {
        return Err(step.error);
      }
      var consumed := step.value.1;
      if consumed > 0 {
        buf := buf[consumed..];
      }
      req := step.value.0;
      if req.state.Done? {
        return Ok(req);
      }
    }
  }

  // ---------------------------------------------------------------------------
  // How the chunking of the input affects the outcome
  // ---------------------------------------------------------------------------

  /** The first `i + 1` chunks are the first chunk followed by the next `i`. */
  lemma FlattenTake(chunks: seq<seq<byte>>, i: nat)
    requires i < |chunks|
    ensures Flatten(chunks[..i + 1]) == chunks[0] + Flatten(chunks[1..][..i])
  {
    assert chunks[..i + 1][1..] == chunks[1..][..i];
  }

  /** The reads of a non-empty chunk list: the first chunk, then the reads of the rest. */
  lemma DataReadsCons(chunks: seq<seq<byte>>)
    requires chunks != []
    ensures DataReads(chunks)[0] == Data(chunks[0])
    ensures DataReads(chunks)[1..] == DataReads(chunks[1..])
  {
  }

  /**
    Reading `chunks` after `buf` has been taken in without finishing the request gives
    the outcome of reading everything at once, provided every read ends on a
    character boundary (the buffer decodes after every read).
  */
  lemma {:induction false} DriveMatchesOneShot(buf: seq<byte>, chunks: seq<seq<byte>>)
    requires !ContainsCrlf(buf)
    requires forall i :: 0 <= i < |chunks| ==> chunks[i] != []
    requires forall i :: 0 <= i <= |chunks| ==> ValidUtf8(buf + Flatten(chunks[..i]))
    ensures Drive(NewRequest(), buf, DataReads(chunks)) == OneShot(buf + Flatten(chunks))
    decreases |chunks|
  {
    if chunks == [] {
      assert chunks[..0] == [];
      assert buf + Flatten(chunks) == buf;
    } else {
      var b := buf + chunks[0];
      var rest := chunks[1..];
      AfterFirstRead(buf, chunks);
      DataReadsCons(chunks);
      if ContainsCrlf(b) {
        LineComplete(buf, DataReads(chunks), b, Flatten(rest));
      } else {
        LineIncomplete(buf, DataReads(chunks), b);
        DriveMatchesOneShot(b, rest);
      }
    }
  }

  /**
    What the first read leaves when every read ends on a character boundary: a buffer
    that decodes, and a rest whose reads all end on character boundaries too.
  */
  lemma AfterFirstRead(buf: seq<byte>, chunks: seq<seq<byte>>)
    requires chunks != []
    requires forall i :: 0 <= i <= |chunks| ==> ValidUtf8(buf + Flatten(chunks[..i]))
    ensures ValidUtf8(buf + chunks[0])
    ensures buf + Flatten(chunks) == (buf + chunks[0]) + Flatten(chunks[1..])
    ensures ValidUtf8(buf + Flatten(chunks))
    ensures forall i :: 0 <= i <= |chunks[1..]| ==> ValidUtf8((buf + chunks[0]) + Flatten(chunks[1..][..i]))
  {
    var b := buf + chunks[0];
    var rest := chunks[1..];
    TakeShift(buf, chunks, 0);
    assert rest[..0] == [];
    assert b + Flatten(rest[..0]) == b;
    TakeShift(buf, chunks, |rest|);
    assert chunks[..|chunks|] == chunks && rest[..|rest|] == rest;
    forall i | 0 <= i <= |rest|
      ensures ValidUtf8(b + Flatten(rest[..i]))
    {
      TakeShift(buf, chunks, i);
    }
  }

  /** Taking `i + 1` reads after `buf` is taking `i` reads of the rest after the buffer the first read fills. */
  lemma TakeShift(buf: seq<byte>, chunks: seq<seq<byte>>, i: nat)
    requires i < |chunks|
    ensures buf + Flatten(chunks[..i + 1]) == (buf + chunks[0]) + Flatten(chunks[1..][..i])
  {
    FlattenTake(chunks, i);
  }

  /** The outcome of the loop once the parsed bytes `p` hold a CRLF: the request is done, or the parse failed. */
  function LineOutcome(p: seq<byte>): Result<Request, RequestError> {
    match Parse(NewRequest(), p)
    case Err(e) => Err(e)
    case Ok((next, _)) => Ok(next)
  }

  /** A read after which the buffer holds a CRLF ends the loop with the one-read outcome. */
  lemma LineComplete(buf: seq<byte>, results: seq<ReadResult>, b: seq<byte>, tail: seq<byte>)
    requires results != [] && results[0].Data? && results[0].bytes != []
    requires b == buf + results[0].bytes && ValidUtf8(b) && ContainsCrlf(b) && ValidUtf8(b + tail)
    ensures Drive(NewRequest(), buf, results) == OneShot(b + tail)
  {
    LineDone(buf, results, b);
    LineCompleteMatchesOneShot(b, tail);
  }

  /** A read after which the buffer decodes and holds a CRLF ends the loop. */
  lemma LineDone(buf: seq<byte>, results: seq<ReadResult>, b: seq<byte>)
    requires results != [] && results[0].Data? && results[0].bytes != []
    requires b == buf + results[0].bytes && ValidUtf8(b) && ContainsCrlf(b)
    ensures Drive(NewRequest(), buf, results) == LineOutcome(b)
  {
    DriveStep(NewRequest(), buf, results, b);
  }

  /** A read after which the buffer decodes but holds no CRLF leaves the whole buffer for the next read. */
  lemma LineIncomplete(buf: seq<byte>, results: seq<ReadResult>, b: seq<byte>)
    requires results != [] && results[0].Data? && results[0].bytes != []
    requires b == buf + results[0].bytes && ValidUtf8(b) && !ContainsCrlf(b)
    ensures Drive(NewRequest(), buf, results) == Drive(NewRequest(), b, results[1..])
  {
    DriveStep(NewRequest(), buf, results, b);
    assert Parse(NewRequest(), b) == Ok((NewRequest(), 0));
    assert b[0..] == b;
  }

  /**
    When every read ends on a character boundary, how the input is split into reads
    does not matter: the outcome is the one-read outcome.
  */
  lemma ChunkingInvariant(chunks: seq<seq<byte>>)
    requires forall i :: 0 <= i < |chunks| ==> chunks[i] != []
    requires forall i :: 0 <= i <= |chunks| ==> ValidUtf8(Flatten(chunks[..i]))
    ensures Drive(NewRequest(), [], DataReads(chunks)) == OneShot(Flatten(chunks))
  {
    forall i | 0 <= i <= |chunks|
      ensures ValidUtf8([] + Flatten(chunks[..i]))
    {
      assert [] + Flatten(chunks[..i]) == Flatten(chunks[..i]);
    }
    DriveMatchesOneShot([], chunks);
    assert [] + Flatten(chunks) == Flatten(chunks);
  }

  lemma {:induction false} FlattenSplit(chunks: seq<seq<byte>>, i: nat)
    requires i <= |chunks|
    ensures Flatten(chunks) == Flatten(chunks[..i]) + Flatten(chunks[i..])
    decreases i
  {
    if i == 0 {
      assert chunks[..0] == [] && chunks[0..] == chunks;
    } else {
      FlattenSplit(chunks[1..], i - 1);
      FlattenTake(chunks, i - 1);
      assert chunks[1..][i - 1..] == chunks[i..];
    }
  }

  lemma AsciiPrefix(s: seq<byte>, t: seq<byte>)
    requires IsAscii(s + t)
    ensures IsAscii(s)
  {
    assert forall i :: 0 <= i < |s| ==> s[i] == (s + t)[i];
  }

  /** An ASCII request read through a `ChunkReader` of any positive chunk size: the one-read outcome. */
  lemma ChunkReaderOutcome(data: seq<byte>, bytesPerRead: nat)
    requires bytesPerRead > 0 && IsAscii(data)
    ensures Drive(NewRequest(), [], ChunkReaderReads(NewChunkReader(data, bytesPerRead))) == OneShot(data)
  {
    var r := NewChunkReader(data, bytesPerRead);
    var chunks := Trace(r, 8);
    TraceDeliversAll(r, 8);
    assert Flatten(chunks) == data[0..] == data;
    forall i | 0 <= i <= |chunks|
      ensures ValidUtf8(Flatten(chunks[..i]))
    {
      FlattenSplit(chunks, i);
      AsciiPrefix(Flatten(chunks[..i]), Flatten(chunks[i..]));
      AsciiIsValid(Flatten(chunks[..i]));
    }
    ChunkingInvariant(chunks);
  }

  // ---------------------------------------------------------------------------
  // A character split across two reads
  // ---------------------------------------------------------------------------

  /**
    The loop with the decoding step corrected: when the buffer ends inside a character
    whose remaining bytes have not arrived (`Utf8Error::error_len` is `None`), only the
    well-formed prefix is parsed and the unfinished character stays in the buffer for
    the next read. An invalid byte sequence is still an error.
  */
  function DriveTolerant(req: Request, buf: seq<byte>, results: seq<ReadResult>): (r: Result<Request, RequestError>)
    requires RequestParsing.Valid(req)
    ensures r.Ok? ==> r.value.state.Done? && r.value.requestLine.Some?
    ensures results == [] ==> r == Err(UnexpectedEof)
    ensures results != [] && results[0] == Data([]) ==> r == Err(UnexpectedEof)
    ensures results != [] && results[0].Failed? ==> r == Err(ReadFailed)
    decreases |results|
  {
    if results == [] || results[0] == Data([]) then Err(UnexpectedEof)
    else if results[0].Failed? then Err(ReadFailed)
    else
      var b := buf + results[0].bytes;
      match ValidPrefix(b)
      case None => Err(InvalidUtf8)
      case Some(k) =>
        match Parse(req, b[..k])
        case Err(e) => Err(e)
        case Ok((next, consumed)) =>
          if next.state.Done? then Ok(next)
          else DriveTolerant(next, b[consumed..], results[1..])
  }

  /** One iteration of the corrected loop after a read that delivered bytes. */
  lemma TolerantStep(req: Request, buf: seq<byte>, results: seq<ReadResult>, b: seq<byte>, k: nat)
    requires RequestParsing.Valid(req)
    requires results != [] && results[0].Data? && results[0].bytes != []
    requires b == buf + results[0].bytes && ValidPrefix(b) == Some(k)
    ensures Parse(req, b[..k]).Err? ==> DriveTolerant(req, buf, results) == Err(Parse(req, b[..k]).error)
    ensures Parse(req, b[..k]).Ok? && Parse(req, b[..k]).value.0.state.Done? ==>
      DriveTolerant(req, buf, results) == Ok(Parse(req, b[..k]).value.0)
    ensures Parse(req, b[..k]).Ok? && !Parse(req, b[..k]).value.0.state.Done? ==>
      DriveTolerant(req, buf, results) == DriveTolerant(Parse(req, b[..k]).value.0, b[Parse(req, b[..k]).value.1..], results[1..])
  {
    assert results[0] != Data([]) && !results[0].Failed?;
  }

  /** Once the decoded part of the buffer holds a CRLF, parsing it decides what one read of everything decides. */
  lemma LineCompleteMatchesOneShot(p: seq<byte>, tail: seq<byte>)
    requires ContainsCrlf(p) && ValidUtf8(p + tail)
    ensures OneShot(p + tail) == LineOutcome(p)
  {
    ParseRequestLineExtend(p, tail);
  }

  /** A read after which the decoded part of the buffer holds a CRLF ends the corrected loop. */
  lemma TolerantLineDone(buf: seq<byte>, results: seq<ReadResult>, b: seq<byte>, k: nat)
    requires results != [] && results[0].Data? && results[0].bytes != []
    requires b == buf + results[0].bytes && ValidPrefix(b) == Some(k)
    requires ContainsCrlf(b[..k])
    ensures DriveTolerant(NewRequest(), buf, results) == LineOutcome(b[..k])
  {
    TolerantStep(NewRequest(), buf, results, b, k);
  }

  /** A read after which the decoded part of the buffer holds a CRLF ends the corrected loop with the one-read outcome. */
  lemma TolerantLineComplete(buf: seq<byte>, results: seq<ReadResult>, b: seq<byte>, k: nat, tail: seq<byte>)
    requires results != [] && results[0].Data? && results[0].bytes != []
    requires b == buf + results[0].bytes && ValidPrefix(b) == Some(k)
    requires ContainsCrlf(b[..k]) && ValidUtf8(b + tail)
    ensures DriveTolerant(NewRequest(), buf, results) == OneShot(b + tail)
  {
    var p := b[..k];
    assert DriveTolerant(NewRequest(), buf, results) == LineOutcome(p) by {
      TolerantLineDone(buf, results, b, k);
    }
    LinePrefixMatchesOneShot(b, k, tail);
  }

  /** A complete first line within the first `k` bytes decides the one-read outcome, whatever follows. */
  lemma LinePrefixMatchesOneShot(b: seq<byte>, k: nat, tail: seq<byte>)
    requires k <= |b| && ContainsCrlf(b[..k]) && ValidUtf8(b + tail)
    ensures OneShot(b + tail) == LineOutcome(b[..k])
  {
    var rest := b[k..] + tail;
    SplitAt(b, k);
    assert b[..k] + rest == b + tail;
    LineCompleteMatchesOneShot(b[..k], rest);
  }

  lemma {:induction false} TolerantMatchesOneShot(buf: seq<byte>, chunks: seq<seq<byte>>)
    requires ValidPrefix(buf).Some? && !ContainsCrlf(buf[..ValidPrefix(buf).value])
    requires forall i :: 0 <= i < |chunks| ==> chunks[i] != []
    requires ValidUtf8(buf + Flatten(chunks))
    ensures DriveTolerant(NewRequest(), buf, DataReads(chunks)) == OneShot(buf + Flatten(chunks))
    decreases |chunks|
  {
    if chunks == [] {
      assert buf + Flatten(chunks) == buf;
      assert buf[..|buf|] == buf;
    } else {
      var c := chunks[0];
      var rest := chunks[1..];
      var b := buf + c;
      var whole := buf + Flatten(chunks);
      assert whole == b + Flatten(rest);
      DataReadsCons(chunks);
      PrefixOfValidDecodes(b, Flatten(rest));
      var k := ValidPrefix(b).value;
      var p := b[..k];
      if ContainsCrlf(p) {
        TolerantLineComplete(buf, DataReads(chunks), b, k, Flatten(rest));
      } else {
        TolerantStep(NewRequest(), buf, DataReads(chunks), b, k);
        assert b[0..] == b;
        TolerantMatchesOneShot(b, rest);
      }
    }
  }

  /**
    With the corrected decoding step, any split of well-formed UTF-8 into reads, even
    one that cuts a character in two, gives the one-read outcome.
  */
  lemma TolerantChunkingInvariant(chunks: seq<seq<byte>>)
    requires forall i :: 0 <= i < |chunks| ==> chunks[i] != []
    requires ValidUtf8(Flatten(chunks))
    ensures DriveTolerant(NewRequest(), [], DataReads(chunks)) == OneShot(Flatten(chunks))
  {
    var empty: seq<byte> := [];
    assert empty + Flatten(chunks) == Flatten(chunks);
    assert empty[..0] == empty;
    TolerantMatchesOneShot(empty, chunks);
  }

  /** With the corrected step, a `ChunkReader` of any positive chunk size over well-formed UTF-8 gives the one-read outcome. */
  lemma TolerantChunkReaderOutcome(data: seq<byte>, bytesPerRead: nat)
    requires bytesPerRead > 0 && ValidUtf8(data)
    ensures DriveTolerant(NewRequest(), [], ChunkReaderReads(NewChunkReader(data, bytesPerRead))) == OneShot(data)
  {
    var r := NewChunkReader(data, bytesPerRead);
    TraceDeliversAll(r, 8);
    assert Flatten(Trace(r, 8)) == data[0..] == data;
    TolerantChunkingInvariant(Trace(r, 8));
  }
}
