/**
  The header map of src/headers.rs. One call of `Headers::parse` handles at most one
  line: the empty line that ends the header block, one `name: value` line, or nothing
  yet when no CRLF has arrived. Names are stored exactly as written (no lower-casing),
  a repeated name overwrites the previous value, and lookup is an exact, case-sensitive
  match. The only name checks are "not empty" and "no whitespace".
*/
module HeaderParsing {
  import opened Wrappers
  import opened Text
  import opened Utf8

  datatype Headers = Headers(fields: map<seq<byte>, seq<byte>>)

  /** The two error messages `Headers::parse` can return. */
  datatype HeaderError = InvalidUtf8 | InvalidFormat

  /** `(consumed, done, error)` together with the header map after the call. */
  datatype ParseOutcome = ParseOutcome(headers: Headers, consumed: nat, done: bool, error: Option<HeaderError>)

  /** `Headers::new`. */
  function NewHeaders(): (h: Headers)
    ensures forall key :: Get(h, key) == None
  {
    Headers(map[])
  }

  /** `Headers::get`: exact-key lookup. */
  function Get(h: Headers, key: seq<byte>): (r: Option<seq<byte>>)
    ensures r.Some? <==> key in h.fields
    ensures r.Some? ==> r.value == h.fields[key]
  {
    if key in h.fields then Some(h.fields[key]) else None
  }

  /**
    The name and value of one header line: the line is trimmed, split at its first
    colon, the value trimmed; the name must be non-empty and free of whitespace.
  */
  function FieldLine(line: seq<byte>): (r: Option<(seq<byte>, seq<byte>)>)
    ensures r.Some? ==> r.value.0 != [] && NoWhitespace(r.value.0) && COLON !in r.value.0
    ensures r.Some? ==> r.value.1 == [] || (!IsWhitespace(r.value.1[0]) && !IsWhitespace(r.value.1[|r.value.1| - 1]))
  {
    match SplitOnce(Trim(line), COLON)
    case None => None
    case Some((k, v)) =>
      if k != [] && NoWhitespace(k) then Some((k, Trim(v))) else None
  }

  /** `Headers::parse` once the bytes have decoded: at most one line is handled. */
  function ParseDecoded(h: Headers, data: seq<byte>): (r: ParseOutcome)
    ensures !ContainsCrlf(data) ==> r == ParseOutcome(h, 0, false, None)
    ensures CrlfAt(data, 0) ==> r == ParseOutcome(h, 2, true, None)
    ensures r.consumed <= |data|
    ensures r.error.Some? ==> r.error == Some(InvalidFormat) && r.consumed == 0 && !r.done && r.headers == h
    ensures r.done ==> r.consumed == 2 && r.error.None? && r.headers == h && CrlfAt(data, 0)
    ensures r.consumed == 0 ==> r.headers == h
    ensures FindCrlf(data).Some? && FindCrlf(data).value > 0 ==>
      var n := FindCrlf(data).value;
      match FieldLine(data[..n])
      case None => r == ParseOutcome(h, 0, false, Some(InvalidFormat))
      case Some((k, v)) =>
        && r == ParseOutcome(r.headers, n + 2, false, None)
        && r.headers.fields == h.fields[k := v]
        && Get(r.headers, k) == Some(v)
        && forall key :: key != k ==> Get(r.headers, key) == Get(h, key)
  {
    match FindCrlf(data)
    case None => ParseOutcome(h, 0, false, None)
    case Some(n) =>
      if n == 0 then ParseOutcome(h, 2, true, None)
      else
        match FieldLine(data[..n])
        case None => ParseOutcome(h, 0, false, Some(InvalidFormat))
        case Some((k, v)) => ParseOutcome(Headers(h.fields[k := v]), n + 2, false, None)
  }

  /** The outcome of a call whose first line is `data[..n]`, as decided by `FieldLine` on that line. */
  lemma ParseDecodedOfLine(h: Headers, data: seq<byte>, n: nat, field: Option<(seq<byte>, seq<byte>)>)
    requires FindCrlf(data) == Some(n) && n > 0
    requires FieldLine(data[..n]) == field
    ensures field.Some? ==> ParseDecoded(h, data) == ParseOutcome(Headers(h.fields[field.value.0 := field.value.1]), n + 2, false, None)
    ensures field.None? ==> ParseDecoded(h, data) == ParseOutcome(h, 0, false, Some(InvalidFormat))
  {
  }

  /**
    `Headers::parse`: `(consumed, done, error)` and the updated map. Undecodable input
    is an error that consumes nothing and stores nothing.
  */
  function Parse(h: Headers, data: seq<byte>): (r: ParseOutcome)
    ensures !ValidUtf8(data) ==> r == ParseOutcome(h, 0, false, Some(InvalidUtf8))
    ensures ValidUtf8(data) ==> r == ParseDecoded(h, data)
  {
    if !ValidUtf8(data) then ParseOutcome(h, 0, false, Some(InvalidUtf8))
    else ParseDecoded(h, data)
  }

  // ---------------------------------------------------------------------------
  // What a header line looks like on the wire, and what parsing it does
  // ---------------------------------------------------------------------------

  /**
    Padding around a field that cannot end the line early: whitespace without a
    carriage return (a CR followed by the line feed of the next run would be a CRLF).
  */
  predicate IsOws(s: seq<byte>) {
    AllWhitespace(s) && CR !in s
  }

  /** A name `Headers::parse` accepts: non-empty, no whitespace, and (being cut at the first colon) no colon. */
  predicate IsFieldName(k: seq<byte>) {
    k != [] && NoWhitespace(k) && COLON !in k
  }

  /** A value that trimming leaves unchanged and that holds no line break. */
  predicate IsFieldValue(v: seq<byte>) {
    !ContainsCrlf(v) && (v == [] || (!IsWhitespace(v[0]) && !IsWhitespace(v[|v| - 1])))
  }

  /** `name:value` with optional whitespace before the name, after the colon and after the value. */
  function FieldLineBytes(ows1: seq<byte>, k: seq<byte>, ows2: seq<byte>, v: seq<byte>, ows3: seq<byte>): seq<byte> {
    ows1 + k + [COLON] + ows2 + v + ows3
  }

  /** What is left of a field line after trimming: the name, the colon, the padded value. */
  lemma TrimFieldLine(ows1: seq<byte>, k: seq<byte>, ows2: seq<byte>, v: seq<byte>, ows3: seq<byte>)
    requires AllWhitespace(ows1) && AllWhitespace(ows2) && AllWhitespace(ows3)
    requires IsFieldName(k) && IsFieldValue(v)
    ensures Trim(FieldLineBytes(ows1, k, ows2, v, ows3)) == k + [COLON] + (if v == [] then [] else ows2 + v)
  {
    if v == [] {
      TrimFieldLineNoValue(ows1, k, ows2, ows3);
    } else {
      TrimFieldLineWithValue(ows1, k, ows2, v, ows3);
    }
  }

  lemma TrimFieldLineNoValue(ows1: seq<byte>, k: seq<byte>, ows2: seq<byte>, ows3: seq<byte>)
    requires AllWhitespace(ows1) && AllWhitespace(ows2) && AllWhitespace(ows3)
    requires IsFieldName(k)
    ensures Trim(FieldLineBytes(ows1, k, ows2, [], ows3)) == k + [COLON]
  {
    var line := FieldLineBytes(ows1, k, ows2, [], ows3);
    assert line == ows1 + (k + [COLON]) + (ows2 + ows3);
    assert AllWhitespace(ows1) && AllWhitespace(ows2 + ows3);
    TrimPadded(ows1, k + [COLON], ows2 + ows3);
  }

  lemma TrimFieldLineWithValue(ows1: seq<byte>, k: seq<byte>, ows2: seq<byte>, v: seq<byte>, ows3: seq<byte>)
    requires AllWhitespace(ows1) && AllWhitespace(ows2) && AllWhitespace(ows3)
    requires IsFieldName(k) && IsFieldValue(v) && v != []
    ensures Trim(FieldLineBytes(ows1, k, ows2, v, ows3)) == k + [COLON] + (ows2 + v)
  {
    var line := FieldLineBytes(ows1, k, ows2, v, ows3);
    var core := k + [COLON] + (ows2 + v);
    assert line == ows1 + core + ows3;
    assert core[0] == k[0] && core[|core| - 1] == v[|v| - 1];
    TrimPadded(ows1, core, ows3);
  }

  lemma FieldLineHasNoCrlf(ows1: seq<byte>, k: seq<byte>, ows2: seq<byte>, v: seq<byte>, ows3: seq<byte>)
    requires IsOws(ows1) && IsOws(ows2) && IsOws(ows3)
    requires IsFieldName(k) && IsFieldValue(v)
    ensures var line := FieldLineBytes(ows1, k, ows2, v, ows3);
      line != [] && !ContainsCrlf(line) && line[|line| - 1] != CR
  {
    var prefix := ows1 + k + [COLON] + ows2;
    assert CR !in prefix by {
      assert forall i :: 0 <= i < |prefix| ==> prefix[i] != CR;
    }
    assert CR !in ows3;
    NoCrlfAround(prefix, v, ows3);
    assert FieldLineBytes(ows1, k, ows2, v, ows3) == prefix + v + ows3;
  }

  lemma FieldLineOfBytes(ows1: seq<byte>, k: seq<byte>, ows2: seq<byte>, v: seq<byte>, ows3: seq<byte>, line: seq<byte>)
    requires AllWhitespace(ows1) && AllWhitespace(ows2) && AllWhitespace(ows3)
    requires IsFieldName(k) && IsFieldValue(v)
    requires line == FieldLineBytes(ows1, k, ows2, v, ows3)
    ensures FieldLine(line) == Some((k, v))
  {
    var value := if v == [] then [] else ows2 + v;
    TrimFieldLine(ows1, k, ows2, v, ows3);
    SplitOnceAt(k, COLON, value);
    if v != [] {
      TrimPadded(ows2, v, []);
      assert ows2 + v + [] == value;
    }
  }

  /**
    Parsing a well-formed field line consumes the line and its CRLF (the offset of
    the first CRLF plus two), stores the value under the name exactly as written,
    replacing any earlier value, and leaves the following bytes for the next call.
  */
  lemma ParseFieldLine(h: Headers, ows1: seq<byte>, k: seq<byte>, ows2: seq<byte>, v: seq<byte>, ows3: seq<byte>, rest: seq<byte>)
    requires IsOws(ows1) && IsOws(ows2) && IsOws(ows3)
    requires IsFieldName(k) && IsFieldValue(v)
    requires ValidUtf8(FieldLineBytes(ows1, k, ows2, v, ows3) + CRLF + rest)
    ensures var line := FieldLineBytes(ows1, k, ows2, v, ows3);
      Parse(h, line + CRLF + rest) == ParseOutcome(Headers(h.fields[k := v]), |line| + 2, false, None)
  {
    var line := FieldLineBytes(ows1, k, ows2, v, ows3);
    var data := line + CRLF + rest;
    FieldLineHasNoCrlf(ows1, k, ows2, v, ows3);
    FirstCrlfAfterLine(line, rest);
    assert data[..|line|] == line;
    FieldLineOfBytes(ows1, k, ows2, v, ows3, data[..|line|]);
    ParseDecodedOfLine(h, data, |line|, Some((k, v)));
  }

  /** A line without a colon is an error: nothing consumed, nothing stored. */
  lemma RejectsLineWithoutColon(h: Headers, line: seq<byte>, rest: seq<byte>)
    requires line != [] && CR !in line && COLON !in line
    requires ValidUtf8(line + CRLF + rest)
    ensures Parse(h, line + CRLF + rest) == ParseOutcome(h, 0, false, Some(InvalidFormat))
  {
    NoCrlfAround([], line, []);
    assert [] + line + [] == line;
    FirstCrlfAfterLine(line, rest);
    assert (line + CRLF + rest)[..|line|] == line;
    if COLON in Trim(line) {
      TrimSubset(line, COLON);
    }
  }

  lemma TrimMalformedLine(ows: seq<byte>, name: seq<byte>, tail: seq<byte>)
    requires AllWhitespace(ows)
    requires name == [] || !IsWhitespace(name[0])
    ensures Trim(ows + name + [COLON] + tail) == name + [COLON] + TrimEnd(tail)
  {
    var core := name + [COLON] + tail;
    assert ows + name + [COLON] + tail == ows + core;
    assert core[0] == if name == [] then COLON else name[0];
    TrimStartPadded(ows, core);
    TrimEndAfter(name + [COLON], tail);
  }

  lemma MalformedNameFieldLine(ows: seq<byte>, name: seq<byte>, tail: seq<byte>, line: seq<byte>)
    requires AllWhitespace(ows)
    requires COLON !in name
    requires name == [] || (!IsWhitespace(name[0]) && !NoWhitespace(name))
    requires line == ows + name + [COLON] + tail
    ensures FieldLine(line) == None
  {
    TrimMalformedLine(ows, name, tail);
    SplitOnceAt(name, COLON, TrimEnd(tail));
  }

  /**
    A line whose name part (after leading whitespace, up to the first colon) is empty
    or holds whitespace, e.g. a space before the colon, is an error: nothing consumed,
    nothing stored.
  */
  lemma RejectsMalformedName(h: Headers, ows: seq<byte>, name: seq<byte>, tail: seq<byte>, rest: seq<byte>)
    requires IsOws(ows)
    requires COLON !in name && CR !in name && CR !in tail
    requires name == [] || (!IsWhitespace(name[0]) && !NoWhitespace(name))
    requires ValidUtf8(ows + name + [COLON] + tail + CRLF + rest)
    ensures Parse(h, ows + name + [COLON] + tail + CRLF + rest) == ParseOutcome(h, 0, false, Some(InvalidFormat))
  {
    var line := ows + name + [COLON] + tail;
    var prefix := ows + name + [COLON];
    assert CR !in prefix by {
      assert forall i :: 0 <= i < |prefix| ==> prefix[i] != CR;
    }
    NoCrlfAround(prefix, [], tail);
    assert prefix + [] + tail == line;
    var data := line + CRLF + rest;
    FirstCrlfAfterLine(line, rest);
    assert data[..|line|] == line;
    MalformedNameFieldLine(ows, name, tail, data[..|line|]);
    ParseDecodedOfLine(h, data, |line|, None);
  }

  /** After a successful call, the unconsumed bytes still decode, so the next call sees the next line. */
  lemma RemainderStaysDecodable(h: Headers, data: seq<byte>)
    requires Parse(h, data).error.None? && Parse(h, data).consumed > 0
    ensures ValidUtf8(data[Parse(h, data).consumed..])
  {
    var c := Parse(h, data).consumed;
    assert ValidUtf8(data);
    assert ContainsCrlf(data);
    var n := FindCrlf(data).value;
    assert c == n + 2;
    assert CrlfAt(data, n);
    SplitAfterAscii(data, c);
  }

  /** A repeated name keeps only the last value: values are not joined. */
  lemma RepeatedNameKeepsLastValue(h: Headers, k: seq<byte>, v1: seq<byte>, v2: seq<byte>, rest: seq<byte>)
    requires IsFieldName(k) && IsFieldValue(v1) && IsFieldValue(v2)
    requires ValidUtf8(FieldLineBytes([], k, [SPACE], v1, []) + CRLF + FieldLineBytes([], k, [SPACE], v2, []) + CRLF + rest)
    ensures var line1 := FieldLineBytes([], k, [SPACE], v1, []);
      var line2 := FieldLineBytes([], k, [SPACE], v2, []);
      var data := line1 + CRLF + line2 + CRLF + rest;
      var first := Parse(h, data);
      Get(Parse(first.headers, data[first.consumed..]).headers, k) == Some(v2)
  {
    var line1 := FieldLineBytes([], k, [SPACE], v1, []);
    var line2 := FieldLineBytes([], k, [SPACE], v2, []);
    var data := line1 + CRLF + line2 + CRLF + rest;
    assert data == line1 + CRLF + (line2 + CRLF + rest);
    ParseFieldLine(h, [], k, [SPACE], v1, [], line2 + CRLF + rest);
    var first := Parse(h, data);
    RemainderStaysDecodable(h, data);
    assert data[first.consumed..] == line2 + CRLF + rest;
    ParseFieldLine(first.headers, [], k, [SPACE], v2, [], rest);
  }
}
