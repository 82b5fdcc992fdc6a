/**
  The `str` operations the parsers use, modelled on UTF-8 bytes: `find("\r\n")`,
  `trim`, `split_whitespace`, `splitn(2, ':')` and `strip_prefix`.

  Whitespace is the ASCII part of `char::is_whitespace` (tab, line feed, vertical
  tab, form feed, carriage return, space). None of these bytes can occur inside a
  multi-byte UTF-8 sequence, so on well-formed input cutting at them on bytes gives
  the same pieces as cutting at them on characters.
*/
module Text {
  import opened Wrappers

  newtype byte = b: int | 0 <= b < 256

  const TAB: byte := 9
  const LF: byte := 10
  const CR: byte := 13
  const SPACE: byte := 32
  const COLON: byte := 58
  const CRLF: seq<byte> := [CR, LF]

  predicate IsAscii(s: seq<byte>) {
    forall i :: 0 <= i < |s| ==> s[i] < 128
  }

  lemma AsciiConcat(a: seq<byte>, b: seq<byte>)
    requires IsAscii(a) && IsAscii(b)
    ensures IsAscii(a + b)
  {
  }

  predicate IsWhitespace(b: byte) {
    9 <= b <= 13 || b == SPACE
  }

  predicate AllWhitespace(s: seq<byte>) {
    forall i :: 0 <= i < |s| ==> IsWhitespace(s[i])
  }

  predicate NoWhitespace(s: seq<byte>) {
    forall i :: 0 <= i < |s| ==> !IsWhitespace(s[i])
  }

  /** A word `split_whitespace` can yield: non-empty and free of whitespace. */
  predicate IsToken(t: seq<byte>) {
    t != [] && NoWhitespace(t)
  }

  predicate AllTokens(ts: seq<seq<byte>>) {
    forall i :: 0 <= i < |ts| ==> IsToken(ts[i])
  }

  lemma AllTokensCons(t: seq<byte>, ts: seq<seq<byte>>)
    requires IsToken(t) && AllTokens(ts)
    ensures AllTokens([t] + ts)
  {
    assert forall i :: 0 <= i < |ts| ==> ([t] + ts)[i + 1] == ts[i];
  }

  lemma AllTokensTail(ts: seq<seq<byte>>)
    requires AllTokens(ts) && ts != []
    ensures IsToken(ts[0]) && AllTokens(ts[1..])
  {
    assert forall i :: 0 <= i < |ts[1..]| ==> ts[1..][i] == ts[i + 1];
  }

  /** A concatenation is free of whitespace exactly when both parts are. */
  lemma NoWhitespaceConcat(a: seq<byte>, b: seq<byte>)
    ensures NoWhitespace(a + b) <==> NoWhitespace(a) && NoWhitespace(b)
  {
    if NoWhitespace(a) && NoWhitespace(b) {
      forall i | 0 <= i < |a + b|
        ensures !IsWhitespace((a + b)[i])
      {
        if i < |a| {
          assert (a + b)[i] == a[i];
        } else {
          assert (a + b)[i] == b[i - |a|];
        }
      }
    }
    assert forall i :: 0 <= i < |a| ==> (a + b)[i] == a[i];
    assert forall i :: 0 <= i < |b| ==> (a + b)[|a| + i] == b[i];
  }

  /** Concatenation of a sequence of byte strings. */
  function Flatten(chunks: seq<seq<byte>>): seq<byte> {
    if chunks == [] then [] else chunks[0] + Flatten(chunks[1..])
  }

  // ---------------------------------------------------------------------------
  // find("\r\n")
  // ---------------------------------------------------------------------------

  /** A carriage return immediately followed by a line feed starts at offset `i`. */
  predicate CrlfAt(s: seq<byte>, i: int) {
    0 <= i && i + 1 < |s| && s[i] == CR && s[i + 1] == LF
  }

  predicate ContainsCrlf(s: seq<byte>) {
    exists i :: 0 <= i < |s| && CrlfAt(s, i)
  }

  function FindCrlfFrom(s: seq<byte>, from: nat): (r: Option<nat>)
    requires from <= |s|
    ensures r.Some? ==> from <= r.value && CrlfAt(s, r.value)
    ensures r.Some? ==> forall j :: from <= j < r.value ==> !CrlfAt(s, j)
    ensures r.None? ==> forall j :: from <= j ==> !CrlfAt(s, j)
    decreases |s| - from
  {
    if from + 1 >= |s| then None
    else if s[from] == CR && s[from + 1] == LF then Some(from)
    else FindCrlfFrom(s, from + 1)
  }

  /** `str::find("\r\n")`: the byte offset of the first CRLF, if any. */
  function FindCrlf(s: seq<byte>): (r: Option<nat>)
    ensures r.Some? ==> CrlfAt(s, r.value) && forall j :: 0 <= j < r.value ==> !CrlfAt(s, j)
    ensures r.None? <==> !ContainsCrlf(s)
  {
    FindCrlfFrom(s, 0)
  }

  /** Appending bytes after the first CRLF does not move it. */
  lemma FindCrlfExtend(s: seq<byte>, t: seq<byte>)
    requires ContainsCrlf(s)
    ensures FindCrlf(s + t) == FindCrlf(s)
  {
    var n := FindCrlf(s).value;
    assert CrlfAt(s + t, n);
    forall j | 0 <= j < n
      ensures !CrlfAt(s + t, j)
    {
      assert CrlfAt(s + t, j) ==> CrlfAt(s, j);
    }
  }

  /** A line without CRLF that does not end in a carriage return is ended by the CRLF placed after it. */
  lemma FirstCrlfAfterLine(line: seq<byte>, rest: seq<byte>)
    requires !ContainsCrlf(line)
    requires line == [] || line[|line| - 1] != CR
    ensures FindCrlf(line + CRLF + rest) == Some(|line|)
  {
    var s := line + CRLF + rest;
    assert CrlfAt(s, |line|);
    forall j | 0 <= j < |line|
      ensures !CrlfAt(s, j)
    {
      if j + 1 < |line| {
        assert CrlfAt(s, j) ==> CrlfAt(line, j);
      } else {
        assert s[j] == line[|line| - 1];
      }
    }
    var m := FindCrlf(s).value;
    assert m <= |line|;
  }

  /** Carriage-return-free bytes around a CRLF-free middle add no CRLF. */
  lemma NoCrlfAround(a: seq<byte>, v: seq<byte>, b: seq<byte>)
    requires CR !in a && CR !in b
    requires !ContainsCrlf(v) && (v == [] || v[|v| - 1] != CR)
    ensures !ContainsCrlf(a + v + b)
    ensures a + v + b == [] || (a + v + b)[|a + v + b| - 1] != CR
  {
    var s := a + v + b;
    forall j | 0 <= j < |s|
      ensures !CrlfAt(s, j)
    {
      if j < |a| {
        assert s[j] == a[j];
      } else if j + 1 < |a| + |v| {
        assert CrlfAt(s, j) ==> CrlfAt(v, j - |a|);
      } else if j < |a| + |v| {
        assert s[j] == v[|v| - 1];
      } else {
        assert s[j] == b[j - |a| - |v|];
      }
    }
    if b != [] {
      assert s[|s| - 1] == b[|b| - 1];
    } else if v != [] {
      assert s[|s| - 1] == v[|v| - 1];
    } else if a != [] {
      assert s[|s| - 1] == a[|a| - 1];
    }
  }

  // ---------------------------------------------------------------------------
  // trim
  // ---------------------------------------------------------------------------

  /** `str::trim_start`: the longest suffix that does not start with whitespace. */
  function TrimStart(s: seq<byte>): (r: seq<byte>)
    ensures |r| <= |s| && r == s[|s| - |r|..]
    ensures AllWhitespace(s[..|s| - |r|])
    ensures r == [] || !IsWhitespace(r[0])
  {
    if |s| > 0 && IsWhitespace(s[0]) then TrimStart(s[1..]) else s
  }

  /** `str::trim_end`: the longest prefix that does not end with whitespace. */
  function TrimEnd(s: seq<byte>): (r: seq<byte>)
    ensures |r| <= |s| && r == s[..|r|]
    ensures AllWhitespace(s[|r|..])
    ensures r == [] || !IsWhitespace(r[|r| - 1])
  {
    if |s| > 0 && IsWhitespace(s[|s| - 1]) then
      var r := TrimEnd(s[..|s| - 1]);
      assert s[|r|..] == s[..|s| - 1][|r|..] + [s[|s| - 1]];
      r
    else s
  }

  /** `str::trim`: whitespace removed from both ends. */
  function Trim(s: seq<byte>): (r: seq<byte>)
    ensures r == [] || (!IsWhitespace(r[0]) && !IsWhitespace(r[|r| - 1]))
    ensures r == [] <==> AllWhitespace(s)
  {
    var t := TrimStart(s);
    var r := TrimEnd(t);
    assert r != [] ==> r[0] == t[0];
    TrimEmptyOnlyForWhitespace(s);
    r
  }

  lemma {:induction false} TrimStartOfWhitespace(s: seq<byte>)
    ensures TrimStart(s) == [] <==> AllWhitespace(s)
    decreases |s|
  {
    if |s| > 0 && IsWhitespace(s[0]) {
      TrimStartOfWhitespace(s[1..]);
      assert AllWhitespace(s) <==> AllWhitespace(s[1..]);
    }
  }

  lemma TrimEmptyOnlyForWhitespace(s: seq<byte>)
    ensures TrimEnd(TrimStart(s)) == [] <==> AllWhitespace(s)
  {
    TrimStartOfWhitespace(s);
    var t := TrimStart(s);
    if t != [] {
      assert t[0..] == t;
    }
  }

  lemma {:induction false} TrimStartPadded(w: seq<byte>, x: seq<byte>)
    requires AllWhitespace(w)
    requires x == [] || !IsWhitespace(x[0])
    ensures TrimStart(w + x) == x
    decreases |w|
  {
    if w == [] {
      assert w + x == x;
    } else {
      assert (w + x)[0] == w[0];
      assert (w + x)[1..] == w[1..] + x;
      TrimStartPadded(w[1..], x);
    }
  }

  lemma {:induction false} TrimEndPadded(x: seq<byte>, w: seq<byte>)
    requires AllWhitespace(w)
    requires x == [] || !IsWhitespace(x[|x| - 1])
    ensures TrimEnd(x + w) == x
    decreases |w|
  {
    if w == [] {
      assert x + w == x;
    } else {
      var s := x + w;
      assert s[|s| - 1] == w[|w| - 1];
      assert s[..|s| - 1] == x + w[..|w| - 1];
      TrimEndPadded(x, w[..|w| - 1]);
    }
  }

  /** Trailing whitespace is trimmed from the tail only, when the head ends in a non-whitespace byte. */
  lemma TrimEndAfter(x: seq<byte>, y: seq<byte>)
    requires x != [] && !IsWhitespace(x[|x| - 1])
    ensures TrimEnd(x + y) == x + TrimEnd(y)
  {
    var y' := TrimEnd(y);
    var w := y[|y'|..];
    SplitAt(y, |y'|);
    assert x + y == (x + y') + w;
    LastOfConcat(x, y');
    TrimEndPadded(x + y', w);
  }

  /** A sequence is its first `k` elements followed by the rest. */
  lemma SplitAt<T>(s: seq<T>, k: nat)
    requires k <= |s|
    ensures s[..k] + s[k..] == s
  {
  }

  lemma LastOfConcat<T>(x: seq<T>, y: seq<T>)
    requires x != []
    ensures (x + y)[|x + y| - 1] == if y == [] then x[|x| - 1] else y[|y| - 1]
  {
  }

  /** Trimming only removes bytes. */
  lemma TrimSubset(s: seq<byte>, b: byte)
    requires b in Trim(s)
    ensures b in s
  {
    var t := TrimStart(s);
    var r := TrimEnd(t);
    var i :| 0 <= i < |r| && r[i] == b;
    assert r[i] == t[i] == s[|s| - |t| + i];
  }

  /** Trimming removes exactly the whitespace padding around a non-padded core. */
  lemma TrimPadded(w1: seq<byte>, x: seq<byte>, w2: seq<byte>)
    requires AllWhitespace(w1) && AllWhitespace(w2)
    requires x == [] || (!IsWhitespace(x[0]) && !IsWhitespace(x[|x| - 1]))
    ensures Trim(w1 + x + w2) == x
  {
    if x == [] {
      assert w1 + x + w2 == w1 + w2;
      assert AllWhitespace(w1 + w2);
    } else {
      assert w1 + x + w2 == w1 + (x + w2);
      TrimStartPadded(w1, x + w2);
      TrimEndPadded(x, w2);
    }
  }

  // ---------------------------------------------------------------------------
  // split_whitespace
  // ---------------------------------------------------------------------------

  /** Length of the leading run of non-whitespace bytes. */
  function TokenLength(t: seq<byte>): (k: nat)
    ensures k <= |t| && NoWhitespace(t[..k])
    ensures k == |t| || IsWhitespace(t[k])
  {
    if t == [] || IsWhitespace(t[0]) then 0 else 1 + TokenLength(t[1..])
  }

  /** `str::split_whitespace`: the maximal runs of non-whitespace bytes, in order. */
  function Tokens(s: seq<byte>): (r: seq<seq<byte>>)
    ensures AllTokens(r)
    decreases |s|
  {
    var t := TrimStart(s);
    if t == [] then []
    else
      var k := TokenLength(t);
      var rest := Tokens(t[k..]);
      AllTokensCons(t[..k], rest);
      [t[..k]] + rest
  }

  lemma {:induction false} TokenLengthExact(t: seq<byte>, rest: seq<byte>)
    requires NoWhitespace(t)
    requires rest == [] || IsWhitespace(rest[0])
    ensures TokenLength(t + rest) == |t|
    decreases |t|
  {
    if t == [] {
      assert t + rest == rest;
    } else {
      assert (t + rest)[0] == t[0];
      assert (t + rest)[1..] == t[1..] + rest;
      TokenLengthExact(t[1..], rest);
    }
  }

  /** Whitespace alone splits into no tokens. */
  lemma TokensOfWhitespace(w: seq<byte>)
    requires AllWhitespace(w)
    ensures Tokens(w) == []
  {
    TrimStartPadded(w, []);
    assert w + [] == w;
  }

  /** A token after optional whitespace, followed by whitespace or nothing, is split off whole. */
  lemma TokensCons(w: seq<byte>, t: seq<byte>, rest: seq<byte>)
    requires AllWhitespace(w)
    requires IsToken(t)
    requires rest == [] || IsWhitespace(rest[0])
    ensures Tokens(w + t + rest) == [t] + Tokens(rest)
  {
    assert w + t + rest == w + (t + rest);
    TrimStartPadded(w, t + rest);
    TokenLengthExact(t, rest);
    assert (t + rest)[..|t|] == t;
    assert (t + rest)[|t|..] == rest;
  }

  /** The tokens joined by single spaces. */
  function JoinSpaced(ts: seq<seq<byte>>): seq<byte> {
    if ts == [] then []
    else if |ts| == 1 then ts[0]
    else ts[0] + [SPACE] + JoinSpaced(ts[1..])
  }

  /** Tokens joined by spaces hold no CR: CR is whitespace. */
  lemma {:induction false} JoinSpacedNoCr(ts: seq<seq<byte>>)
    requires AllTokens(ts)
    ensures CR !in JoinSpaced(ts)
    decreases |ts|
  {
    if ts != [] {
      AllTokensTail(ts);
      assert CR !in ts[0] by {
        assert IsWhitespace(CR);
      }
      if |ts| > 1 {
        JoinSpacedNoCr(ts[1..]);
      }
    }
  }

  lemma TokensOfToken(w: seq<byte>, t: seq<byte>)
    requires AllWhitespace(w)
    requires IsToken(t)
    ensures Tokens(w + t) == [t]
  {
    assert w + t == w + t + [];
    TokensCons(w, t, []);
    TokensOfWhitespace([]);
  }

  lemma TokensOfOne(w: seq<byte>, ts: seq<seq<byte>>)
    requires AllWhitespace(w)
    requires |ts| == 1 && IsToken(ts[0])
    ensures Tokens(w + JoinSpaced(ts)) == ts
  {
    assert JoinSpaced(ts) == ts[0];
    TokensOfToken(w, ts[0]);
    assert [ts[0]] == ts;
  }

  lemma TokensOfSpaced(w: seq<byte>, ts: seq<seq<byte>>)
    requires AllWhitespace(w)
    requires |ts| > 1 && IsToken(ts[0])
    ensures Tokens(w + JoinSpaced(ts)) == [ts[0]] + Tokens([SPACE] + JoinSpaced(ts[1..]))
  {
    assert w + JoinSpaced(ts) == w + ts[0] + ([SPACE] + JoinSpaced(ts[1..]));
    TokensCons(w, ts[0], [SPACE] + JoinSpaced(ts[1..]));
  }

  /** `split_whitespace` undoes joining with spaces, whatever whitespace leads. */
  lemma {:induction false} TokensOfJoin(w: seq<byte>, ts: seq<seq<byte>>)
    requires AllWhitespace(w)
    requires AllTokens(ts)
    ensures Tokens(w + JoinSpaced(ts)) == ts
    decreases |ts|
  {
    if ts == [] {
      assert w + [] == w;
      TokensOfWhitespace(w);
    } else if |ts| == 1 {
      AllTokensTail(ts);
      TokensOfOne(w, ts);
    } else {
      AllTokensTail(ts);
      assert AllWhitespace([SPACE]);
      TokensOfJoin([SPACE], ts[1..]);
      TokensOfSpacedJoin(w, ts);
    }
  }

  lemma TokensOfSpacedJoin(w: seq<byte>, ts: seq<seq<byte>>)
    requires AllWhitespace(w)
    requires |ts| > 1 && IsToken(ts[0])
    requires Tokens([SPACE] + JoinSpaced(ts[1..])) == ts[1..]
    ensures Tokens(w + JoinSpaced(ts)) == ts
  {
    TokensOfSpaced(w, ts);
    ConsTail(ts);
  }

  lemma ConsTail<T>(s: seq<T>)
    requires s != []
    ensures [s[0]] + s[1..] == s
  {
  }

  // ---------------------------------------------------------------------------
  // splitn(2, ':') and strip_prefix
  // ---------------------------------------------------------------------------

  /** `splitn(2, sep)` when the separator occurs: the parts before and after its first occurrence. */
  function SplitOnce(s: seq<byte>, sep: byte): (r: Option<(seq<byte>, seq<byte>)>)
    ensures r.None? <==> sep !in s
    ensures r.Some? ==> s == r.value.0 + [sep] + r.value.1 && sep !in r.value.0
  {
    if s == [] then None
    else if s[0] == sep then
      assert s == [] + [sep] + s[1..];
      Some(([], s[1..]))
    else
      assert s == [s[0]] + s[1..];
      match SplitOnce(s[1..], sep)
      case None => None
      case Some((k, v)) =>
        SplitOnceCons(s[0], s[1..], sep, k, v);
        Some(([s[0]] + k, v))
  }

  lemma SplitOnceCons(c: byte, rest: seq<byte>, sep: byte, k: seq<byte>, v: seq<byte>)
    requires c != sep && rest == k + [sep] + v && sep !in k
    ensures [c] + rest == ([c] + k) + [sep] + v && sep !in [c] + k
  {
  }

  /** The separator after a separator-free prefix is the one `splitn` cuts at. */
  lemma {:induction false} SplitOnceAt(k: seq<byte>, sep: byte, v: seq<byte>)
    requires sep !in k
    ensures SplitOnce(k + [sep] + v, sep) == Some((k, v))
    decreases |k|
  {
    var s := k + [sep] + v;
    if k == [] {
      assert s[0] == sep && s[1..] == v;
    } else {
      assert s[0] == k[0];
      assert s[1..] == k[1..] + [sep] + v;
      SplitOnceAt(k[1..], sep, v);
      assert [k[0]] + k[1..] == k;
    }
  }

  /** `str::strip_prefix`. */
  function StripPrefix(s: seq<byte>, prefix: seq<byte>): (r: Option<seq<byte>>)
    ensures r.Some? <==> prefix <= s
    ensures r.Some? ==> s == prefix + r.value
  {
    if prefix <= s then Some(s[|prefix|..]) else None
  }
}
