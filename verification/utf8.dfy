/**
  Well-formed UTF-8, as `std::str::from_utf8` accepts it: every character is one of
  the byte patterns of table 3-7 of the Unicode Standard (no overlong forms, no
  surrogates, nothing above U+10FFFF, no truncated sequence at the end).
*/
module Utf8 {
  import opened Wrappers
  import opened Text

  predicate IsContinuation(b: byte) {
    0x80 <= b <= 0xBF
  }

  /** Width of the well-formed character at the head of `s`, or 0 when there is none. */
  function CharWidth(s: seq<byte>): (w: nat)
    requires |s| > 0
    ensures w <= 4 && w <= |s|
    ensures w > 0 ==> !IsContinuation(s[0])
    ensures forall i :: 1 <= i < w ==> IsContinuation(s[i])
    ensures s[0] < 0x80 <==> w == 1
  {
    var b := s[0];
    if b < 0x80 then 1
    else if 0xC2 <= b <= 0xDF then
      if |s| >= 2 && IsContinuation(s[1]) then 2 else 0
    else if b == 0xE0 then
      if |s| >= 3 && 0xA0 <= s[1] <= 0xBF && IsContinuation(s[2]) then 3 else 0
    else if 0xE1 <= b <= 0xEC || 0xEE <= b <= 0xEF then
      if |s| >= 3 && IsContinuation(s[1]) && IsContinuation(s[2]) then 3 else 0
    else if b == 0xED then
      if |s| >= 3 && 0x80 <= s[1] <= 0x9F && IsContinuation(s[2]) then 3 else 0
    else if b == 0xF0 then
      if |s| >= 4 && 0x90 <= s[1] <= 0xBF && IsContinuation(s[2]) && IsContinuation(s[3]) then 4 else 0
    else if 0xF1 <= b <= 0xF3 then
      if |s| >= 4 && IsContinuation(s[1]) && IsContinuation(s[2]) && IsContinuation(s[3]) then 4 else 0
    else if b == 0xF4 then
      if |s| >= 4 && 0x80 <= s[1] <= 0x8F && IsContinuation(s[2]) && IsContinuation(s[3]) then 4 else 0
    else 0
  }

  /** `std::str::from_utf8(s).is_ok()`. */
  predicate ValidUtf8(s: seq<byte>)
    decreases |s|
  {
    |s| == 0 || (CharWidth(s) > 0 && ValidUtf8(s[CharWidth(s)..]))
  }

  /** The width of a character depends only on its own bytes. */
  lemma CharWidthOfPrefix(s: seq<byte>, t: seq<byte>)
    requires |s| > 0 && CharWidth(s) > 0
    requires |t| >= CharWidth(s) && t[..CharWidth(s)] == s[..CharWidth(s)]
    ensures CharWidth(t) == CharWidth(s)
  {
    var w := CharWidth(s);
    assert t[0] == s[0];
    assert w >= 2 ==> t[1] == s[1];
    assert w >= 3 ==> t[2] == s[2];
    assert w >= 4 ==> t[3] == s[3];
  }

  lemma {:induction false} AsciiIsValid(s: seq<byte>)
    requires IsAscii(s)
    ensures ValidUtf8(s)
    decreases |s|
  {
    if |s| > 0 {
      AsciiIsValid(s[1..]);
    }
  }

  /** Well-formed strings concatenate to a well-formed string. */
  lemma {:induction false} ConcatValid(a: seq<byte>, b: seq<byte>)
    requires ValidUtf8(a) && ValidUtf8(b)
    ensures ValidUtf8(a + b)
    decreases |a|
  {
    if a == [] {
      assert a + b == b;
    } else {
      var w := CharWidth(a);
      ConcatValid(a[w..], b);
      HeadCharOfConcat(a, b);
      assert ValidUtf8((a + b)[w..]);
    }
  }

  /** The head character of `a` heads `a + b` too, and what follows it is the rest of `a`, then `b`. */
  lemma HeadCharOfConcat(a: seq<byte>, b: seq<byte>)
    requires |a| > 0 && CharWidth(a) > 0
    ensures CharWidth(a + b) == CharWidth(a)
    ensures (a + b)[CharWidth(a)..] == a[CharWidth(a)..] + b
  {
    var w := CharWidth(a);
    assert (a + b)[..w] == a[..w];
    CharWidthOfPrefix(a, a + b);
  }

  /** Behind an ASCII prefix, well-formedness is decided by what follows. */
  lemma {:induction false} AsciiPrefixValid(a: seq<byte>, b: seq<byte>)
    requires IsAscii(a)
    ensures ValidUtf8(a + b) <==> ValidUtf8(b)
    decreases |a|
  {
    if a == [] {
      assert a + b == b;
    } else {
      assert (a + b)[0] == a[0];
      assert (a + b)[1..] == a[1..] + b;
      AsciiPrefixValid(a[1..], b);
    }
  }

  /** Well-formed UTF-8 between two ASCII runs stays well-formed. */
  lemma ValidBetweenAscii(head: seq<byte>, mid: seq<byte>, tail: seq<byte>)
    requires IsAscii(head) && ValidUtf8(mid) && IsAscii(tail)
    ensures ValidUtf8(head + mid + tail)
  {
    assert head + mid + tail == head + (mid + tail);
    AsciiIsValid(tail);
    ConcatValid(mid, tail);
    AsciiPrefixValid(head, mid + tail);
  }

  /**
    Cutting well-formed UTF-8 just after an ASCII byte (a line feed, say) leaves two
    well-formed halves: an ASCII byte is always a whole character.
  */
  lemma {:induction false} SplitAfterAscii(s: seq<byte>, i: int)
    requires ValidUtf8(s)
    requires 0 < i <= |s| && s[i - 1] < 0x80
    ensures ValidUtf8(s[..i]) && ValidUtf8(s[i..])
    decreases |s|
  {
    var w := CharWidth(s);
    if i == 1 {
      assert w == 1;
      assert s[..1][1..] == [];
    } else {
      // the ASCII byte at i - 1 is not a continuation byte, so it lies past the head character
      assert w <= i - 1;
      SplitAfterAscii(s[w..], i - w);
      assert s[w..][..i - w] == s[w..i];
      assert s[w..][i - w..] == s[i..];
      assert s[..i][..w] == s[..w];
      CharWidthOfPrefix(s, s[..i]);
      assert s[..i][w..] == s[w..i];
    }
  }

  // ---------------------------------------------------------------------------
  // Where decoding stops: a hard error, or the end of the input inside a character
  // ---------------------------------------------------------------------------

  /** The width a lead byte announces, or 0 for a byte no character starts with. */
  function LeadWidth(b: byte): nat {
    if b < 0x80 then 1
    else if 0xC2 <= b <= 0xDF then 2
    else if 0xE0 <= b <= 0xEF then 3
    else if 0xF0 <= b <= 0xF4 then 4
    else 0
  }

  /** The range table 3-7 allows for the byte after lead byte `b0`. */
  predicate SecondByteOk(b0: byte, b1: byte) {
    if b0 == 0xE0 then 0xA0 <= b1 <= 0xBF
    else if b0 == 0xED then 0x80 <= b1 <= 0x9F
    else if b0 == 0xF0 then 0x90 <= b1 <= 0xBF
    else if b0 == 0xF4 then 0x80 <= b1 <= 0x8F
    else IsContinuation(b1)
  }

  /**
    The first bytes of a character whose remaining bytes have not arrived: what
    `Utf8Error::error_len` reports as `None` ("the end of the input was reached
    unexpectedly") rather than as an invalid byte sequence.
  */
  predicate IsTruncatedChar(t: seq<byte>) {
    && 0 < |t| < LeadWidth(t[0])
    && (|t| >= 2 ==> SecondByteOk(t[0], t[1]))
    && (|t| >= 3 ==> IsContinuation(t[2]))
  }

  /** A whole character is its lead byte's announced width, with bytes in the allowed ranges. */
  lemma CharWidthShape(s: seq<byte>)
    requires |s| > 0 && CharWidth(s) > 0
    ensures CharWidth(s) == LeadWidth(s[0])
    ensures CharWidth(s) >= 2 ==> SecondByteOk(s[0], s[1])
  {
  }

  /** Bytes that fit a character's pattern but stop short of its width are not a whole character. */
  lemma TruncatedIsNotChar(t: seq<byte>)
    requires IsTruncatedChar(t)
    ensures CharWidth(t) == 0 && !ValidUtf8(t)
  {
    if CharWidth(t) > 0 {
      CharWidthShape(t);
    }
  }

  /**
    `str::from_utf8` as the caller sees it: `None` for an invalid byte sequence;
    `Some(k)` when the first `k` bytes (`valid_up_to`) are well-formed and the rest is
    empty or the start of a character still to come.
  */
  function ValidPrefix(s: seq<byte>): (r: Option<nat>)
    ensures r.Some? ==> r.value <= |s| && ValidUtf8(s[..r.value])
    ensures r.Some? ==> r.value == |s| || IsTruncatedChar(s[r.value..])
    ensures ValidUtf8(s) ==> r == Some(|s|)
    ensures r == Some(|s|) ==> ValidUtf8(s)
    decreases |s|
  {
    if s == [] then Some(0)
    else
      var w := CharWidth(s);
      if w > 0 then
        match ValidPrefix(s[w..])
        case None => None
        case Some(k) =>
          ValidPrefixStep(s, w, k);
          Some(w + k)
      else if IsTruncatedChar(s) then
        TruncatedIsNotChar(s);
        Some(0)
      else None
  }

  /**
    The converse of `ValidPrefix`'s contract: a well-formed prefix followed by nothing,
    or by the start of a character still to come, decodes exactly up to that prefix.
  */
  lemma {:induction false} ValidPrefixOfTruncated(p: seq<byte>, t: seq<byte>)
    requires ValidUtf8(p) && (t == [] || IsTruncatedChar(t))
    ensures ValidPrefix(p + t) == Some(|p|)
    decreases |p|
  {
    if p == [] {
      assert p + t == t;
      if t != [] {
        TruncatedIsNotChar(t);
      }
    } else {
      var w := CharWidth(p);
      HeadCharOfConcat(p, t);
      ValidPrefixOfTruncated(p[w..], t);
    }
  }

  lemma ValidPrefixStep(s: seq<byte>, w: nat, k: nat)
    requires |s| > 0 && w == CharWidth(s) > 0
    requires k <= |s[w..]| && ValidUtf8(s[w..][..k])
    ensures ValidUtf8(s[..w + k])
    ensures s[w + k..] == s[w..][k..]
    ensures ValidUtf8(s[..w + k]) && w + k == |s| ==> ValidUtf8(s)
  {
    var p := s[..w + k];
    assert p[..w] == s[..w];
    CharWidthOfPrefix(s, p);
    assert p[w..] == s[w..][..k];
    assert w + k == |s| ==> p == s;
  }

  /**
    A prefix of well-formed UTF-8 never holds an invalid byte sequence: decoding it
    stops, at worst, inside a character whose remaining bytes come later.
  */
  lemma {:induction false} PrefixOfValidDecodes(a: seq<byte>, b: seq<byte>)
    requires ValidUtf8(a + b)
    ensures ValidPrefix(a).Some?
    decreases |a|
  {
    if a != [] {
      var s := a + b;
      var w := CharWidth(s);
      assert s[0] == a[0];
      if |a| >= w {
        assert s[..w] == a[..w];
        CharWidthOfPrefix(s, a);
        assert s[w..] == a[w..] + b;
        PrefixOfValidDecodes(a[w..], b);
      } else {
        CharWidthShape(s);
        assert |a| >= 2 ==> s[1] == a[1];
        assert |a| >= 3 ==> s[2] == a[2];
        assert IsTruncatedChar(a);
        TruncatedIsNotChar(a);
      }
    }
  }
}
