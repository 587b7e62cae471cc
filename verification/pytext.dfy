/** The pieces of Python's `str` type the protocol code relies on:
    `str.isspace`, `str.strip()`, `str.lower()` and ASCII digits.
    Strings are sequences of Unicode scalar values, as Python 3 strings are
    once decoded from well-formed UTF-8. */
module PyText {

  /** `c.isspace()` in Python 3: the fixed table of characters CPython treats
      as whitespace (bidirectional class WS, B or S, or category Zs). This is
      the set `str.strip()` with no argument removes. */
  predicate IsSpace(c: char) {
    || ('\t' <= c <= '\r')                   // U+0009 .. U+000D
    || ('\U{1C}' <= c <= ' ')                 // U+001C .. U+001F and U+0020
    || c == '\U{85}' || c == '\U{A0}' || c == '\U{1680}'
    || ('\U{2000}' <= c <= '\U{200A}')
    || c == '\U{2028}' || c == '\U{2029}' || c == '\U{202F}'
    || c == '\U{205F}' || c == '\U{3000}'
  }

  /** The whitespace `int()` skips around a literal. CPython first maps every
      non-ASCII whitespace character to a space and then skips only the six
      C-locale spaces, so the ASCII separators U+001C .. U+001F, which
      `isspace` accepts, are NOT skipped by `int()`. */
  predicate IsIntSpace(c: char) {
    || ('\t' <= c <= '\r') || c == ' '
    || (c as int >= 0x7F && IsSpace(c))
  }

  lemma IntSpaceIsSpace(c: char)
    ensures IsIntSpace(c) ==> IsSpace(c)
    ensures IsSpace(c) && !IsIntSpace(c) <==> '\U{1C}' <= c <= '\U{1F}'
  {
  }

  predicate IsAsciiDigit(c: char) {
    '0' <= c <= '9'
  }

  /** Value of an ASCII digit. */
  function DigitValue(c: char): (d: nat)
    requires IsAsciiDigit(c)
    ensures d < 10
  {
    c as int - '0' as int
  }

  /** The ASCII digit with value d. */
  function DigitChar(d: nat): (c: char)
    requires d < 10
    ensures IsAsciiDigit(c) && DigitValue(c) == d
  {
    ('0' as int + d) as char
  }

  ghost predicate All(s: string, p: char -> bool) {
    forall k :: 0 <= k < |s| ==> p(s[k])
  }

  /** Removes the longest prefix of s made of characters satisfying p. */
  function TrimLeft(s: string, p: char -> bool): (r: string)
    ensures |r| <= |s|
    decreases |s|
  {
    if |s| > 0 && p(s[0]) then TrimLeft(s[1..], p) else s
  }

  /** Removes the longest suffix of s made of characters satisfying p. */
  function TrimRight(s: string, p: char -> bool): (r: string)
    ensures |r| <= |s|
    decreases |s|
  {
    if |s| > 0 && p(s[|s| - 1]) then TrimRight(s[..|s| - 1], p) else s
  }

  /** TrimLeft keeps a suffix, drops only p-characters, and stops at the
      first character that is not one. */
  lemma {:induction false} TrimLeftSpec(s: string, p: char -> bool)
    ensures var r := TrimLeft(s, p);
      && r == s[|s| - |r|..]
      && All(s[..|s| - |r|], p)
      && (|r| > 0 ==> !p(r[0]))
    decreases |s|
  {
    if |s| > 0 && p(s[0]) {
      TrimLeftSpec(s[1..], p);
      var r := TrimLeft(s, p);
      assert s[1..][..|s| - 1 - |r|] == s[1..|s| - |r|];
      assert forall k :: 1 <= k < |s| - |r| ==> s[k] == s[1..|s| - |r|][k - 1];
    }
  }

  /** TrimRight keeps a prefix, drops only p-characters, and stops at the
      last character that is not one. */
  lemma {:induction false} TrimRightSpec(s: string, p: char -> bool)
    ensures var r := TrimRight(s, p);
      && r == s[..|r|]
      && All(s[|r|..], p)
      && (|r| > 0 ==> !p(r[|r| - 1]))
    decreases |s|
  {
    if |s| > 0 && p(s[|s| - 1]) {
      TrimRightSpec(s[..|s| - 1], p);
      var r := TrimRight(s, p);
      assert s[..|s| - 1][|r|..] == s[|r|..|s| - 1];
      assert forall k :: |r| <= k < |s| - 1 ==> s[k] == s[|r|..|s| - 1][k - |r|];
    }
  }

  /** Both ends trimmed: the slice s[i..j] where s[..i] and s[j..] are the
      maximal runs of characters satisfying p at either end. */
  function Trim(s: string, p: char -> bool): string {
    TrimRight(TrimLeft(s, p), p)
  }

  /** `s.strip()` with no argument. */
  function Strip(s: string): string {
    Trim(s, IsSpace)
  }

  /** A trimmed string is a slice of its input with only p-characters cut
      away at either end, and neither of its ends is a p-character. This
      fixes the result uniquely. */
  lemma TrimIsSlice(s: string, p: char -> bool)
    ensures var r := Trim(s, p);
      && (|r| > 0 ==> !p(r[0]) && !p(r[|r| - 1]))
      && (exists i :: 0 <= i <= |s| - |r| && r == s[i..i + |r|]
           && All(s[..i], p) && All(s[i + |r|..], p))
  {
    var l := TrimLeft(s, p);
    TrimLeftSpec(s, p);
    var r := TrimRight(l, p);
    TrimRightSpec(l, p);
    var i := |s| - |l|;
    assert s[i..][..|r|] == s[i..i + |r|];
    assert s[i + |r|..] == l[|r|..];
    if |r| > 0 {
      assert r[0] == l[0];
    }
  }

  /** Trimming is idempotent. */
  lemma TrimIdempotent(s: string, p: char -> bool)
    ensures Trim(Trim(s, p), p) == Trim(s, p)
  {
    TrimIsSlice(s, p);
    TrimKeeps(Trim(s, p), p);
  }

  /** A string with no p-character at either end is left unchanged. */
  lemma TrimKeeps(s: string, p: char -> bool)
    requires |s| > 0 ==> !p(s[0]) && !p(s[|s| - 1])
    ensures Trim(s, p) == s
  {
  }

  lemma {:induction false} TrimLeftPrefix(pre: string, s: string, p: char -> bool)
    requires All(pre, p)
    ensures TrimLeft(pre + s, p) == TrimLeft(s, p)
    decreases |pre|
  {
    if |pre| > 0 {
      assert (pre + s)[1..] == pre[1..] + s;
      TrimLeftPrefix(pre[1..], s, p);
    } else {
      assert pre + s == s;
    }
  }

  lemma {:induction false} TrimRightSuffix(s: string, post: string, p: char -> bool)
    requires All(post, p)
    ensures TrimRight(s + post, p) == TrimRight(s, p)
    decreases |post|
  {
    if |post| > 0 {
      var q := post[..|post| - 1];
      assert (s + post)[..|s + post| - 1] == s + q;
      TrimRightSuffix(s, q, p);
    } else {
      assert s + post == s;
    }
  }

  lemma {:induction false} TrimLeftSuffix(s: string, post: string, p: char -> bool)
    requires All(post, p)
    ensures TrimLeft(s + post, p) == TrimLeft(s, p) + post
       || (TrimLeft(s, p) == [] && All(TrimLeft(s + post, p), p))
    decreases |s|
  {
    if |s| > 0 && p(s[0]) {
      assert (s + post)[1..] == s[1..] + post;
      TrimLeftSuffix(s[1..], post, p);
    } else if |s| == 0 {
      assert s + post == post;
      TrimLeftAllP(post, p);
    }
  }

  lemma {:induction false} TrimLeftAllP(s: string, p: char -> bool)
    requires All(s, p)
    ensures TrimLeft(s, p) == []
    decreases |s|
  {
    if |s| > 0 {
      TrimLeftAllP(s[1..], p);
    }
  }

  lemma {:induction false} TrimRightAllP(s: string, p: char -> bool)
    requires All(s, p)
    ensures TrimRight(s, p) == []
    decreases |s|
  {
    if |s| > 0 {
      TrimRightAllP(s[..|s| - 1], p);
    }
  }

  /** Characters satisfying p around s do not change its trimmed form. */
  lemma TrimSurrounded(pre: string, s: string, post: string, p: char -> bool)
    requires All(pre, p) && All(post, p)
    ensures Trim(pre + s + post, p) == Trim(s, p)
  {
    assert pre + s + post == pre + (s + post);
    TrimLeftPrefix(pre, s + post, p);
    TrimLeftSuffix(s, post, p);
    var l := TrimLeft(s, p);
    if TrimLeft(s + post, p) == l + post {
      TrimRightSuffix(l, post, p);
    } else {
      TrimRightAllP(TrimLeft(s + post, p), p);
      TrimRightAllP(l, p);
    }
  }

  /** If every character kept by Trim satisfies q, every character of the
      input satisfies q or p. */
  lemma {:induction false} TrimAlphabet(s: string, p: char -> bool, q: char -> bool)
    requires All(Trim(s, p), q)
    ensures forall k :: 0 <= k < |s| ==> q(s[k]) || p(s[k])
  {
    var l := TrimLeft(s, p);
    TrimLeftSpec(s, p);
    TrimRightSpec(l, p);
    var t := TrimRight(l, p);
    var i := |s| - |l|;
    forall k | 0 <= k < |s|
      ensures q(s[k]) || p(s[k])
    {
      if k < i {
        assert s[..i][k] == s[k];
      } else {
        assert l[k - i] == s[k];
        if k - i < |t| {
          assert t[k - i] == l[k - i];
        } else {
          assert l[|t|..][k - i - |t|] == l[k - i];
        }
      }
    }
  }

  /** `c.lower()` restricted to ASCII: A..Z map to a..z, everything else is
      kept. */
  function LowerChar(c: char): char {
    if 'A' <= c <= 'Z' then (c as int + 32) as char else c
  }

  /** `s.lower()` with ASCII case mapping. For a comparison against an ASCII
      lower-case word such as "stop" this agrees with Python's full Unicode
      mapping: the only non-ASCII characters whose lower-case form contains
      an ASCII letter are U+0130 (to "i" plus a combining dot) and U+212A
      (to "k"). */
  function Lower(s: string): (r: string)
    ensures |r| == |s|
    ensures forall k :: 0 <= k < |r| ==> !('A' <= r[k] <= 'Z')
    ensures forall k :: 0 <= k < |s| && 'A' <= s[k] <= 'Z' ==> 'a' <= r[k] <= 'z' && r[k] as int - 'a' as int == s[k] as int - 'A' as int
    ensures forall k :: 0 <= k < |s| && !('A' <= s[k] <= 'Z') ==> r[k] == s[k]
  {
    seq(|s|, k requires 0 <= k < |s| => LowerChar(s[k]))
  }

  /** Lowering an already lowered string changes nothing. */
  lemma LowerIdempotent(s: string)
    ensures Lower(Lower(s)) == Lower(s)
  {
  }
}
