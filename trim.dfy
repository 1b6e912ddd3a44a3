/** Trailing trimming of text as Rust's `str::trim_end_matches(char)` and
    `str::trim_end` do it. */
module Trim {

  /** The Unicode White_Space property, which `char::is_whitespace` and hence
      `str::trim_end` test. */
  predicate IsWhiteSpace(c: char) {
    || ('\U{0009}' <= c <= '\U{000D}')
    || c == '\U{0020}'
    || c == '\U{0085}'
    || c == '\U{00A0}'
    || c == '\U{1680}'
    || ('\U{2000}' <= c <= '\U{200A}')
    || c == '\U{2028}'
    || c == '\U{2029}'
    || c == '\U{202F}'
    || c == '\U{205F}'
    || c == '\U{3000}'
  }

  /** `s.trim_end_matches(p)`: the longest prefix of s after which only copies
      of p remain, which therefore does not itself end in p. */
  function TrimEndMatches(s: string, p: char): (r: string)
    ensures r <= s
    ensures forall k | |r| <= k < |s| :: s[k] == p
    ensures r == [] || r[|r| - 1] != p
  {
    if s != [] && s[|s| - 1] == p then TrimEndMatches(s[..|s| - 1], p) else s
  }

  /** `s.trim_end()`: the longest prefix of s after which only white space
      remains, which therefore does not itself end in white space. */
  function TrimEnd(s: string): (r: string)
    ensures r <= s
    ensures forall k | |r| <= k < |s| :: IsWhiteSpace(s[k])
    ensures r == [] || !IsWhiteSpace(r[|r| - 1])
  {
    if s != [] && IsWhiteSpace(s[|s| - 1]) then TrimEnd(s[..|s| - 1]) else s
  }

  /** Appending copies of p does not change what `trim_end_matches(p)`
      yields: padding is removed whatever its length. */
  lemma {:induction false} TrimEndMatchesPadding(s: string, p: char, pad: string)
    requires forall k | 0 <= k < |pad| :: pad[k] == p
    ensures TrimEndMatches(s + pad, p) == TrimEndMatches(s, p)
    decreases |pad|
  {
    if pad != [] {
      assert (s + pad)[..|s + pad| - 1] == s + pad[..|pad| - 1];
      TrimEndMatchesPadding(s, p, pad[..|pad| - 1]);
    } else {
      assert s + pad == s;
    }
  }

  /** Appending white space does not change what `trim_end` yields. */
  lemma {:induction false} TrimEndPadding(s: string, pad: string)
    requires forall k | 0 <= k < |pad| :: IsWhiteSpace(pad[k])
    ensures TrimEnd(s + pad) == TrimEnd(s)
    decreases |pad|
  {
    if pad != [] {
      assert (s + pad)[..|s + pad| - 1] == s + pad[..|pad| - 1];
      TrimEndPadding(s, pad[..|pad| - 1]);
    } else {
      assert s + pad == s;
    }
  }

  /** Trimming a text that does not end in the trimmed kind of character
      leaves it unchanged. */
  lemma TrimOfTrimmed(s: string, p: char)
    ensures TrimEndMatches(TrimEndMatches(s, p), p) == TrimEndMatches(s, p)
    ensures TrimEnd(TrimEnd(s)) == TrimEnd(s)
  {
  }
}
