/** String helpers shared by the parsers: Python's notion of whitespace,
    `str.lstrip`/`str.rstrip`/`str.strip`, prefix and suffix tests. */
module Text {

  /** Python's `str.isspace()`, which is also what the regex class `\s`
      matches on `str` patterns: ASCII whitespace, the information
      separators U+001C..U+001F, and the Unicode space separators. */
  predicate IsSpace(c: char) {
    || c == ' ' || c == '\t' || c == '\n' || c == '\r'
    || c == '\U{000B}' || c == '\U{000C}'
    || ('\U{001C}' <= c <= '\U{001F}')
    || c == '\U{0085}' || c == '\U{00A0}' || c == '\U{1680}'
    || ('\U{2000}' <= c <= '\U{200A}')
    || c == '\U{2028}' || c == '\U{2029}' || c == '\U{202F}'
    || c == '\U{205F}' || c == '\U{3000}'
  }

  /** ASCII decimal digit. */
  predicate IsDigit(c: char) {
    '0' <= c <= '9'
  }

  /** Number of whitespace characters at the start of `s`. */
  function LeadingSpaces(s: string): (n: nat)
    ensures n <= |s|
    ensures forall i :: 0 <= i < n ==> IsSpace(s[i])
    ensures n == |s| || !IsSpace(s[n])
  {
    if |s| == 0 || !IsSpace(s[0]) then 0 else 1 + LeadingSpaces(s[1..])
  }

  /** Number of whitespace characters at the end of `s`. */
  function TrailingSpaces(s: string): (n: nat)
    ensures n <= |s|
    ensures forall i :: |s| - n <= i < |s| ==> IsSpace(s[i])
    ensures n == |s| || !IsSpace(s[|s| - n - 1])
  {
    if |s| == 0 || !IsSpace(s[|s| - 1]) then 0 else 1 + TrailingSpaces(s[..|s| - 1])
  }

  /** Python `s.lstrip()`. */
  function LStrip(s: string): (t: string)
    ensures |t| <= |s| && t == s[|s| - |t|..]
    ensures |t| == 0 || !IsSpace(t[0])
    ensures forall i :: 0 <= i < |s| - |t| ==> IsSpace(s[i])
  {
    s[LeadingSpaces(s)..]
  }

  /** Python `s.rstrip()`. */
  function RStrip(s: string): (t: string)
    ensures |t| <= |s| && t == s[..|t|]
    ensures |t| == 0 || !IsSpace(t[|t| - 1])
    ensures forall i :: |t| <= i < |s| ==> IsSpace(s[i])
  {
    s[..|s| - TrailingSpaces(s)]
  }

  /** Python `s.strip()`. */
  function Strip(s: string): string {
    RStrip(LStrip(s))
  }

  /** Python `s.startswith(p)`. */
  predicate StartsWith(s: string, p: string) {
    |p| <= |s| && s[..|p|] == p
  }

  /** Python `s.endswith(p)`. */
  predicate EndsWith(s: string, p: string) {
    |p| <= |s| && s[|s| - |p|..] == p
  }

  /** `StartsWith` is the prefix relation on sequences. */
  lemma StartsWithIsPrefix(s: string, p: string)
    ensures StartsWith(s, p) <==> p <= s
  {
  }

  /** Stripping the right end never changes whether a string starts with a
      prefix that ends in a non-space character: `s.strip().startswith(p)` and
      `s.lstrip().startswith(p)` agree. */
  lemma {:induction false} StripStartsWith(s: string, p: string)
    requires |p| > 0 && !IsSpace(p[|p| - 1])
    ensures StartsWith(Strip(s), p) <==> StartsWith(LStrip(s), p)
  {
    var l := LStrip(s);
    var t := RStrip(l);
    if StartsWith(l, p) {
      // the last character of p sits in l at |p|-1 and is not a space,
      // so the stripped suffix starts after it
      assert !IsSpace(l[|p| - 1]);
      assert |p| <= |t|;
      assert t[..|p|] == l[..|p|];
    }
    if StartsWith(t, p) {
      assert l[..|p|] == t[..|p|];
    }
  }

  /** Concatenation regrouped to the right. */
  lemma Associate(a: string, b: string, c: string)
    ensures a + (b + c) == a + b + c
  {
  }

  /** The number of occurrences of `c` in `s`. */
  function Count(s: string, c: char): (n: nat)
    ensures n <= |s|
    ensures n == 0 <==> c !in s
  {
    if |s| == 0 then 0 else (if s[0] == c then 1 else 0) + Count(s[1..], c)
  }

  lemma {:induction false} CountAppend(a: string, b: string, c: char)
    ensures Count(a + b, c) == Count(a, c) + Count(b, c)
  {
    if |a| == 0 {
      assert a + b == b;
    } else {
      assert (a + b)[1..] == a[1..] + b;
      CountAppend(a[1..], b, c);
    }
  }
}
