/** `hex_to_rgb`: the contribution calendar's cell colours arrive as
    `#rrggbb` strings and are turned into three integer components. */
module Colors {
  import opened Options

  datatype Rgb = Rgb(r: int, g: int, b: int)

  predicate IsHexDigit(c: char) {
    ('0' <= c <= '9') || ('a' <= c <= 'f') || ('A' <= c <= 'F')
  }

  function HexValue(c: char): (v: nat)
    requires IsHexDigit(c)
    ensures v < 16
  {
    if '0' <= c <= '9' then c as int - '0' as int
    else if 'a' <= c <= 'f' then c as int - 'a' as int + 10
    else c as int - 'A' as int + 10
  }

  /** The lower-case digit for a value below 16. */
  function HexDigit(v: nat): (c: char)
    requires v < 16
    ensures IsHexDigit(c) && HexValue(c) == v
  {
    if v < 10 then ('0' as int + v) as char else ('a' as int + v - 10) as char
  }

  /** The whitespace `int()` skips around its digits, ASCII only here.
      Python skips every `str.isspace()` character, the set `Text.IsSpace`
      models; this narrower set is deliberate, so a field padded with
      other whitespace counts as failing. */
  predicate IsIntSpace(c: char) {
    c == ' ' || c == '\t' || c == '\n' || c == '\r' || c == '\U{000B}' || c == '\U{000C}'
  }

  /** `s.lstrip("#")`: every leading `#` is removed. */
  function StripHashes(s: string): (t: string)
    ensures |t| <= |s| && t == s[|s| - |t|..]
    ensures forall i :: 0 <= i < |s| - |t| ==> s[i] == '#'
    ensures |t| == 0 || t[0] != '#'
  {
    if |s| > 0 && s[0] == '#' then StripHashes(s[1..]) else s
  }

  /** Python's slice `s[i:j]` for `0 <= i <= j`: out-of-range ends are clipped. */
  function Slice(s: string, i: nat, j: nat): (t: string)
    requires i <= j
    ensures |t| <= j - i
    ensures j <= |s| ==> t == s[i..j]
  {
    if j <= |s| then s[i..j] else if i <= |s| then s[i..] else []
  }

  /** `int(t, 16)` on a field of at most two characters: `None` where Python
      raises `ValueError`. One hex digit may be padded with whitespace or
      preceded by a sign. */
  function ParseField(t: string): (v: Option<int>)
    requires |t| <= 2
    ensures v.Some? ==> -15 <= v.value <= 255
    ensures |t| == 0 ==> v == None
  {
    if |t| == 1 then
      if IsHexDigit(t[0]) then Some(HexValue(t[0])) else None
    else if |t| == 2 then
      if IsHexDigit(t[0]) && IsHexDigit(t[1]) then Some(16 * HexValue(t[0]) + HexValue(t[1]))
      else if IsHexDigit(t[0]) && IsIntSpace(t[1]) then Some(HexValue(t[0]))
      else if IsIntSpace(t[0]) && IsHexDigit(t[1]) then Some(HexValue(t[1]))
      else if t[0] == '+' && IsHexDigit(t[1]) then Some(HexValue(t[1]))
      else if t[0] == '-' && IsHexDigit(t[1]) then Some(0 - HexValue(t[1]) as int)
      else None
    else None
  }

  /** The value of the two hex digits at `t[i]`, `t[i+1]`. */
  function ByteAt(t: string, i: nat): int
    requires i + 1 < |t| && IsHexDigit(t[i]) && IsHexDigit(t[i + 1])
  {
    16 * HexValue(t[i]) + HexValue(t[i + 1])
  }

  /** The first six characters are hex digits. */
  predicate SixHexDigits(t: string) {
    |t| >= 6 && forall i :: 0 <= i < 6 ==> IsHexDigit(t[i])
  }

  /** `hex_to_rgb(s)`: strip the leading `#`s, parse characters 0-1, 2-3 and
      4-5 as hex; later characters are never looked at. `None` where Python
      raises. */
  function HexToRgb(s: string): (c: Option<Rgb>)
    ensures var t := StripHashes(s);
      SixHexDigits(t) ==> c == Some(Rgb(ByteAt(t, 0), ByteAt(t, 2), ByteAt(t, 4)))
    ensures SixHexDigits(StripHashes(s)) ==>
      0 <= c.value.r <= 255 && 0 <= c.value.g <= 255 && 0 <= c.value.b <= 255
    ensures |StripHashes(s)| < 5 ==> c == None
  {
    Fields(StripHashes(s))
  }

  /** The three slices of an already stripped colour, parsed. */
  function Fields(t: string): Option<Rgb> {
    match (ParseField(Slice(t, 0, 2)), ParseField(Slice(t, 2, 4)), ParseField(Slice(t, 4, 6)))
    case (Some(r), Some(g), Some(b)) => Some(Rgb(r, g, b))
    case _ => None
  }

  /** Any number of leading `#` gives the same colour. */
  lemma {:induction false} LeadingHashesIgnored(s: string)
    ensures HexToRgb(['#'] + s) == HexToRgb(s)
  {
    assert (['#'] + s)[1..] == s;
  }

  /** Characters after the sixth never change the colour. */
  lemma TailIgnored(s: string, u: string)
    requires |StripHashes(s)| >= 6
    ensures HexToRgb(s + u) == HexToRgb(s)
  {
    StripHashesAppend(s, u);
    var t := StripHashes(s);
    SliceAppend(t, u, 0, 2);
    SliceAppend(t, u, 2, 4);
    SliceAppend(t, u, 4, 6);
  }

  lemma SliceAppend(t: string, u: string, i: nat, j: nat)
    requires i <= j <= |t|
    ensures Slice(t + u, i, j) == Slice(t, i, j)
  {
    assert (t + u)[i..j] == t[i..j];
  }

  lemma {:induction false} StripHashesAppend(s: string, u: string)
    requires |StripHashes(s)| > 0
    ensures StripHashes(s + u) == StripHashes(s) + u
  {
    if |s| > 0 && s[0] == '#' {
      assert (s + u)[1..] == s[1..] + u;
      StripHashesAppend(s[1..], u);
    }
  }

  predicate IsByte(v: int) {
    0 <= v <= 255
  }

  /** `#rrggbb` with lower-case digits. */
  function FormatHex(c: Rgb): (s: string)
    requires IsByte(c.r) && IsByte(c.g) && IsByte(c.b)
    ensures |s| == 7 && s[0] == '#'
  {
    ['#', HexDigit(c.r / 16), HexDigit(c.r % 16),
          HexDigit(c.g / 16), HexDigit(c.g % 16),
          HexDigit(c.b / 16), HexDigit(c.b % 16)]
  }

  /** Formatting a colour and parsing it back gives the colour. */
  lemma ParseFormat(c: Rgb)
    requires IsByte(c.r) && IsByte(c.g) && IsByte(c.b)
    ensures HexToRgb(FormatHex(c)) == Some(c)
  {
    var s := FormatHex(c);
    assert StripHashes(s) == s[1..];
    assert SixHexDigits(s[1..]);
  }

  predicate IsLowerHexDigit(ch: char) {
    ('0' <= ch <= '9') || ('a' <= ch <= 'f')
  }

  /** Parsing `#` and six lower-case hex digits and formatting the colour
      gives back the same string. */
  lemma {:induction false} FormatParse(s: string)
    requires |s| == 7 && s[0] == '#' && forall i :: 1 <= i < 7 ==> IsLowerHexDigit(s[i])
    ensures HexToRgb(s).Some?
    ensures var c := HexToRgb(s).value; IsByte(c.r) && IsByte(c.g) && IsByte(c.b) && FormatHex(c) == s
  {
    var t := s[1..];
    assert StripHashes(s) == t;
    assert SixHexDigits(t);
    var c := HexToRgb(s).value;
    ByteDigits(t, 0);
    ByteDigits(t, 2);
    ByteDigits(t, 4);
    assert FormatHex(c) == ['#'] + t;
  }

  /** The two digits of a lower-case byte come back from its value. */
  lemma ByteDigits(t: string, i: nat)
    requires i + 1 < |t| && IsLowerHexDigit(t[i]) && IsLowerHexDigit(t[i + 1])
    ensures HexDigit(ByteAt(t, i) / 16) == t[i] && HexDigit(ByteAt(t, i) % 16) == t[i + 1]
  {
    var hi, lo := HexValue(t[i]), HexValue(t[i + 1]);
    assert (16 * hi + lo) / 16 == hi && (16 * hi + lo) % 16 == lo;
    LowerDigitRoundTrip(t[i]);
    LowerDigitRoundTrip(t[i + 1]);
  }

  lemma LowerDigitRoundTrip(ch: char)
    requires IsLowerHexDigit(ch)
    ensures HexDigit(HexValue(ch)) == ch
  {
  }

  /** GitHub's lightest calendar colour. */
  lemma EmptyCellColour()
    ensures HexToRgb("#ebedf0") == Some(Rgb(235, 237, 240))
  {
    var t := "ebedf0";
    StripOneHash("#ebedf0");
    assert "#ebedf0"[1..] == t;
    ExampleBytes(t);
  }

  lemma ExampleBytes(t: string)
    requires t == "ebedf0"
    ensures SixHexDigits(t)
    ensures ByteAt(t, 0) == 235 && ByteAt(t, 2) == 237 && ByteAt(t, 4) == 240
  {
  }

  lemma StripOneHash(s: string)
    requires |s| > 1 && s[0] == '#' && s[1] != '#'
    ensures StripHashes(s) == s[1..]
  {
  }

  /** Five digits still parse: the third slice holds a single digit. Four do not. */
  lemma ShortColours()
    ensures HexToRgb("#12345") == Some(Rgb(18, 52, 5))
    ensures HexToRgb("#1234") == None
  {
    assert StripHashes("#12345") == "12345";
    assert StripHashes("#1234") == "1234";
  }
}
