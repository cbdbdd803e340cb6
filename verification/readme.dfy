/** The README renderer (`process_readme_line`): every line of a README is
    classified as a fence, a line inside a fenced code block, a bullet, a
    numbered item, a heading or a paragraph, and the pair of flags
    `(in_code_block, in_inline_code)` is threaded from line to line. The
    model returns the block a line produces instead of drawing it. */
module Readme {
  import opened Options
  import opened Text
  import opened Inline

  /** The two flags the renderer threads through the lines. */
  datatype LineState = LineState(inCodeBlock: bool, inInlineCode: bool)

  /** What one line draws. `x` is the left margin set with `set_x`, `size`
      the heading's font size. List items and paragraphs carry the text
      they hand to the inline pass (`process_inline`), headings the text
      they write as is. */
  datatype Block =
    | Fence
    | CodeLine(text: string)
    | ListItem(marker: string, x: int, text: string)
    | Heading(level: nat, size: nat, x: int, text: string)
    | Paragraph(x: int, text: string)

  /** The runs a list item or paragraph writes: its text through the
      inline pass. */
  function InlineRuns(b: Block): seq<Run>
    requires b.ListItem? || b.Paragraph?
  {
    Tokenize(b.text)
  }

  /** A line that opens or closes a fenced code block: three backticks
      after the indentation (see `FenceIsStripped` for the program's
      `line.strip().startswith('```')`). */
  predicate IsFence(line: string) {
    var k := LeadingSpaces(line);
    k + 3 <= |line| && line[k] == '`' && line[k + 1] == '`' && line[k + 2] == '`'
  }

  /** The fence test agrees with stripping both ends of the line and
      looking for three backticks at the start. */
  lemma FenceIsStripped(line: string)
    ensures IsFence(line) <==> StartsWith(Strip(line), "```")
  {
    StripStartsWith(line, "```");
    var s := LStrip(line);
    if StartsWith(s, "```") {
      assert s[..3][0] == '`' && s[..3][1] == '`' && s[..3][2] == '`';
    }
    if IsFence(line) {
      assert s[..3] == "```";
    }
  }

  /** The margin of a line indented by `indent` characters. */
  function Margin(indent: nat): int {
    10 + indent * 2
  }

  /** The font size of a heading: two points less per level, never below 10. */
  function HeadingSize(level: nat): nat {
    if 16 - level * 2 > 10 then 16 - level * 2 else 10
  }

  /** What `(.*)` captures: everything before the first newline. */
  function UpToNewline(s: string): (t: string)
    ensures t <= s && '\n' !in t
    ensures |t| == |s| || s[|t|] == '\n'
  {
    match Find(s, '\n')
    case None => s
    case Some(k) => s[..k]
  }

  /** Number of characters equal to `c` at the start of `s`. */
  function RunOf(s: string, c: char): (n: nat)
    ensures n <= |s|
    ensures forall i :: 0 <= i < n ==> s[i] == c
    ensures n == |s| || s[n] != c
  {
    if |s| == 0 || s[0] != c then 0 else 1 + RunOf(s[1..], c)
  }

  /** Number of ASCII digits at the start of `s`. */
  function DigitRun(s: string): (n: nat)
    ensures n <= |s|
    ensures forall i :: 0 <= i < n ==> IsDigit(s[i])
    ensures n == |s| || !IsDigit(s[n])
  {
    if |s| == 0 || !IsDigit(s[0]) then 0 else 1 + DigitRun(s[1..])
  }

  /** The text after the whitespace that starts `s`, up to a newline: the
      `\s+(.*)` tail shared by all three line patterns. The greedy `\s+`
      takes every leading space, and `(.*)` then matches whatever is left. */
  function Tail(s: string): string {
    UpToNewline(s[LeadingSpaces(s)..])
  }

  /** `re.match(r'([-*+])\s+(.*)', s)`: the item text. */
  function BulletMatch(s: string): Option<string> {
    if |s| >= 2 && s[0] in "-*+" && IsSpace(s[1]) then Some(Tail(s[1..])) else None
  }

  /** `re.match(r'(\d+)\.\s+(.*)', s)`: the number and the item text. A
      shorter digit run cannot help, since a digit is never the dot. */
  function OrderedMatch(s: string): Option<(string, string)> {
    var d := DigitRun(s);
    if 0 < d && d + 2 <= |s| && s[d] == '.' && IsSpace(s[d + 1])
    then Some((s[..d], Tail(s[d + 1..])))
    else None
  }

  /** `re.match(r'^(#{1,6})\s+(.*)', s)`: the level and the heading text.
      With more than six hashes every shorter choice of `#{1,6}` is followed
      by another hash, so nothing matches. */
  function HeadingMatch(s: string): Option<(nat, string)> {
    var h := RunOf(s, '#');
    if 1 <= h <= 6 && h < |s| && IsSpace(s[h]) then Some((h, Tail(s[h..]))) else None
  }

  /** The block for a line outside a code block, given its left-stripped
      text and its margin: bullets first, then numbered items, then
      headings, then paragraphs. */
  function Draw(s: string, x: int): Block {
    match BulletMatch(s)
    case Some(t) => ListItem("*", x, t)
    case None =>
      match OrderedMatch(s)
      case Some((d, t)) => ListItem(d + ".", x, t)
      case None =>
        match HeadingMatch(s)
        case Some((l, t)) => Heading(l, HeadingSize(l), x, t)
        case None => Paragraph(x, s)
  }

  /** The three line patterns exclude one another (a bullet starts with
      its marker, a numbered item with a digit, a heading with a hash), so
      the order they are tried in never decides between two: a line is a
      heading exactly when the heading pattern matches, and a paragraph
      exactly when none does. */
  lemma {:induction false} DrawCases(s: string, x: int)
    ensures BulletMatch(s).Some? ==> OrderedMatch(s).None? && HeadingMatch(s).None?
    ensures OrderedMatch(s).Some? ==> HeadingMatch(s).None?
    ensures Draw(s, x).Heading? <==> HeadingMatch(s).Some?
    ensures Draw(s, x).Paragraph? <==>
      BulletMatch(s).None? && OrderedMatch(s).None? && HeadingMatch(s).None?
    ensures Draw(s, x).ListItem? && Draw(s, x).marker == "*" <==> BulletMatch(s).Some?
  {
    if BulletMatch(s).Some? {
      assert s[0] in "-*+";
      assert !IsDigit(s[0]) && s[0] != '#';
    } else if OrderedMatch(s).Some? {
      var d := DigitRun(s);
      assert IsDigit(s[0]) && s[0] != '#';
      assert |s[..d] + "."| >= 2;
    }
  }

  /** `process_readme_line(line, in_code_block, in_inline_code)`: the block
      the line draws and the flags for the next line. */
  function ClassifyLine(line: string, st: LineState): (Block, LineState) {
    if IsFence(line) then (Fence, LineState(!st.inCodeBlock, false))
    else if st.inCodeBlock then (CodeLine(line), st)
    else
      var s := LStrip(line);
      (Draw(s, Margin(|line| - |s|)), st)
  }

  /** The number of fence lines in `lines`. */
  function Fences(lines: seq<string>): (n: nat)
    ensures n <= |lines|
  {
    if |lines| == 0 then 0 else (if IsFence(lines[0]) then 1 else 0) + Fences(lines[1..])
  }

  function Odd(n: nat): bool {
    n % 2 == 1
  }

  /** The flags after `n` lines starting from `st`: every fence flips the
      code-block flag and clears the inline-code flag. */
  function StateAfter(st: LineState, n: nat): LineState {
    LineState(st.inCodeBlock != Odd(n), st.inInlineCode && n == 0)
  }

  /** The loop over `readme.split('\n')`: one block per line, and the flags
      it ends with. The inline-code flag is never set: it can only stay
      false or be cleared by a fence. */
  function ClassifyLines(lines: seq<string>, st: LineState): (r: (seq<Block>, LineState))
    ensures |r.0| == |lines|
    ensures r.1.inInlineCode ==> st.inInlineCode
  {
    if |lines| == 0 then ([], st)
    else
      var p := ClassifyLine(lines[0], st);
      var q := ClassifyLines(lines[1..], p.1);
      ([p.0] + q.0, q.1)
  }

  /** The flags the loop ends with: the code-block flag flipped once per
      fence, the inline-code flag cleared by any fence and never set. */
  lemma {:induction false} FinalState(lines: seq<string>, st: LineState)
    ensures ClassifyLines(lines, st).1 == StateAfter(st, Fences(lines))
  {
    if |lines| > 0 {
      ClassifyLinesCons(lines, st);
      ClassifyKinds(lines[0], st);
      FinalState(lines[1..], ClassifyLine(lines[0], st).1);
      StateAfterCons(st, IsFence(lines[0]), Fences(lines[1..]));
    }
  }

  /** Threading the flags through one line and then `n` fences is the same
      as threading them through all the fences at once. */
  lemma StateAfterCons(st: LineState, fence: bool, n: nat)
    ensures StateAfter(if fence then StateAfter(st, 1) else st, n)
         == StateAfter(st, (if fence then 1 else 0) + n)
  {
  }

  // ---------------------------------------------------------------------
  // One line

  /** A line that starts with three backticks once stripped draws
      nothing, flips the code-block flag and clears the inline-code flag,
      whether or not a block was open. */
  lemma FenceToggles(line: string, st: LineState)
    requires StartsWith(Strip(line), "```")
    ensures ClassifyLine(line, st).0 == Fence
    ensures ClassifyLine(line, st).1.inCodeBlock != st.inCodeBlock
    ensures !ClassifyLine(line, st).1.inInlineCode
  {
    FenceIsStripped(line);
  }

  /** Inside a code block every line that is not a fence once stripped is
      drawn verbatim, untouched by stripping, list, heading or inline
      markup, and the flags stay as they are. */
  lemma CodeLineVerbatim(line: string, st: LineState)
    requires !StartsWith(Strip(line), "```") && st.inCodeBlock
    ensures ClassifyLine(line, st).0 == CodeLine(line)
    ensures ClassifyLine(line, st).1 == st
  {
    FenceIsStripped(line);
  }

  /** Only fences change the flags, and only a line inside a code block is
      drawn as code. */
  lemma ClassifyKinds(line: string, st: LineState)
    ensures ClassifyLine(line, st).1 == (if IsFence(line) then StateAfter(st, 1) else st)
    ensures ClassifyLine(line, st).0.Fence? <==> IsFence(line)
    ensures ClassifyLine(line, st).0.CodeLine? <==> !IsFence(line) && st.inCodeBlock
  {
  }

  /** Outside code blocks the margin grows by two per character of
      indentation, for every kind of block. */
  lemma MarginOfIndent(line: string, st: LineState)
    requires !IsFence(line) && !st.inCodeBlock
    ensures var b := ClassifyLine(line, st).0;
      (b.ListItem? || b.Heading? || b.Paragraph?) &&
      b.x == 10 + 2 * LeadingSpaces(line)
  {
  }

  /** A bullet is a marker among `-*+` followed by at least one space; the
      item text is what follows the spaces, and (with no newline) the
      stripped line is exactly marker, spaces and text. */
  lemma BulletShape(s: string)
    ensures BulletMatch(s).Some? <==> |s| >= 2 && s[0] in "-*+" && IsSpace(s[1])
    ensures BulletMatch(s).Some? && '\n' !in s ==>
      var t := BulletMatch(s).value;
      var k := |s| - |t|;
      2 <= k && s == s[..k] + t &&
      (forall i :: 1 <= i < k ==> IsSpace(s[i])) &&
      (t == "" || !IsSpace(t[0]))
  {
    if BulletMatch(s).Some? && '\n' !in s {
      TailShape(s[1..]);
    }
  }

  /** Building a bullet line from its parts and matching it gives the text
      back. */
  lemma BulletOf(c: char, w: string, t: string)
    requires c in "-*+" && |w| > 0 && forall i :: 0 <= i < |w| ==> IsSpace(w[i])
    requires '\n' !in t && (t == "" || !IsSpace(t[0]))
    ensures BulletMatch([c] + w + t) == Some(t)
  {
    var s := [c] + w + t;
    assert s[1..] == w + t;
    assert s[1] == w[0];
    TailOf(w, t);
  }

  /** A numbered item is a run of digits, a dot and at least one space; the
      label is the digits with the dot. */
  lemma OrderedShape(s: string)
    ensures OrderedMatch(s).Some? <==>
      var d := DigitRun(s);
      0 < d && d + 2 <= |s| && s[d] == '.' && IsSpace(s[d + 1])
    ensures OrderedMatch(s).Some? ==>
      var (n, t) := OrderedMatch(s).value;
      |n| > 0 && n <= s && (forall i :: 0 <= i < |n| ==> IsDigit(n[i])) && s[|n|] == '.'
  {
  }

  lemma OrderedOf(n: string, w: string, t: string)
    requires |n| > 0 && forall i :: 0 <= i < |n| ==> IsDigit(n[i])
    requires |w| > 0 && forall i :: 0 <= i < |w| ==> IsSpace(w[i])
    requires '\n' !in t && (t == "" || !IsSpace(t[0]))
    ensures OrderedMatch(n + "." + w + t) == Some((n, t))
  {
    var s := n + "." + w + t;
    DigitRunOf(n, "." + w + t);
    assert s == n + ("." + w + t);
    assert s[|n|] == '.';
    assert s[|n| + 1] == w[0];
    assert s[..|n|] == n;
    assert s[|n| + 1..] == w + t;
    TailOf(w, t);
  }

  /** A heading is one to six hashes followed by a space; seven or more
      hashes, or hashes followed directly by text, make no heading. */
  lemma HeadingShape(s: string)
    ensures HeadingMatch(s).Some? <==>
      var h := RunOf(s, '#');
      1 <= h <= 6 && h < |s| && IsSpace(s[h])
    ensures HeadingMatch(s).Some? ==>
      var (l, t) := HeadingMatch(s).value;
      1 <= l <= 6 && (forall i :: 0 <= i < l ==> s[i] == '#')
  {
  }

  lemma HeadingOf(l: nat, w: string, t: string)
    requires 1 <= l <= 6
    requires |w| > 0 && forall i :: 0 <= i < |w| ==> IsSpace(w[i])
    requires '\n' !in t && (t == "" || !IsSpace(t[0]))
    ensures HeadingMatch(Repeat('#', l) + w + t) == Some((l, t))
  {
    var s := Repeat('#', l) + w + t;
    RunOfPrefix(Repeat('#', l), w + t, '#');
    assert s == Repeat('#', l) + (w + t);
    assert s[l] == w[0];
    assert s[l..] == w + t;
    TailOf(w, t);
  }

  /** Heading sizes by level: 14, 12, then 10 for every deeper level. */
  lemma HeadingSizes(l: nat)
    requires 1 <= l <= 6
    ensures HeadingSize(l) == (if l == 1 then 14 else if l == 2 then 12 else 10)
    ensures HeadingSize(l) >= 10
  {
  }

  /** `n` copies of `c`: the hashes of a heading, the spaces of an indent. */
  function Repeat(c: char, n: nat): (r: string)
    ensures |r| == n && forall i :: 0 <= i < n ==> r[i] == c
  {
    if n == 0 then "" else [c] + Repeat(c, n - 1)
  }

  /** The text a bullet, numbered item or heading keeps. */
  lemma {:induction false} TailShape(s: string)
    requires |s| > 0 && IsSpace(s[0]) && '\n' !in s
    ensures var t := Tail(s); var k := |s| - |t|;
      1 <= k && s == s[..k] + t &&
      (forall i :: 0 <= i < k ==> IsSpace(s[i])) &&
      (t == "" || !IsSpace(t[0]))
  {
    var n := LeadingSpaces(s);
    assert '\n' !in s[n..] by {
      forall i | 0 <= i < |s[n..]| ensures s[n..][i] != '\n' {
        assert s[n..][i] == s[n + i];
      }
    }
    assert Tail(s) == s[n..];
  }

  lemma {:induction false} TailOf(w: string, t: string)
    requires |w| > 0 && forall i :: 0 <= i < |w| ==> IsSpace(w[i])
    requires '\n' !in t && (t == "" || !IsSpace(t[0]))
    ensures Tail(w + t) == t
  {
    LeadingSpacesOf(w, t);
    assert (w + t)[|w|..] == t;
  }

  lemma {:induction false} LeadingSpacesOf(w: string, t: string)
    requires forall i :: 0 <= i < |w| ==> IsSpace(w[i])
    requires t == "" || !IsSpace(t[0])
    ensures LeadingSpaces(w + t) == |w|
  {
    if |w| == 0 {
      assert w + t == t;
    } else {
      assert (w + t)[1..] == w[1..] + t;
      LeadingSpacesOf(w[1..], t);
    }
  }

  lemma {:induction false} RunOfPrefix(h: string, t: string, c: char)
    requires forall i :: 0 <= i < |h| ==> h[i] == c
    requires t == "" || t[0] != c
    ensures RunOf(h + t, c) == |h|
  {
    if |h| == 0 {
      assert h + t == t;
    } else {
      assert (h + t)[1..] == h[1..] + t;
      RunOfPrefix(h[1..], t, c);
    }
  }

  lemma {:induction false} DigitRunOf(n: string, t: string)
    requires forall i :: 0 <= i < |n| ==> IsDigit(n[i])
    requires t == "" || !IsDigit(t[0])
    ensures DigitRun(n + t) == |n|
  {
    if |n| == 0 {
      assert n + t == t;
    } else {
      assert (n + t)[1..] == n[1..] + t;
      DigitRunOf(n[1..], t);
    }
  }

  // ---------------------------------------------------------------------
  // Lines in sequence

  /** The block for line `i` is what that line alone draws under the flags
      left by the lines before it. */
  lemma BlockAt(lines: seq<string>, st: LineState, i: nat)
    requires i < |lines|
    ensures ClassifyLines(lines, st).0[i]
         == ClassifyLine(lines[i], StateAfter(st, Fences(lines[..i]))).0
  {
    var before := ClassifyLines(lines[..i], st);
    assert lines == lines[..i] + lines[i..];
    ClassifyLinesAppend(lines[..i], lines[i..], st);
    ClassifyLinesCons(lines[i..], before.1);
    assert ClassifyLines(lines, st).0[i] == ClassifyLines(lines[i..], before.1).0[0];
    FinalState(lines[..i], st);
  }

  /** A line is drawn as code exactly when it is not a fence and an odd
      number of fences (counting an open block at the start as one) comes
      before it; it is then drawn verbatim. */
  lemma CodeLineExactly(lines: seq<string>, st: LineState, i: nat)
    requires i < |lines|
    ensures ClassifyLines(lines, st).0[i].CodeLine? <==>
      !IsFence(lines[i]) && (st.inCodeBlock != Odd(Fences(lines[..i])))
    ensures ClassifyLines(lines, st).0[i].CodeLine? ==>
      ClassifyLines(lines, st).0[i] == CodeLine(lines[i])
  {
    BlockAt(lines, st, i);
  }

  function CodeLines(lines: seq<string>): (r: seq<Block>)
    ensures |r| == |lines|
  {
    if |lines| == 0 then [] else [CodeLine(lines[0])] + CodeLines(lines[1..])
  }

  /** Inside an open block, a stretch without fences is drawn line by line
      as code, and the block stays open. */
  lemma {:induction false} InsideBlock(body: seq<string>, st: LineState)
    requires st.inCodeBlock
    requires forall i :: 0 <= i < |body| ==> !IsFence(body[i])
    ensures ClassifyLines(body, st) == (CodeLines(body), st)
  {
    if |body| > 0 {
      FenceIsStripped(body[0]);
      CodeLineVerbatim(body[0], st);
      InsideBlock(body[1..], st);
    }
  }

  /** A fenced block: the two fences draw nothing and every line between
      them is drawn verbatim; both flags are clear afterwards. */
  lemma {:induction false} FencedBlock(open: string, body: seq<string>, close: string, st: LineState)
    requires IsFence(open) && IsFence(close) && !st.inCodeBlock
    requires forall i :: 0 <= i < |body| ==> !IsFence(body[i])
    ensures ClassifyLines([open] + body + [close], st)
         == ([Fence] + CodeLines(body) + [Fence], LineState(false, false))
  {
    var lines := [open] + body + [close];
    var inside := LineState(true, false);
    FenceIsStripped(open);
    FenceToggles(open, st);
    ClassifyLinesCons(lines, st);
    assert lines[0] == open;
    assert lines[1..] == body + [close];
    ClassifyLinesAppend(body, [close], inside);
    InsideBlock(body, inside);
    FenceIsStripped(close);
    FenceToggles(close, inside);
    ClassifyLinesCons([close], inside);
    assert [close][1..] == [];
    var closed := LineState(false, false);
    assert ClassifyLines([], closed) == ([], closed);
    assert [Fence] + [] == [Fence];
    assert ClassifyLines([close], inside) == ([Fence], LineState(false, false));
    assert [Fence] + (CodeLines(body) + [Fence]) == [Fence] + CodeLines(body) + [Fence];
  }

  /** One turn of the loop: the first line's block, then the rest from
      the flags it left. */
  lemma ClassifyLinesCons(lines: seq<string>, st: LineState)
    requires |lines| > 0
    ensures ClassifyLines(lines, st).0
         == [ClassifyLine(lines[0], st).0] + ClassifyLines(lines[1..], ClassifyLine(lines[0], st).1).0
    ensures ClassifyLines(lines, st).1 == ClassifyLines(lines[1..], ClassifyLine(lines[0], st).1).1
  {
  }

  /** The loop over two stretches of lines is the loop over the first
      followed by the loop over the second from where the first ended. */
  lemma {:induction false} ClassifyLinesAppend(a: seq<string>, b: seq<string>, st: LineState)
    ensures ClassifyLines(a + b, st)
         == (ClassifyLines(a, st).0 + ClassifyLines(b, ClassifyLines(a, st).1).0,
             ClassifyLines(b, ClassifyLines(a, st).1).1)
  {
    if |a| == 0 {
      assert a + b == b;
      assert ClassifyLines(a, st) == ([], st);
      assert [] + ClassifyLines(b, st).0 == ClassifyLines(b, st).0;
    } else {
      var first := ClassifyLine(a[0], st);
      assert (a + b)[1..] == a[1..] + b;
      assert (a + b)[0] == a[0];
      ClassifyLinesCons(a + b, st);
      ClassifyLinesCons(a, st);
      ClassifyLinesAppend(a[1..], b, first.1);
      var mid := ClassifyLines(a[1..], first.1);
      var tail := ClassifyLines(b, mid.1);
      assert ClassifyLines(a + b, st).0 == [first.0] + (mid.0 + tail.0);
      assert [first.0] + (mid.0 + tail.0) == ([first.0] + mid.0) + tail.0;
    }
  }

  // ---------------------------------------------------------------------
  // The whole README

  /** `s.split('\n')`. */
  function SplitLines(s: string): (r: seq<string>)
    ensures |r| > 0
    ensures forall i :: 0 <= i < |r| ==> '\n' !in r[i]
    decreases |s|
  {
    match Find(s, '\n')
    case None => [s]
    case Some(k) => [s[..k]] + SplitLines(s[k + 1..])
  }

  /** `'\n'.join(parts)`. */
  function JoinLines(parts: seq<string>): string
    requires |parts| > 0
  {
    if |parts| == 1 then parts[0] else parts[0] + "\n" + JoinLines(parts[1..])
  }

  /** Splitting on newlines and joining with newlines gives the text back. */
  lemma {:induction false} SplitJoin(s: string)
    ensures JoinLines(SplitLines(s)) == s
    decreases |s|
  {
    match Find(s, '\n')
    case None =>
      assert SplitLines(s) == [s];
    case Some(k) =>
      var head := s[..k];
      var rest := s[k + 1..];
      SplitJoin(rest);
      var parts := [head] + SplitLines(rest);
      assert SplitLines(s) == parts;
      assert parts[0] == head && parts[1..] == SplitLines(rest);
      assert s == head + "\n" + rest;
  }

  /** There is one more line than there are newlines. */
  lemma {:induction false} SplitCount(s: string)
    ensures |SplitLines(s)| == Count(s, '\n') + 1
    decreases |s|
  {
    match Find(s, '\n')
    case None =>
      assert SplitLines(s) == [s];
    case Some(k) =>
      var head := s[..k];
      var rest := s[k + 1..];
      assert |SplitLines(s)| == 1 + |SplitLines(rest)|;
      assert Count(s, '\n') == 1 + Count(rest, '\n') by {
        CountAt(s, k);
      }
      SplitCount(rest);
  }

  /** Counting newlines across the first one. */
  lemma CountAt(s: string, k: nat)
    requires k < |s| && s[k] == '\n' && '\n' !in s[..k]
    ensures Count(s, '\n') == 1 + Count(s[k + 1..], '\n')
  {
    var head, tail := s[..k], s[k..];
    var rest := s[k + 1..];
    assert Count(s, '\n') == Count(head, '\n') + Count(tail, '\n') by {
      assert s == head + tail;
      CountAppend(head, tail, '\n');
    }
    assert Count(head, '\n') == 0;
    assert Count(tail, '\n') == 1 + Count(rest, '\n') by {
      assert tail[0] == '\n' && tail[1..] == rest;
    }
  }

  /** Joining newline-free lines and splitting again gives the lines back. */
  lemma {:induction false} JoinSplit(parts: seq<string>)
    requires |parts| > 0 && forall i :: 0 <= i < |parts| ==> '\n' !in parts[i]
    ensures SplitLines(JoinLines(parts)) == parts
  {
    var p := parts[0];
    if |parts| == 1 {
      assert Find(p, '\n').None?;
    } else {
      var rest := JoinLines(parts[1..]);
      var s := p + "\n" + rest;
      JoinSplit(parts[1..]);
      assert s[|p|] == '\n' && s[..|p|] == p;
      assert Find(s, '\n') == Some(|p|);
      assert s[|p| + 1..] == rest;
    }
  }

  /** The blocks drawn for a README: its lines classified from clear flags.
      There is one block per line. */
  function RenderReadme(readme: string): (blocks: seq<Block>)
    ensures |blocks| == Count(readme, '\n') + 1
  {
    SplitCount(readme);
    ClassifyLines(SplitLines(readme), LineState(false, false)).0
  }

  // ---------------------------------------------------------------------
  // Precedence on concrete shapes


  /** A bullet indented by `n` spaces sits `2n` points further right. */
  lemma {:induction false} NestedBullet(n: nat, t: string, st: LineState)
    requires !st.inCodeBlock
    requires '\n' !in t && (t == "" || !IsSpace(t[0]))
    ensures ClassifyLine(Repeat(' ', n) + "- " + t, st) == (ListItem("*", 10 + 2 * n, t), st)
  {
    var s := "- " + t;
    var line := Repeat(' ', n) + s;
    assert ClassifyLine(line, st) == (Draw(s, Margin(n)), st) by {
      IndentedLine(n, s);
      OutsideBlock(line, st);
    }
    DashBullet(t);
    BulletLine(line, st, s, t, Margin(n));
    Associate(Repeat(' ', n), "- ", t);
  }

  lemma BulletLine(line: string, st: LineState, s: string, t: string, x: int)
    requires ClassifyLine(line, st) == (Draw(s, x), st) && BulletMatch(s) == Some(t)
    ensures ClassifyLine(line, st) == (ListItem("*", x, t), st)
  {
  }

  lemma DashBullet(t: string)
    requires '\n' !in t && (t == "" || !IsSpace(t[0]))
    ensures BulletMatch("- " + t) == Some(t)
  {
    assert "- " + t == ['-'] + " " + t;
    BulletOf('-', " ", t);
  }

  /** Outside a code block a line draws its left-stripped text at the
      margin of its indentation. */
  lemma OutsideBlock(line: string, st: LineState)
    requires !IsFence(line) && !st.inCodeBlock
    ensures ClassifyLine(line, st) == (Draw(LStrip(line), Margin(LeadingSpaces(line))), st)
  {
  }

  lemma BulletDraw(s: string, t: string, x: int)
    requires BulletMatch(s) == Some(t)
    ensures Draw(s, x) == ListItem("*", x, t)
  {
  }

  /** A line indented by `n` spaces strips to its text, and is a fence
      only if its text starts with a backtick. */
  lemma IndentedLine(n: nat, s: string)
    requires |s| > 0 && !IsSpace(s[0]) && s[0] != '`'
    ensures LStrip(Repeat(' ', n) + s) == s && LeadingSpaces(Repeat(' ', n) + s) == n
    ensures !IsFence(Repeat(' ', n) + s)
  {
    LeadingSpacesOf(Repeat(' ', n), s);
    assert (Repeat(' ', n) + s)[n..] == s;
  }

  /** Seven or more hashes make a paragraph, not a heading. */
  lemma {:induction false} DeepHashesParagraph(n: nat, t: string, st: LineState)
    requires n >= 7 && !st.inCodeBlock
    ensures ClassifyLine(Repeat('#', n) + " " + t, st) == (Paragraph(10, Repeat('#', n) + " " + t), st)
  {
    var s := Repeat('#', n) + " " + t;
    assert LeadingSpaces(s) == 0;
    assert !IsFence(s) by {
      StripStartsWith(s, "```");
    }
    assert s == Repeat('#', n) + (" " + t);
    RunOfPrefix(Repeat('#', n), " " + t, '#');
    assert !IsDigit(s[0]);
  }

  /** A number, a dot and a space make a numbered item labelled with the
      number and the dot. */
  lemma NumberedItem(n: string, t: string, st: LineState)
    requires !st.inCodeBlock && |n| > 0 && forall i :: 0 <= i < |n| ==> IsDigit(n[i])
    requires '\n' !in t && (t == "" || !IsSpace(t[0]))
    ensures ClassifyLine(n + ". " + t, st) == (ListItem(n + ".", 10, t), st)
  {
    var s := n + ". " + t;
    NumberedOutside(s, st);
    NumberedMatches(n, t);
    OrderedDraw(s, n, t, 10);
  }

  lemma NumberedOutside(s: string, st: LineState)
    requires !st.inCodeBlock && |s| > 0 && IsDigit(s[0])
    ensures ClassifyLine(s, st) == (Draw(s, 10), st)
  {
    IndentedLine(0, s);
    assert Repeat(' ', 0) + s == s;
    OutsideBlock(s, st);
  }

  lemma {:induction false} NumberedMatches(n: string, t: string)
    requires |n| > 0 && forall i :: 0 <= i < |n| ==> IsDigit(n[i])
    requires '\n' !in t && (t == "" || !IsSpace(t[0]))
    ensures BulletMatch(n + ". " + t).None? && OrderedMatch(n + ". " + t) == Some((n, t))
  {
    var s := n + ". " + t;
    assert s[0] == n[0];
    assert s == n + "." + " " + t;
    OrderedOf(n, " ", t);
  }

  lemma OrderedDraw(s: string, n: string, t: string, x: int)
    requires BulletMatch(s).None? && OrderedMatch(s) == Some((n, t))
    ensures Draw(s, x) == ListItem(n + ".", x, t)
  {
  }
}
