/** The inline-markup pass of the README renderer (`process_inline`): the
    text is split on `$…$` math spans, every part between them on `` `…` ``
    code spans, and every part between those on `**…**` bold spans. Each
    split is Python's `re.split` with one capture group, so the parts come
    back in an odd-length list whose odd-indexed members are the captured
    groups. */
module Inline {
  import opened Options
  import Text

  /** The three split patterns: `\$([^$]+)\$` and `` `(?!`)([^`]+)` `` are
      both a delimiter around a non-empty delimiter-free group (the
      look-ahead repeats what `[^`]+` already demands); `\*\*(.*?)\*\*` is
      a lazy group between double asterisks that cannot cross a newline. */
  datatype Pattern = Span(delim: char) | Strong

  /** The delimiter written on either side of a group. */
  function Marker(p: Pattern): string {
    match p
    case Span(d) => [d]
    case Strong => "**"
  }

  function Wrap(p: Pattern, g: string): string {
    Marker(p) + g + Marker(p)
  }

  /** A match at the start of the remaining text: the captured group and
      the number of characters the whole match consumed. */
  datatype Hit = Hit(group: string, len: nat)

  /** Position of the first `c` in `t`. */
  function Find(t: string, c: char): (r: Option<nat>)
    ensures r.Some? ==> r.value < |t| && t[r.value] == c && c !in t[..r.value]
    ensures r.None? <==> c !in t
  {
    if |t| == 0 then None
    else if t[0] == c then Some(0)
    else match Find(t[1..], c)
      case None => None
      case Some(j) => assert t[..j + 1] == [t[0]] + t[1..][..j]; Some(j + 1)
  }

  /** Where the lazy `(.*?)\*\*` ends in `t`, the text after an opening
      `**`: the first `**`, provided no newline comes before it. */
  function StrongClose(t: string): (r: Option<nat>)
    ensures r.Some? ==> r.value + 2 <= |t| && t[r.value..r.value + 2] == "**" && '\n' !in t[..r.value]
    decreases |t|
  {
    if "**" <= t then Some(0)
    else if |t| == 0 || t[0] == '\n' then None
    else match StrongClose(t[1..])
      case None => None
      case Some(k) => assert t[..k + 1] == [t[0]] + t[1..][..k]; Some(k + 1)
  }

  /** The regex match of `p` anchored at the start of `t`, if any. */
  function Match(p: Pattern, t: string): (r: Option<Hit>)
    ensures r.Some? ==> 0 < r.value.len <= |t|
  {
    match p
    case Span(d) =>
      if |t| >= 2 && t[0] == d && t[1] != d then
        match Find(t[1..], d)
        case Some(j) => Some(Hit(t[1..j + 1], j + 2))
        case None => None
      else None
    case Strong =>
      if "**" <= t then
        match StrongClose(t[2..])
        case Some(k) => Some(Hit(t[2..k + 2], k + 4))
        case None => None
      else None
  }

  /** A match covers its group between the two delimiters. */
  lemma MatchWraps(p: Pattern, t: string)
    requires Match(p, t).Some?
    ensures t[..Match(p, t).value.len] == Wrap(p, Match(p, t).value.group)
  {
    match p
    case Span(d) =>
      var j := Find(t[1..], d).value;
      assert t[..j + 2] == [d] + t[1..j + 1] + [d];
    case Strong =>
      var k := StrongClose(t[2..]).value;
      assert t[..k + 4] == "**" + t[2..k + 2] + "**";
  }

  /** No match of `p` starts anywhere in `x`. */
  predicate Quiet(p: Pattern, x: string) {
    forall i :: 0 <= i < |x| ==> Match(p, x[i..]).None?
  }

  /** Puts the parts back together: even parts verbatim, odd parts inside
      their delimiters. */
  function Join(p: Pattern, parts: seq<string>): string {
    if |parts| == 0 then ""
    else if |parts| == 1 then parts[0]
    else parts[0] + Wrap(p, parts[1]) + Join(p, parts[2..])
  }

  /** `re.split(pattern, s)`: scan left to right; where a match starts,
      close the current part, emit the group, and resume after the match;
      elsewhere extend the current part by one character. */
  function Split(p: Pattern, s: string): (r: seq<string>)
    ensures |r| % 2 == 1
    decreases |s|
  {
    if |s| == 0 then [""]
    else match Match(p, s)
      case Some(h) =>
        var rest := Split(p, s[h.len..]);
        assert |["", h.group] + rest| == |rest| + 2 && (|rest| + 2) % 2 == |rest| % 2;
        ["", h.group] + rest
      case None =>
        var rest := Split(p, s[1..]);
        assert |rest| > 0;
        assert |[[s[0]] + rest[0]] + rest[1..]| == |rest|;
        [[s[0]] + rest[0]] + rest[1..]
  }

  /** A match is decided by a prefix of the text: what follows the closing
      delimiter does not change it. */
  lemma MatchExtends(p: Pattern, u: string, v: string)
    requires Match(p, u).Some?
    ensures Match(p, u + v) == Match(p, u)
  {
    match p
    case Span(d) => SpanExtends(d, u, v);
    case Strong => StrongExtends(u, v);
  }

  lemma SpanExtends(d: char, u: string, v: string)
    requires Match(Span(d), u).Some?
    ensures Match(Span(d), u + v) == Match(Span(d), u)
  {
    assert (u + v)[1..] == u[1..] + v;
    FindExtends(u[1..], v, d);
    var j := Find(u[1..], d).value;
    assert (u + v)[1..j + 1] == u[1..j + 1];
  }

  lemma StrongExtends(u: string, v: string)
    requires Match(Strong, u).Some?
    ensures Match(Strong, u + v) == Match(Strong, u)
  {
    var k := StrongClose(u[2..]).value;
    assert Match(Strong, u) == Some(Hit(u[2..k + 2], k + 4)) by {
      StrongMatchOf(u, k);
    }
    assert Match(Strong, u + v) == Some(Hit(u[2..k + 2], k + 4)) by {
      assert "**" <= u + v by {
        assert (u + v)[..2] == u[..2];
      }
      assert StrongClose((u + v)[2..]) == Some(k) by {
        assert (u + v)[2..] == u[2..] + v;
        StrongCloseExtends(u[2..], v);
      }
      StrongMatchOf(u + v, k);
      assert (u + v)[2..k + 2] == u[2..k + 2];
    }
  }

  lemma StrongMatchOf(t: string, k: nat)
    requires "**" <= t && StrongClose(t[2..]) == Some(k)
    ensures Match(Strong, t) == Some(Hit(t[2..k + 2], k + 4))
  {
  }

  lemma {:induction false} FindExtends(t: string, v: string, c: char)
    requires Find(t, c).Some?
    ensures Find(t + v, c) == Find(t, c)
  {
    if t[0] != c {
      assert (t + v)[1..] == t[1..] + v;
      FindExtends(t[1..], v, c);
    }
  }

  lemma {:induction false} StrongCloseExtends(t: string, v: string)
    requires StrongClose(t).Some?
    ensures StrongClose(t + v) == StrongClose(t)
    decreases |t|
  {
    assert (t + v)[..2] == t[..2];
    if !("**" <= t) {
      assert (t + v)[1..] == t[1..] + v;
      StrongCloseExtends(t[1..], v);
    }
  }

  /** What follows a gap in the joined text: the opening delimiter of the
      next group, or nothing after the last part. */
  function After(p: Pattern, parts: seq<string>, k: nat): string {
    if k + 1 < |parts| then Marker(p) else ""
  }

  /** The joined text begins with the first part and the marker after it. */
  lemma JoinStarts(p: Pattern, parts: seq<string>)
    requires |parts| > 0
    ensures parts[0] + After(p, parts, 0) <= Join(p, parts)
  {
    if |parts| > 1 {
      assert Join(p, parts) == parts[0] + Marker(p) + (parts[1] + Marker(p) + Join(p, parts[2..]));
    }
  }

  /** `Split` where a match starts at the head of the text. */
  lemma SplitHit(p: Pattern, s: string)
    requires Match(p, s).Some?
    ensures var h := Match(p, s).value;
      Split(p, s) == ["", h.group] + Split(p, s[h.len..])
  {
  }

  /** `Split` where no match starts at the head of a non-empty text. */
  lemma SplitMiss(p: Pattern, s: string)
    requires |s| > 0 && Match(p, s).None?
    ensures var rest := Split(p, s[1..]);
      Split(p, s) == [[s[0]] + rest[0]] + rest[1..]
  {
  }

  /** Splitting loses nothing: joining the parts gives the text back. */
  lemma {:induction false} SplitJoin(p: Pattern, s: string)
    ensures Join(p, Split(p, s)) == s
    decreases |s|
  {
    if |s| > 0 {
      if Match(p, s).Some? {
        var h := Match(p, s).value;
        SplitJoin(p, s[h.len..]);
        JoinHit(p, s);
      } else {
        SplitJoin(p, s[1..]);
        JoinMiss(p, s);
      }
    }
  }

  lemma JoinHit(p: Pattern, s: string)
    requires Match(p, s).Some?
    requires Join(p, Split(p, s[Match(p, s).value.len..])) == s[Match(p, s).value.len..]
    ensures Join(p, Split(p, s)) == s
  {
    var h := Match(p, s).value;
    var tail := Split(p, s[h.len..]);
    assert Split(p, s) == ["", h.group] + tail by {
      SplitHit(p, s);
    }
    assert Join(p, ["", h.group] + tail) == "" + Wrap(p, h.group) + Join(p, tail) by {
      JoinCons(p, "", h.group, tail);
    }
    var w := Wrap(p, h.group);
    assert "" + w == w;
    MatchWraps(p, s);
    PrefixBack(s, h.len, w, Join(p, tail));
  }

  /** A text is its first `n` characters followed by the rest. */
  lemma PrefixBack(s: string, n: nat, w: string, rest: string)
    requires n <= |s| && s[..n] == w && rest == s[n..]
    ensures w + rest == s
  {
    assert s == s[..n] + s[n..];
  }

  lemma JoinMiss(p: Pattern, s: string)
    requires |s| > 0 && Match(p, s).None?
    requires Join(p, Split(p, s[1..])) == s[1..]
    ensures Join(p, Split(p, s)) == s
  {
    var rest := Split(p, s[1..]);
    SplitMiss(p, s);
    JoinHead(p, s[0], rest);
    assert s == [s[0]] + s[1..];
  }

  lemma JoinCons(p: Pattern, x: string, g: string, tail: seq<string>)
    ensures Join(p, [x, g] + tail) == x + Wrap(p, g) + Join(p, tail)
  {
    assert ([x, g] + tail)[2..] == tail;
  }

  /** Extending the first part extends the joined text at the front. */
  lemma JoinHead(p: Pattern, c: char, parts: seq<string>)
    requires |parts| > 0
    ensures Join(p, [[c] + parts[0]] + parts[1..]) == [c] + Join(p, parts)
  {
    var r := [[c] + parts[0]] + parts[1..];
    if |parts| > 1 {
      var tail := Wrap(p, parts[1]) + Join(p, parts[2..]);
      assert r[0] == [c] + parts[0] && r[1] == parts[1] && r[2..] == parts[2..];
      assert Join(p, r) == [c] + parts[0] + tail by {
        Text.Associate([c] + parts[0], Wrap(p, parts[1]), Join(p, parts[2..]));
      }
      assert Join(p, parts) == parts[0] + tail by {
        Text.Associate(parts[0], Wrap(p, parts[1]), Join(p, parts[2..]));
      }
      Text.Associate([c], parts[0], tail);
    }
  }

  lemma {:induction false} FindPrefix(t: string, c: char)
    requires Find(t, c).Some?
    ensures Find(t[..Find(t, c).value + 1], c) == Find(t, c)
  {
    if t[0] != c {
      var j := Find(t[1..], c).value;
      FindPrefix(t[1..], c);
      assert t[..j + 2][1..] == t[1..][..j + 1];
    }
  }

  lemma {:induction false} StrongClosePrefix(t: string)
    requires StrongClose(t).Some?
    ensures StrongClose(t[..StrongClose(t).value + 2]) == StrongClose(t)
    decreases |t|
  {
    var k := StrongClose(t).value;
    assert t[..k + 2][..2] == t[..2];
    if !("**" <= t) {
      StrongClosePrefix(t[1..]);
      assert t[..k + 2][1..] == t[1..][..k + 1];
    }
  }

  /** A match, cut down to exactly the text it consumed, is the same match. */
  lemma MatchPrefix(p: Pattern, t: string)
    requires Match(p, t).Some?
    ensures Match(p, t[..Match(p, t).value.len]) == Match(p, t)
  {
    match p
    case Span(d) => SpanPrefix(d, t);
    case Strong => StrongPrefix(t);
  }

  lemma {:induction false} SpanPrefix(d: char, t: string)
    requires Match(Span(d), t).Some?
    ensures Match(Span(d), t[..Match(Span(d), t).value.len]) == Match(Span(d), t)
  {
    var j := Find(t[1..], d).value;
    var u := t[..j + 2];
    FindPrefix(t[1..], d);
    assert u[1..] == t[1..][..j + 1];
    assert u[1..j + 1] == t[1..j + 1];
  }

  lemma StrongPrefix(t: string)
    requires Match(Strong, t).Some?
    ensures Match(Strong, t[..Match(Strong, t).value.len]) == Match(Strong, t)
  {
    var k := StrongClose(t[2..]).value;
    var u := t[..k + 4];
    StrongClosePrefix(t[2..]);
    assert u[..2] == t[..2];
    assert u[2..] == t[2..][..k + 2];
    assert u[2..k + 2] == t[2..k + 2];
  }

  /** Every odd part is a captured group: wrapped in its delimiters again,
      it is matched as a whole and gives itself back. */
  lemma SplitGroups(p: Pattern, s: string)
    ensures OddReparsed(p, Split(p, s))
  {
    var r := Split(p, s);
    forall k | 0 <= k < |r| && k % 2 == 1
      ensures Reparsed(p, r[k])
    {
      GroupAt(p, s, k);
    }
  }

  /** Every odd part is a group that reparses. */
  predicate OddReparsed(p: Pattern, r: seq<string>) {
    forall k :: 0 <= k < |r| && k % 2 == 1 ==> Reparsed(p, r[k])
  }

  lemma {:induction false} GroupAt(p: Pattern, s: string, k: nat)
    requires k < |Split(p, s)| && k % 2 == 1
    ensures Reparsed(p, Split(p, s)[k])
    decreases |s|, 1
  {
    if |s| > 0 {
      if Match(p, s).Some? && k == 1 {
        GroupFirst(p, s);
        HitReparsed(p, s);
      } else if Match(p, s).Some? {
        GroupAtHit(p, s, k);
      } else {
        GroupAtMiss(p, s, k);
      }
    }
  }

  lemma {:induction false} GroupAtHit(p: Pattern, s: string, k: nat)
    requires Match(p, s).Some? && 3 <= k < |Split(p, s)| && k % 2 == 1
    ensures Reparsed(p, Split(p, s)[k])
    decreases |s|, 0
  {
    GroupShiftHit(p, s, k);
    GroupAt(p, s[Match(p, s).value.len..], k - 2);
  }

  lemma {:induction false} GroupAtMiss(p: Pattern, s: string, k: nat)
    requires |s| > 0 && Match(p, s).None? && k < |Split(p, s)| && k % 2 == 1
    ensures Reparsed(p, Split(p, s)[k])
    decreases |s|, 0
  {
    GroupShiftMiss(p, s, k);
    GroupAt(p, s[1..], k);
  }

  /** After a match at the head, the second part is its group. */
  lemma GroupFirst(p: Pattern, s: string)
    requires Match(p, s).Some?
    ensures |Split(p, s)| > 1 && Split(p, s)[1] == Match(p, s).value.group
  {
    SplitHit(p, s);
  }

  /** After a match at the head, later parts are those of the remainder. */
  lemma GroupShiftHit(p: Pattern, s: string, k: nat)
    requires Match(p, s).Some? && 2 <= k < |Split(p, s)|
    ensures var rest := Split(p, s[Match(p, s).value.len..]);
      k - 2 < |rest| && Split(p, s)[k] == rest[k - 2]
  {
    SplitHit(p, s);
  }

  /** Without a match at the head, every part but the first is unchanged. */
  lemma GroupShiftMiss(p: Pattern, s: string, k: nat)
    requires |s| > 0 && Match(p, s).None? && 1 <= k < |Split(p, s)|
    ensures k < |Split(p, s[1..])| && Split(p, s)[k] == Split(p, s[1..])[k]
  {
    var rest := Split(p, s[1..]);
    var r := [[s[0]] + rest[0]] + rest[1..];
    assert Split(p, s) == r by {
      SplitMiss(p, s);
    }
    assert |r| == |rest|;
    assert r[k] == rest[1..][k - 1];
  }

  /** `g`, put back between its delimiters, is matched whole. */
  predicate Reparsed(p: Pattern, g: string) {
    Match(p, Wrap(p, g)) == Some(Hit(g, |Wrap(p, g)|))
  }

  lemma HitReparsed(p: Pattern, s: string)
    requires Match(p, s).Some?
    ensures Reparsed(p, Match(p, s).value.group)
  {
    MatchPrefix(p, s);
    MatchWraps(p, s);
  }

  lemma MarkerQuiet(p: Pattern)
    ensures Quiet(p, Marker(p))
  {
    match p
    case Span(d) =>
    case Strong =>
      assert "**"[1..] == "*";
      assert StrongClose("**"[2..]) == None;
  }

  /** No match starts inside a gap, not even one that would close on the
      delimiter that opens the next group: the scan is leftmost. */
  lemma {:induction false} SplitGaps(p: Pattern, s: string)
    ensures GapsQuiet(p, Split(p, s))
    decreases |s|
  {
    if |s| == 0 {
      assert Split(p, s) == [""];
    } else if Match(p, s).Some? {
      SplitGaps(p, s[Match(p, s).value.len..]);
      GapsHit(p, s);
    } else {
      SplitGaps(p, s[1..]);
      GapsMiss(p, s);
    }
  }

  /** Every even part, followed by the delimiter that opens the next
      group, holds no match. */
  predicate GapsQuiet(p: Pattern, r: seq<string>) {
    forall k :: 0 <= k < |r| && k % 2 == 0 ==> Quiet(p, r[k] + After(p, r, k))
  }

  lemma GapsHit(p: Pattern, s: string)
    requires Match(p, s).Some?
    requires GapsQuiet(p, Split(p, s[Match(p, s).value.len..]))
    ensures GapsQuiet(p, Split(p, s))
  {
    var h := Match(p, s).value;
    var rest := Split(p, s[h.len..]);
    assert Split(p, s) == ["", h.group] + rest by {
      SplitHit(p, s);
    }
    MarkerQuiet(p);
    GapsCons(p, h.group, rest);
  }

  lemma GapsCons(p: Pattern, g: string, rest: seq<string>)
    requires |rest| > 0 && Quiet(p, Marker(p)) && GapsQuiet(p, rest)
    ensures GapsQuiet(p, ["", g] + rest)
  {
    var r := ["", g] + rest;
    forall k | 0 <= k < |r| && k % 2 == 0
      ensures Quiet(p, r[k] + After(p, r, k))
    {
      if k == 0 {
        assert r[0] + After(p, r, 0) == Marker(p);
      } else {
        assert r[k] == rest[k - 2] && After(p, r, k) == After(p, rest, k - 2);
      }
    }
  }

  lemma GapsMiss(p: Pattern, s: string)
    requires |s| > 0 && Match(p, s).None?
    requires GapsQuiet(p, Split(p, s[1..]))
    ensures GapsQuiet(p, Split(p, s))
  {
    var rest := Split(p, s[1..]);
    assert Split(p, s) == [[s[0]] + rest[0]] + rest[1..] by {
      SplitMiss(p, s);
    }
    HeadGapQuiet(p, s, rest);
    GapsHead(p, [s[0]] + rest[0], rest);
  }

  lemma GapsHead(p: Pattern, x: string, rest: seq<string>)
    requires |rest| > 0 && GapsQuiet(p, rest)
    requires Quiet(p, x + After(p, rest, 0))
    ensures GapsQuiet(p, [x] + rest[1..])
  {
    var r := [x] + rest[1..];
    forall k | 0 <= k < |r| && k % 2 == 0
      ensures Quiet(p, r[k] + After(p, r, k))
    {
      if k > 0 {
        assert r[k] == rest[k] && After(p, r, k) == After(p, rest, k);
      }
    }
  }

  /** The first gap when no match starts at the head of `s`. */
  lemma HeadGapQuiet(p: Pattern, s: string, rest: seq<string>)
    requires |s| > 0 && Match(p, s).None? && rest == Split(p, s[1..])
    requires Quiet(p, rest[0] + After(p, rest, 0))
    ensures Quiet(p, [s[0]] + rest[0] + After(p, rest, 0))
  {
    var y := rest[0] + After(p, rest, 0);
    assert y <= s[1..] by {
      SplitJoin(p, s[1..]);
      JoinStarts(p, rest);
    }
    QuietCons(p, s, y);
    assert [s[0]] + rest[0] + After(p, rest, 0) == [s[0]] + y;
  }

  /** A quiet prefix of the text after the head stays quiet when the head
      is put back, provided no match starts at the head. */
  lemma QuietCons(p: Pattern, s: string, y: string)
    requires |s| > 0 && Match(p, s).None? && y <= s[1..] && Quiet(p, y)
    ensures Quiet(p, [s[0]] + y)
  {
    var x := [s[0]] + y;
    assert x <= s by {
      assert s == [s[0]] + s[1..];
    }
    forall i | 0 <= i < |x|
      ensures Match(p, x[i..]).None?
    {
      if i == 0 {
        if Match(p, x).Some? {
          assert x + s[|x|..] == s;
          MatchExtends(p, x, s[|x|..]);
          assert false;
        }
      } else {
        assert x[i..] == y[i - 1..];
      }
    }
  }

  /** No two adjacent asterisks. */
  predicate NoPair(x: string) {
    forall j :: 0 <= j < |x| - 1 ==> !(x[j] == '*' && x[j + 1] == '*')
  }

  /** A `$` or backtick group is exactly a non-empty, delimiter-free text. */
  lemma SpanReparsed(d: char, g: string)
    ensures Reparsed(Span(d), g) <==> |g| > 0 && d !in g
  {
    var t := [d] + g + [d];
    assert t[1..] == g + [d];
    if |g| > 0 {
      assert t[1] == g[0];
      if d !in g {
        FindAfter(g, d);
        assert t[1..|g| + 1] == g;
      } else {
        FindExtends(g, [d], d);
      }
    }
  }

  lemma {:induction false} FindAfter(g: string, d: char)
    requires d !in g
    ensures Find(g + [d], d) == Some(|g|)
  {
    if |g| > 0 {
      assert g[0] in g;
      assert (g + [d])[1..] == g[1..] + [d];
      FindAfter(g[1..], d);
    }
  }

  /** A bold group is exactly a text without a newline and without two
      adjacent asterisks, that does not end in an asterisk: otherwise the
      lazy group would have closed earlier. */
  lemma StrongReparsed(g: string)
    ensures Reparsed(Strong, g) <==> '\n' !in g && NoPair(g + "*")
  {
    var t := "**" + g + "**";
    assert t[..2] == "**";
    assert t[2..] == g + "**";
    StrongCloseGroup(g);
    if StrongClose(g + "**") == Some(|g|) {
      assert t[2..|g| + 2] == g;
    }
  }

  lemma {:induction false} StrongCloseGroup(g: string)
    ensures StrongClose(g + "**") == Some(|g|) <==> '\n' !in g && NoPair(g + "*")
  {
    var t := g + "**";
    if |g| > 0 {
      var c, g' := g[0], g[1..];
      assert g == [c] + g';
      assert t[1..] == g' + "**";
      assert g + "*" == [c] + (g' + "*");
      StrongCloseGroup(g');
      var pairHere := c == '*' && (g' + "*")[0] == '*';
      assert "**" <= t <==> pairHere by {
        assert t[0] == c && t[1] == (g' + "*")[0];
      }
      assert NoPair(g + "*") <==> !pairHere && NoPair(g' + "*") by {
        NoPairCons(c, g' + "*");
      }
      assert '\n' !in g <==> c != '\n' && '\n' !in g';
    } else {
      assert t == "**";
    }
  }

  lemma NoPairCons(c: char, x: string)
    requires |x| > 0
    ensures NoPair([c] + x) <==> !(c == '*' && x[0] == '*') && NoPair(x)
  {
    var y := [c] + x;
    assert y[0] == c && y[1] == x[0];
    if NoPair(y) {
      assert !(y[0] == '*' && y[1] == '*');
      forall j | 0 <= j < |x| - 1
        ensures !(x[j] == '*' && x[j + 1] == '*')
      {
        assert y[j + 1] == x[j] && y[j + 2] == x[j + 1];
      }
      assert NoPair(x);
    }
    if !(c == '*' && x[0] == '*') && NoPair(x) {
      forall j | 0 <= j < |y| - 1
        ensures !(y[j] == '*' && y[j + 1] == '*')
      {
        if j > 0 {
          assert y[j] == x[j - 1] && y[j + 1] == x[j];
        }
      }
      assert NoPair(y);
    }
  }

  /** One piece of rendered text, in the font the program sets for it:
      regular, bold, monospace, or italic math (the math run keeps the
      TeX source; rendering it is the Latex module's business). */
  datatype Run = Plain(text: string) | Bold(text: string) | Code(text: string) | Math(text: string)

  /** The three nested splits, outermost first. */
  datatype Level = MathLevel | CodeLevel | BoldLevel

  function Rank(l: Level): nat {
    match l
    case MathLevel => 2
    case CodeLevel => 1
    case BoldLevel => 0
  }

  function PatternOf(l: Level): Pattern {
    match l
    case MathLevel => Span('$')
    case CodeLevel => Span('`')
    case BoldLevel => Strong
  }

  /** The run an odd-indexed part becomes at each level. */
  function HitRun(l: Level, g: string): Run {
    match l
    case MathLevel => Math(g)
    case CodeLevel => Code(g)
    case BoldLevel => Bold(g)
  }

  /** The runs of `s` at level `l` and below, before empty parts are
      dropped. */
  function Runs(l: Level, s: string): seq<Run>
    decreases Rank(l), 1, 0
  {
    Assemble(l, Split(PatternOf(l), s))
  }

  function Assemble(l: Level, parts: seq<string>): seq<Run>
    decreases Rank(l), 0, |parts|
  {
    if |parts| == 0 then []
    else if |parts| == 1 then GapRuns(l, parts[0])
    else GapRuns(l, parts[0]) + [HitRun(l, parts[1])] + Assemble(l, parts[2..])
  }

  /** An even-indexed part goes down to the next split; at the bold level
      it is plain text. */
  function GapRuns(l: Level, x: string): seq<Run>
    decreases Rank(l), 0, 0
  {
    match l
    case MathLevel => Runs(CodeLevel, x)
    case CodeLevel => Runs(BoldLevel, x)
    case BoldLevel => [Plain(x)]
  }

  /** All runs of a line, in order, including the empty bold and plain
      parts the program skips. */
  function Segments(s: string): seq<Run> {
    Runs(MathLevel, s)
  }

  /** The runs the program actually writes: `if bpart:` skips empty plain
      and bold parts. */
  function Keep(rs: seq<Run>): seq<Run> {
    if |rs| == 0 then []
    else if rs[0] == Plain("") || rs[0] == Bold("") then Keep(rs[1..])
    else [rs[0]] + Keep(rs[1..])
  }

  /** What `Keep` writes is exactly the non-empty runs: each kept run is a
      run of the input, and every input run that is neither an empty plain
      nor an empty bold run is kept. */
  lemma {:induction false} KeepFilters(rs: seq<Run>)
    ensures forall r :: r in Keep(rs) ==> r != Plain("") && r != Bold("") && r in rs
    ensures forall r :: r in rs && r != Plain("") && r != Bold("") ==> r in Keep(rs)
  {
    if |rs| > 0 {
      KeepFilters(rs[1..]);
      assert forall r :: r in rs[1..] ==> r in rs;
      assert rs == [rs[0]] + rs[1..];
    }
  }

  /** `process_inline(text)` as the sequence of runs it writes. */
  function Tokenize(s: string): seq<Run> {
    Keep(Segments(s))
  }

  /** The markup a run came from. */
  function Render(r: Run): string {
    match r
    case Plain(t) => t
    case Bold(t) => "**" + t + "**"
    case Code(t) => "`" + t + "`"
    case Math(t) => "$" + t + "$"
  }

  function Unparse(rs: seq<Run>): string {
    if |rs| == 0 then "" else Render(rs[0]) + Unparse(rs[1..])
  }

  lemma {:induction false} UnparseAppend(a: seq<Run>, b: seq<Run>)
    ensures Unparse(a + b) == Unparse(a) + Unparse(b)
  {
    if |a| > 0 {
      calc {
        Unparse(a + b);
        == { assert (a + b)[0] == a[0] && (a + b)[1..] == a[1..] + b; }
        Render(a[0]) + Unparse(a[1..] + b);
        == { UnparseAppend(a[1..], b); }
        Render(a[0]) + (Unparse(a[1..]) + Unparse(b));
        == { Text.Associate(Render(a[0]), Unparse(a[1..]), Unparse(b)); }
        Unparse(a) + Unparse(b);
      }
    } else {
      assert a + b == b;
    }
  }

  /** Tokenizing loses no text: the runs, written back with their
      delimiters, give the line back. */
  lemma {:induction false} RunsUnparse(l: Level, s: string)
    ensures Unparse(Runs(l, s)) == s
    decreases Rank(l), 1, 0
  {
    AssembleUnparse(l, Split(PatternOf(l), s));
    SplitJoin(PatternOf(l), s);
  }

  lemma {:induction false} AssembleUnparse(l: Level, parts: seq<string>)
    ensures Unparse(Assemble(l, parts)) == Join(PatternOf(l), parts)
    decreases Rank(l), 0, |parts|
  {
    if |parts| == 1 {
      GapUnparse(l, parts[0]);
    } else if |parts| > 1 {
      GapUnparse(l, parts[0]);
      AssembleUnparse(l, parts[2..]);
      var hit := [HitRun(l, parts[1])];
      UnparseAppend(GapRuns(l, parts[0]) + hit, Assemble(l, parts[2..]));
      UnparseAppend(GapRuns(l, parts[0]), hit);
      assert Unparse(hit) == Wrap(PatternOf(l), parts[1]);
    }
  }

  lemma {:induction false} GapUnparse(l: Level, x: string)
    ensures Unparse(GapRuns(l, x)) == x
    decreases Rank(l), 0, 0
  {
    match l
    case MathLevel => RunsUnparse(CodeLevel, x);
    case CodeLevel => RunsUnparse(BoldLevel, x);
    case BoldLevel =>
  }

  /** The full line comes back from its segments. */
  lemma SegmentsUnparse(s: string)
    ensures Unparse(Segments(s)) == s
  {
    RunsUnparse(MathLevel, s);
  }

  /** Dropping runs never lengthens the text; it keeps it exactly when no
      empty bold run (`****`) is among the dropped ones, since an empty
      plain run writes nothing anyway. */
  lemma {:induction false} KeepUnparse(rs: seq<Run>)
    ensures Bold("") !in rs ==> Unparse(Keep(rs)) == Unparse(rs)
    ensures Bold("") in rs ==> |Unparse(Keep(rs))| < |Unparse(rs)|
    ensures |Unparse(Keep(rs))| <= |Unparse(rs)|
  {
    if |rs| > 0 {
      KeepUnparse(rs[1..]);
      assert rs == [rs[0]] + rs[1..];
      assert Bold("") in rs <==> rs[0] == Bold("") || Bold("") in rs[1..];
      var k := Keep(rs[1..]);
      assert ([rs[0]] + k)[1..] == k;
    }
  }

  /** The written runs reproduce the line exactly when the line holds no
      empty bold span: `****` is the one piece of markup that vanishes. */
  lemma TokenizeUnparse(s: string)
    ensures Unparse(Tokenize(s)) == s <==> Bold("") !in Segments(s)
  {
    SegmentsUnparse(s);
    KeepUnparse(Segments(s));
  }

  lemma QuietSuffix(p: Pattern, a: string, x: string)
    requires Quiet(p, a + x)
    ensures Quiet(p, x)
  {
    forall i | 0 <= i < |x|
      ensures Match(p, x[i..]).None?
    {
      assert (a + x)[i + |a|..] == x[i..];
    }
  }

  lemma QuietPrefix(p: Pattern, x: string, b: string)
    requires Quiet(p, x + b)
    ensures Quiet(p, x)
  {
    forall i | 0 <= i < |x|
      ensures Match(p, x[i..]).None?
    {
      assert Match(p, (x + b)[i..]).None?;
      assert x[i..] + b == (x + b)[i..];
      NoMatchPrefix(p, x[i..], b);
    }
  }

  /** A text whose extension holds no match at its head holds none either. */
  lemma NoMatchPrefix(p: Pattern, u: string, v: string)
    requires Match(p, u + v).None?
    ensures Match(p, u).None?
  {
    if Match(p, u).Some? {
      MatchExtends(p, u, v);
    }
  }

  /** Every even part is a piece of the joined text, so it inherits any
      absence of matches from it. */
  lemma {:induction false} JoinGapQuiet(q: Pattern, p: Pattern, parts: seq<string>, k: nat)
    requires Quiet(q, Join(p, parts)) && k < |parts| && k % 2 == 0
    ensures Quiet(q, parts[k])
  {
    if |parts| == 1 {
    } else if k == 0 {
      assert parts[0] + (Wrap(p, parts[1]) + Join(p, parts[2..])) == Join(p, parts);
      QuietPrefix(q, parts[0], Wrap(p, parts[1]) + Join(p, parts[2..]));
    } else {
      QuietSuffix(q, parts[0] + Wrap(p, parts[1]), Join(p, parts[2..]));
      JoinGapQuiet(q, p, parts[2..], k - 2);
    }
  }

  /** What each run is, as the regexes capture it: a math or code group is
      re-matched whole by its own pattern, so is a bold group, and plain
      text holds no complete span of any of the three kinds. */
  predicate RunOk(r: Run) {
    match r
    case Math(t) => Reparsed(Span('$'), t)
    case Code(t) => Reparsed(Span('`'), t)
    case Bold(t) => Reparsed(Strong, t)
    case Plain(t) => Quiet(Span('$'), t) && Quiet(Span('`'), t) && Quiet(Strong, t)
  }

  /** The text handed to level `l` already holds no span of the levels
      above it. */
  predicate AboveQuiet(l: Level, t: string) {
    && (Rank(l) < 2 ==> Quiet(Span('$'), t))
    && (Rank(l) < 1 ==> Quiet(Span('`'), t))
  }

  predicate AllOk(rs: seq<Run>) {
    forall i :: 0 <= i < |rs| ==> RunOk(rs[i])
  }

  lemma {:induction false} RunsShape(l: Level, s: string)
    requires AboveQuiet(l, s)
    ensures AllOk(Runs(l, s))
    decreases Rank(l), 1, 0
  {
    var p := PatternOf(l);
    var parts := Split(p, s);
    SplitGaps(p, s);
    SplitGroups(p, s);
    SplitJoin(p, s);
    forall k | 0 <= k < |parts| && k % 2 == 0
      ensures Quiet(p, parts[k]) && AboveQuiet(l, parts[k])
    {
      QuietPrefix(p, parts[k], After(p, parts, k));
      if Rank(l) < 2 {
        JoinGapQuiet(Span('$'), p, parts, k);
      }
      if Rank(l) < 1 {
        JoinGapQuiet(Span('`'), p, parts, k);
      }
    }
    AssembleShape(l, parts);
  }

  lemma {:induction false} AssembleShape(l: Level, parts: seq<string>)
    requires forall k :: 0 <= k < |parts| && k % 2 == 0 ==> Quiet(PatternOf(l), parts[k]) && AboveQuiet(l, parts[k])
    requires forall k :: 0 <= k < |parts| && k % 2 == 1 ==> Reparsed(PatternOf(l), parts[k])
    ensures AllOk(Assemble(l, parts))
    decreases Rank(l), 0, |parts|
  {
    if |parts| == 1 {
      GapShape(l, parts[0]);
    } else if |parts| > 1 {
      GapShape(l, parts[0]);
      var rest := parts[2..];
      forall k | 0 <= k < |rest|
        ensures k % 2 == 0 ==> Quiet(PatternOf(l), rest[k]) && AboveQuiet(l, rest[k])
        ensures k % 2 == 1 ==> Reparsed(PatternOf(l), rest[k])
      {
        assert rest[k] == parts[k + 2];
      }
      AssembleShape(l, rest);
      assert RunOk(HitRun(l, parts[1]));
      AllOkAppend(GapRuns(l, parts[0]), [HitRun(l, parts[1])]);
      AllOkAppend(GapRuns(l, parts[0]) + [HitRun(l, parts[1])], Assemble(l, rest));
    }
  }

  lemma AllOkAppend(a: seq<Run>, b: seq<Run>)
    requires AllOk(a) && AllOk(b)
    ensures AllOk(a + b)
  {
    forall i | 0 <= i < |a + b|
      ensures RunOk((a + b)[i])
    {
      if i >= |a| {
        assert (a + b)[i] == b[i - |a|];
      }
    }
  }

  lemma {:induction false} GapShape(l: Level, x: string)
    requires Quiet(PatternOf(l), x) && AboveQuiet(l, x)
    ensures AllOk(GapRuns(l, x))
    decreases Rank(l), 0, 0
  {
    match l
    case MathLevel => RunsShape(CodeLevel, x);
    case CodeLevel => RunsShape(BoldLevel, x);
    case BoldLevel =>
  }

  /** Every run of a line is what its pattern captures, and no complete
      span is left inside plain text. */
  lemma SegmentsShape(s: string)
    ensures AllOk(Segments(s))
  {
    RunsShape(MathLevel, s);
  }

  /** The written runs in plain terms: math and code runs are non-empty and
      free of their delimiter; bold runs are non-empty, single-line, hold no
      `**` and do not end in `*`; plain runs are non-empty and hold no
      complete span. */
  lemma TokensReadable(s: string)
    ensures forall r :: r in Tokenize(s) && r.Math? ==> r.text != "" && '$' !in r.text
    ensures forall r :: r in Tokenize(s) && r.Code? ==> r.text != "" && '`' !in r.text
    ensures forall r :: r in Tokenize(s) && r.Bold? ==> r.text != "" && '\n' !in r.text && NoPair(r.text + "*")
    ensures forall r :: r in Tokenize(s) && r.Plain? ==>
      r.text != "" && Quiet(Span('$'), r.text) && Quiet(Span('`'), r.text) && Quiet(Strong, r.text)
  {
    SegmentsShape(s);
    KeepFilters(Segments(s));
    forall r | r in Tokenize(s)
      ensures RunOk(r) && r != Plain("") && r != Bold("")
    {
      var i :| 0 <= i < |Tokenize(s)| && Tokenize(s)[i] == r;
      var j :| 0 <= j < |Segments(s)| && Segments(s)[j] == r;
    }
    forall r | r in Tokenize(s) && r.Math?
      ensures r.text != "" && '$' !in r.text
    {
      SpanReparsed('$', r.text);
    }
    forall r | r in Tokenize(s) && r.Code?
      ensures r.text != "" && '`' !in r.text
    {
      SpanReparsed('`', r.text);
    }
    forall r | r in Tokenize(s) && r.Bold?
      ensures '\n' !in r.text && NoPair(r.text + "*")
    {
      StrongReparsed(r.text);
    }
  }

  /** Text in which no match starts is one part. */
  lemma {:induction false} SplitQuiet(p: Pattern, s: string)
    requires Quiet(p, s)
    ensures Split(p, s) == [s]
    decreases |s|
  {
    if |s| > 0 {
      assert Match(p, s).None? by {
        assert s[0..] == s;
      }
      assert Quiet(p, s[1..]) by {
        assert [s[0]] + s[1..] == s;
        QuietSuffix(p, [s[0]], s[1..]);
      }
      SplitQuiet(p, s[1..]);
      SplitMiss(p, s);
      assert [s[0]] + s[1..] == s;
    }
  }

  /** Text without the pattern's delimiter character is one part. */
  lemma UnmarkedQuiet(p: Pattern, s: string)
    requires Marker(p)[0] !in s
    ensures Quiet(p, s) && Split(p, s) == [s]
  {
    forall i | 0 <= i < |s|
      ensures Match(p, s[i..]).None?
    {
      assert s[i] in s;
    }
    SplitQuiet(p, s);
  }

  /** A delimiter-free prefix joins the first part. */
  lemma {:induction false} SplitPlainPrefix(p: Pattern, x: string, t: string)
    requires Marker(p)[0] !in x
    ensures Split(p, x + t) == [x + Split(p, t)[0]] + Split(p, t)[1..]
    decreases |x|
  {
    if |x| > 0 {
      var s := x + t;
      assert s[1..] == x[1..] + t;
      assert Marker(p)[0] !in x[1..] by {
        assert forall c :: c in x[1..] ==> c in x;
      }
      SplitPlainPrefix(p, x[1..], t);
      assert Match(p, s).None? by {
        assert s[0] == x[0] && x[0] in x;
        MatchOpens(p, s);
      }
      PlainPrefixStep(p, s, x[0], x[1..] + Split(p, t)[0], Split(p, t)[1..]);
      assert [x[0]] + (x[1..] + Split(p, t)[0]) == x + Split(p, t)[0] by {
        Text.Associate([x[0]], x[1..], Split(p, t)[0]);
        assert [x[0]] + x[1..] == x;
      }
    } else {
      var r := Split(p, t);
      assert x + t == t && x + r[0] == r[0];
      assert r == [r[0]] + r[1..];
    }
  }

  lemma PlainPrefixStep(p: Pattern, s: string, c: char, head: string, tail: seq<string>)
    requires |s| > 0 && s[0] == c && Match(p, s).None?
    requires Split(p, s[1..]) == [head] + tail
    ensures Split(p, s) == [[c] + head] + tail
  {
    SplitMiss(p, s);
    assert ([head] + tail)[0] == head && ([head] + tail)[1..] == tail;
  }

  /** A match begins with the opening delimiter. */
  lemma MatchOpens(p: Pattern, t: string)
    ensures Match(p, t).Some? ==> |t| > 0 && t[0] == Marker(p)[0]
  {
    if Match(p, t).Some? {
      var h := Match(p, t).value;
      assert t[..h.len][0] == t[0];
    }
  }

  lemma RunsSingle(l: Level, s: string)
    requires Split(PatternOf(l), s) == [s]
    ensures Runs(l, s) == GapRuns(l, s)
  {
  }

  lemma RunsTriple(l: Level, s: string, x: string, g: string, y: string)
    requires Split(PatternOf(l), s) == [x, g, y]
    ensures Runs(l, s) == GapRuns(l, x) + [HitRun(l, g)] + GapRuns(l, y)
  {
    assert [x, g, y][2..] == [y];
  }

  /** Text without any of the three delimiter characters is one plain run
      at every level. */
  lemma PlainRuns(l: Level, s: string)
    requires '$' !in s && '`' !in s && '*' !in s
    ensures Runs(l, s) == [Plain(s)]
    decreases Rank(l)
  {
    UnmarkedQuiet(PatternOf(l), s);
    RunsSingle(l, s);
    match l
    case MathLevel => PlainRuns(CodeLevel, s);
    case CodeLevel => PlainRuns(BoldLevel, s);
    case BoldLevel =>
  }

  /** A line with no `$`, backtick or `*` is one plain run (none if it is
      empty). */
  lemma PlainLine(s: string)
    requires '$' !in s && '`' !in s && '*' !in s
    ensures Segments(s) == [Plain(s)]
    ensures Tokenize(s) == if s == "" then [] else [Plain(s)]
  {
    PlainRuns(MathLevel, s);
    KeepOne(Plain(s));
  }

  lemma KeepOne(r: Run)
    ensures Keep([r]) == if r == Plain("") || r == Bold("") then [] else [r]
  {
    assert [r][1..] == [];
  }

  /** `****` is an empty bold span: it splits the text around it, and
      nothing of it is written. */
  lemma EmptyBoldDropped(x: string, y: string)
    requires Unmarked(x) && Unmarked(y) && |x| > 0 && |y| > 0
    ensures Segments(x + "****" + y) == [Plain(x), Bold(""), Plain(y)]
    ensures Tokenize(x + "****" + y) == [Plain(x), Plain(y)]
  {
    var s := x + "****" + y;
    assert '$' !in s && '`' !in s;
    assert Runs(BoldLevel, s) == [Plain(x), Bold(""), Plain(y)] by {
      EmptyBoldSplit(x, y);
      RunsTriple(BoldLevel, s, x, "", y);
    }
    assert Runs(CodeLevel, s) == Runs(BoldLevel, s) by {
      UnmarkedQuiet(Span('`'), s);
      RunsSingle(CodeLevel, s);
    }
    assert Segments(s) == Runs(CodeLevel, s) by {
      UnmarkedQuiet(Span('$'), s);
      RunsSingle(MathLevel, s);
    }
    KeepDropsEmpty(Plain(x), Bold(""), Plain(y));
  }

  /** The middle of three runs is dropped when it is empty and the outer
      two are not. */
  lemma KeepDropsEmpty(a: Run, e: Run, b: Run)
    requires a != Plain("") && a != Bold("") && b != Plain("") && b != Bold("")
    requires e == Plain("") || e == Bold("")
    ensures Keep([a, e, b]) == [a, b]
  {
    var rs := [a, e, b];
    assert rs[1..] == [e, b];
    assert rs[1..][1..] == [b];
    KeepOne(b);
  }

  lemma EmptyBoldSplit(x: string, y: string)
    requires Unmarked(x) && Unmarked(y)
    ensures Split(Strong, x + "****" + y) == [x, "", y]
  {
    var t := "****" + y;
    assert Split(Strong, t) == ["", "", y] by {
      assert Match(Strong, t) == Some(Hit("", 4)) by {
        EmptyBoldHit();
        MatchExtends(Strong, "****", y);
      }
      SplitHit(Strong, t);
      assert t[4..] == y;
      UnmarkedQuiet(Strong, y);
    }
    PlainThenSpan(Strong, x, t, "", y);
    Text.Associate(x, "****", y);
  }

  lemma EmptyBoldHit()
    ensures Match(Strong, "****") == Some(Hit("", 4))
  {
    assert "**" <= "****";
    assert "****"[2..] == "**";
    assert "**" <= "**";
    assert StrongClose("**") == Some(0);
    assert "****"[2..2] == "";
  }

  /** One complete `$` or backtick span in otherwise delimiter-free text
      splits into the text before, the group, and the text after. */
  lemma SplitOneSpan(d: char, x: string, g: string, y: string)
    requires d !in x && d !in g && d !in y && |g| > 0
    ensures Split(Span(d), x + [d] + g + [d] + y) == [x, g, y]
  {
    var p := Span(d);
    var t := Wrap(p, g) + y;
    SpanAtHead(d, g, y);
    PlainThenSpan(p, x, t, g, y);
    assert x + t == x + [d] + g + [d] + y by {
      Text.Associate(x, [d] + g + [d], y);
      Text.Associate(x, [d] + g, [d]);
      Text.Associate(x, [d], g);
    }
  }


  /** A span at the head of the text is split off first. */
  lemma SpanAtHead(d: char, g: string, y: string)
    requires d !in g && d !in y && |g| > 0
    ensures Split(Span(d), Wrap(Span(d), g) + y) == ["", g, y]
  {
    var p := Span(d);
    var w := Wrap(p, g);
    var t := w + y;
    assert Match(p, t) == Some(Hit(g, |w|)) by {
      SpanReparsed(d, g);
      MatchExtends(p, w, y);
    }
    assert Split(p, t) == ["", g] + Split(p, y) by {
      SplitHit(p, t);
      assert t[|w|..] == y;
    }
    UnmarkedQuiet(p, y);
  }

  /** Delimiter-free text before a split only extends its first part. */
  lemma PlainThenSpan(p: Pattern, x: string, t: string, g: string, y: string)
    requires Marker(p)[0] !in x && Split(p, t) == ["", g, y]
    ensures Split(p, x + t) == [x, g, y]
  {
    SplitPlainPrefix(p, x, t);
    assert x + "" == x;
  }

  /** A single delimiter opens no span. */
  lemma LoneDelimiter(d: char, x: string, y: string)
    requires d !in x && d !in y
    ensures Split(Span(d), x + [d] + y) == [x + [d] + y]
  {
    var s := x + [d] + y;
    forall i | 0 <= i < |s|
      ensures Match(Span(d), s[i..]).None?
    {
      MatchOpens(Span(d), s[i..]);
      if i < |x| {
        assert s[i] == x[i] && x[i] in x;
      } else if i > |x| {
        assert s[i] == y[i - |x| - 1] && y[i - |x| - 1] in y;
      } else {
        assert s[i..][1..] == y;
      }
    }
    SplitQuiet(Span(d), s);
  }

  /** Math is split off first, so a `$…$` inside backticks is still math
      and the backticks stay as plain text: `` `x $g$ y` `` is written as
      the plain text `` `x ``, the math `g`, and the plain text `` y` ``. */
  lemma MathBeforeCode(x: string, g: string, y: string)
    requires Unmarked(x) && Unmarked(g) && Unmarked(y) && |g| > 0
    ensures Tokenize("`" + x + "$" + g + "$" + y + "`") == [Plain("`" + x), Math(g), Plain(y + "`")]
  {
    MathBeforeCodeSegments(x, g, y);
    KeepClean([Plain("`" + x), Math(g), Plain(y + "`")]);
  }

  /** No `$`, backtick or `*`. */
  predicate Unmarked(x: string) {
    '$' !in x && '`' !in x && '*' !in x
  }

  lemma {:induction false} MathBeforeCodeSegments(x: string, g: string, y: string)
    requires Unmarked(x) && Unmarked(g) && Unmarked(y) && |g| > 0
    ensures Segments("`" + x + "$" + g + "$" + y + "`") == [Plain("`" + x), Math(g), Plain(y + "`")]
  {
    var s := "`" + x + "$" + g + "$" + y + "`";
    assert '$' !in "`" + x && '$' !in y + "`";
    SplitOneSpan('$', "`" + x, g, y + "`");
    assert ("`" + x) + ['$'] + g + ['$'] + (y + "`") == s;
    RunsTriple(MathLevel, s, "`" + x, g, y + "`");
    LoneTickPlain("", x);
    LoneTickPlain(y, "");
    assert "" + ['`'] + x == "`" + x;
    assert y + ['`'] + "" == y + "`";
  }

  /** With nothing empty to skip, every run is written. */
  lemma {:induction false} KeepClean(rs: seq<Run>)
    requires Plain("") !in rs && Bold("") !in rs
    ensures Keep(rs) == rs
  {
    if |rs| > 0 {
      assert rs[0] in rs;
      assert Plain("") !in rs[1..] && Bold("") !in rs[1..] by {
        assert forall r :: r in rs[1..] ==> r in rs;
      }
      KeepClean(rs[1..]);
      assert Keep(rs) == [rs[0]] + Keep(rs[1..]);
      assert rs == [rs[0]] + rs[1..];
    }
  }

  /** Text with one backtick and no `*` is one plain run below the math
      level. */
  lemma LoneTickPlain(x: string, y: string)
    requires '`' !in x && '`' !in y && '*' !in x && '*' !in y
    ensures Runs(CodeLevel, x + ['`'] + y) == [Plain(x + ['`'] + y)]
  {
    var s := x + ['`'] + y;
    LoneDelimiter('`', x, y);
    assert '*' !in s;
    UnmarkedQuiet(Strong, s);
    RunsSingle(CodeLevel, s);
    RunsSingle(BoldLevel, s);
  }

  /** Bold markers inside a code span are left alone: the code span is
      taken whole, with its text as written. */
  lemma {:induction false} CodeHidesBold(g: string)
    requires |g| > 0 && '`' !in g && '$' !in g
    ensures Segments("`" + g + "`") == [Plain(""), Code(g), Plain("")]
    ensures Tokenize("`" + g + "`") == [Code(g)]
  {
    var s := "`" + g + "`";
    assert '$' !in s;
    assert Segments(s) == Runs(CodeLevel, s) by {
      UnmarkedQuiet(Span('$'), s);
      RunsSingle(MathLevel, s);
    }
    assert Split(Span('`'), s) == ["", g, ""] by {
      SpanAtHead('`', g, "");
      assert Wrap(Span('`'), g) + "" == s;
    }
    assert Runs(BoldLevel, "") == [Plain("")] by {
      assert Split(Strong, "") == [""];
    }
    RunsTriple(CodeLevel, s, "", g, "");
    KeepOnlyMiddle(Plain(""), Code(g), Plain(""));
  }

  /** The middle of three runs is all that is written when it is not
      empty and the outer two are. */
  lemma KeepOnlyMiddle(a: Run, m: Run, b: Run)
    requires a == Plain("") && b == Plain("") && m != Plain("") && m != Bold("")
    ensures Keep([a, m, b]) == [m]
  {
    var rs := [a, m, b];
    assert rs[1..] == [m, b];
    assert rs[1..][1..] == [b];
    KeepOne(b);
  }


  /** An unclosed `$` stays in the text. */
  lemma UnclosedMath(x: string, y: string)
    requires Unmarked(x) && Unmarked(y)
    ensures Tokenize(x + "$" + y) == [Plain(x + "$" + y)]
  {
    var s := x + "$" + y;
    assert '`' !in s && '*' !in s;
    assert Split(Span('$'), s) == [s] by {
      LoneDelimiter('$', x, y);
    }
    RunsSingle(MathLevel, s);
    UnmarkedQuiet(Span('`'), s);
    UnmarkedQuiet(Strong, s);
    RunsSingle(CodeLevel, s);
    RunsSingle(BoldLevel, s);
    KeepOne(Plain(s));
  }
}
