/** The fallback branch of `latex_to_unicode`: a plain-text rendering of a
    TeX math snippet by a fixed symbol table followed by four regular
    expression rewrites (superscripts, subscripts, fractions). Each
    `re.sub` is a left-to-right scanner that, at every position, either
    rewrites one match and continues after it or copies one character. */
module Latex {
  import opened Text

  /** The symbol table in the dictionary's insertion order, which is the
      order `str.replace` is applied in. */
  function Symbols(): seq<(string, string)> {
    LowerGreek() + UpperGreek() + Operators()
  }

  function LowerGreek(): seq<(string, string)> {
    LowerGreekA() + LowerGreekB() + LowerGreekC()
  }

  function LowerGreekA(): seq<(string, string)> {
    [ (@"\alpha", "a"), (@"\beta", "b"), (@"\gamma", "g"), (@"\delta", "d"),
      (@"\epsilon", "e"), (@"\zeta", "z"), (@"\eta", "n"), (@"\theta", "th") ]
  }

  function LowerGreekB(): seq<(string, string)> {
    [ (@"\iota", "i"), (@"\kappa", "k"), (@"\lambda", "l"), (@"\mu", "m"),
      (@"\nu", "v"), (@"\xi", "x"), (@"\pi", "p"), (@"\rho", "r") ]
  }

  function LowerGreekC(): seq<(string, string)> {
    [ (@"\sigma", "s"), (@"\tau", "t"), (@"\upsilon", "u"), (@"\phi", "ph"),
      (@"\chi", "ch"), (@"\psi", "ps"), (@"\omega", "o") ]
  }

  function UpperGreek(): seq<(string, string)> {
    [ (@"\Gamma", "G"), (@"\Delta", "D"), (@"\Theta", "Th"), (@"\Lambda", "L"),
      (@"\Xi", "X"), (@"\Pi", "P"), (@"\Sigma", "S"), (@"\Upsilon", "U"),
      (@"\Phi", "Ph"), (@"\Psi", "Ps"), (@"\Omega", "O") ]
  }

  function Operators(): seq<(string, string)> {
    OperatorsA() + OperatorsB()
  }

  function OperatorsA(): seq<(string, string)> {
    [ (@"\infty", "inf"), (@"\pm", "+/-"), (@"\mp", "-/+"), (@"\times", "x"),
      (@"\div", "/"), (@"\leq", "<="), (@"\geq", ">="), (@"\neq", "!=") ]
  }

  function OperatorsB(): seq<(string, string)> {
    [ (@"\approx", "~"), (@"\equiv", "=="), (@"\int", "int"), (@"\sum", "sum"),
      (@"\prod", "prod"), (@"\sqrt", "sqrt"), (@"\partial", "d") ]
  }

  /** Every key is a backslash command; no replacement holds a backslash. */
  predicate WellFormedTable(table: seq<(string, string)>) {
    forall i :: 0 <= i < |table| ==>
      |table[i].0| >= 2 && table[i].0[0] == '\\' && '\\' !in table[i].1
  }

  lemma WellFormedAppend(a: seq<(string, string)>, b: seq<(string, string)>)
    requires WellFormedTable(a) && WellFormedTable(b)
    ensures WellFormedTable(a + b)
  {
    forall i | 0 <= i < |a + b|
      ensures |(a + b)[i].0| >= 2 && (a + b)[i].0[0] == '\\' && '\\' !in (a + b)[i].1
    {
      if i >= |a| {
        assert (a + b)[i] == b[i - |a|];
      }
    }
  }

  lemma LowerGreekAWellFormed()
    ensures WellFormedTable(LowerGreekA())
  {
  }

  lemma LowerGreekBWellFormed()
    ensures WellFormedTable(LowerGreekB())
  {
  }

  lemma LowerGreekCWellFormed()
    ensures WellFormedTable(LowerGreekC())
  {
  }

  lemma UpperGreekWellFormed()
    ensures WellFormedTable(UpperGreek())
  {
  }

  lemma OperatorsAWellFormed()
    ensures WellFormedTable(OperatorsA())
  {
  }

  lemma OperatorsBWellFormed()
    ensures WellFormedTable(OperatorsB())
  {
  }

  lemma ChunksWellFormed()
    ensures WellFormedTable(LowerGreekA()) && WellFormedTable(LowerGreekB())
    ensures WellFormedTable(LowerGreekC()) && WellFormedTable(UpperGreek())
    ensures WellFormedTable(OperatorsA()) && WellFormedTable(OperatorsB())
  {
    LowerGreekAWellFormed();
    LowerGreekBWellFormed();
    LowerGreekCWellFormed();
    UpperGreekWellFormed();
    OperatorsAWellFormed();
    OperatorsBWellFormed();
  }

  lemma SymbolsWellFormed()
    ensures WellFormedTable(Symbols())
  {
    ChunksWellFormed();
    WellFormedAppend(LowerGreekA(), LowerGreekB());
    WellFormedAppend(LowerGreekA() + LowerGreekB(), LowerGreekC());
    WellFormedAppend(OperatorsA(), OperatorsB());
    WellFormedAppend(LowerGreek(), UpperGreek());
    WellFormedAppend(LowerGreek() + UpperGreek(), Operators());
  }

  /** `k` occurs somewhere in `s`. */
  predicate Contains(s: string, k: string) {
    k <= s || (|s| > 0 && Contains(s[1..], k))
  }

  /** `s.replace(k, v)`: every non-overlapping occurrence of `k`, scanning
      left to right, becomes `v`. An empty `k` occurs before every character
      and at the end. */
  function ReplaceAll(s: string, k: string, v: string): string
    decreases |s|, |k|
  {
    if |k| == 0 then
      if |s| == 0 then v else v + [s[0]] + ReplaceAll(s[1..], k, v)
    else if |s| == 0 then []
    else if k <= s then v + ReplaceAll(s[|k|..], k, v)
    else [s[0]] + ReplaceAll(s[1..], k, v)
  }

  /** An occurrence of a non-empty key at the head is replaced. */
  lemma ReplaceAllHead(k: string, rest: string, v: string)
    requires |k| > 0
    ensures ReplaceAll(k + rest, k, v) == v + ReplaceAll(rest, k, v)
  {
    assert (k + rest)[|k|..] == rest;
  }

  /** A character at which the key does not start is copied. */
  lemma ReplaceAllSkip(c: char, rest: string, k: string, v: string)
    requires |k| > 0 && !(k <= [c] + rest)
    ensures ReplaceAll([c] + rest, k, v) == [c] + ReplaceAll(rest, k, v)
  {
    assert ([c] + rest)[1..] == rest;
  }

  /** The `for k, v in symbols.items(): tex = tex.replace(k, v)` loop. */
  function ReplaceEach(s: string, table: seq<(string, string)>): string
    decreases |table|
  {
    if |table| == 0 then s else ReplaceEach(ReplaceAll(s, table[0].0, table[0].1), table[1..])
  }

  function SymbolPass(s: string): string {
    ReplaceEach(s, Symbols())
  }

  predicate IsBrace(c: char) {
    c == '{' || c == '}'
  }

  /** `[a-zA-Z0-9]` */
  predicate IsAsciiAlnum(c: char) {
    ('a' <= c <= 'z') || ('A' <= c <= 'Z') || ('0' <= c <= '9')
  }

  /** Length of the longest brace-free prefix: how far `[^{}]+` reaches. */
  function BraceFreeRun(s: string): (n: nat)
    ensures n <= |s|
    ensures forall i :: 0 <= i < n ==> !IsBrace(s[i])
    ensures n == |s| || IsBrace(s[n])
  {
    if |s| == 0 || IsBrace(s[0]) then 0 else 1 + BraceFreeRun(s[1..])
  }

  /** `{([^{}]+)}` at the start of `t`: the length of the captured group, or
      0 when there is no match. The greedy run can only end at a brace, so
      it matches exactly when that brace is a `}`. */
  function Group(t: string): (n: nat)
    ensures n > 0 ==> n + 2 <= |t| && t[0] == '{' && t[n + 1] == '}'
    ensures n > 0 ==> forall i :: 1 <= i <= n ==> !IsBrace(t[i])
  {
    if |t| > 0 && t[0] == '{' then
      var n := BraceFreeRun(t[1..]);
      if 0 < n && n + 1 < |t| && t[n + 1] == '}' then n else 0
    else 0
  }

  /** `re.sub(r'M{([^{}]+)}', lambda m: 'M' + m.group(1), s)` for the
      script mark `M`, `^` or `_`: a braced, brace-free, non-empty script
      loses its braces. */
  function ScriptGroups(s: string, mark: char): string
    decreases |s|
  {
    if |s| == 0 then []
    else if s[0] == mark && Group(s[1..]) > 0 then
      var n := Group(s[1..]);
      [mark] + s[2..n + 2] + ScriptGroups(s[n + 3..], mark)
    else [s[0]] + ScriptGroups(s[1..], mark)
  }

  /** `re.sub(r'M([a-zA-Z0-9])', lambda m: 'M' + m.group(1), s)`. */
  function SingleScript(s: string, mark: char): string
    decreases |s|
  {
    if |s| == 0 then []
    else if |s| >= 2 && s[0] == mark && IsAsciiAlnum(s[1]) then [mark, s[1]] + SingleScript(s[2..], mark)
    else [s[0]] + SingleScript(s[1..], mark)
  }

  /** `re.sub(r'\\frac{([^{}]+)}{([^{}]+)}', lambda m: m.group(1) + '/' + m.group(2), s)`. */
  function Fracs(s: string): string
    decreases |s|
  {
    if |s| == 0 then []
    else if @"\frac" <= s && Group(s[5..]) > 0 && Group(s[Group(s[5..]) + 7..]) > 0 then
      var a := Group(s[5..]);
      var b := Group(s[a + 7..]);
      s[6..a + 6] + "/" + s[a + 8..a + b + 8] + Fracs(s[a + b + 9..])
    else [s[0]] + Fracs(s[1..])
  }

  /** The fallback renderer, in the program's order: symbols, superscripts,
      subscripts, fractions. */
  function Fallback(tex: string): string {
    var symbols := SymbolPass(tex);
    var sup := SingleScript(ScriptGroups(symbols, '^'), '^');
    var sub := SingleScript(ScriptGroups(sup, '_'), '_');
    Fracs(sub)
  }

  // ---------------------------------------------------------------------
  // The symbol pass

  /** The letters that follow a backslash in `s`: the first letter of every
      command `s` mentions. */
  function Initials(s: string): set<char> {
    if |s| < 2 then {} else (if s[0] == '\\' then {s[1]} else {}) + Initials(s[1..])
  }

  /** A backslash command contributes its first letter. */
  lemma InitialsCommand(c: char, rest: string)
    requires c != '\\'
    ensures Initials(['\\', c] + rest) == {c} + Initials(rest)
  {
    assert (['\\', c] + rest)[1..] == [c] + rest;
    assert ([c] + rest)[1..] == rest;
  }

  /** A prefix without backslashes contributes nothing. */
  lemma {:induction false} InitialsPlainPrefix(x: string, t: string)
    requires '\\' !in x
    ensures Initials(x + t) == Initials(t)
    decreases |x|
  {
    if |x| > 0 {
      InitialsPlainPrefix(x[1..], t);
      assert x[0] in x;
      assert (x + t)[0] == x[0] && (x + t)[1..] == x[1..] + t;
      if |x + t| < 2 {
        assert |x[1..] + t| == 0;
      }
    } else {
      assert x + t == t;
    }
  }

  /** No key of `table` can occur in `s`: no key's first letter follows a
      backslash in `s`. */
  predicate Untouched(s: string, table: seq<(string, string)>) {
    forall i :: 0 <= i < |table| && |table[i].0| >= 2 ==> table[i].0[1] !in Initials(s)
  }

  /** A key whose first letter follows no backslash does not occur, so
      `replace` leaves the string alone. */
  lemma {:induction false} ReplaceAllUntouched(s: string, k: string, v: string)
    requires |k| >= 2 && k[0] == '\\' && k[1] !in Initials(s)
    ensures ReplaceAll(s, k, v) == s
  {
    if |s| > 0 {
      assert Initials(s[1..]) <= Initials(s);
      ReplaceAllUntouched(s[1..], k, v);
    }
  }

  lemma {:induction false} ReplaceEachUntouched(s: string, table: seq<(string, string)>)
    requires WellFormedTable(table) && Untouched(s, table)
    ensures ReplaceEach(s, table) == s
  {
    if |table| > 0 {
      ReplaceAllUntouched(s, table[0].0, table[0].1);
      ReplaceEachUntouched(s, table[1..]);
    }
  }

  /** Replacing with the table `a + b` is replacing with `a`, then with `b`. */
  lemma {:induction false} ReplaceEachAppend(s: string, a: seq<(string, string)>, b: seq<(string, string)>)
    requires WellFormedTable(a) && WellFormedTable(b)
    ensures WellFormedTable(a + b)
    ensures ReplaceEach(s, a + b) == ReplaceEach(ReplaceEach(s, a), b)
    decreases |a|
  {
    WellFormedAppend(a, b);
    if |a| == 0 {
      assert a + b == b;
    } else {
      assert (a + b)[0] == a[0] && (a + b)[1..] == a[1..] + b;
      ReplaceEachAppend(ReplaceAll(s, a[0].0, a[0].1), a[1..], b);
    }
  }

  /** A string without a backslash holds no command, so the symbol pass
      leaves it alone. */
  lemma {:induction false} NoBackslashUntouched(s: string, table: seq<(string, string)>)
    requires WellFormedTable(table) && '\\' !in s
    ensures Untouched(s, table)
    ensures ReplaceEach(s, table) == s
  {
    NoBackslashNoInitials(s);
    ReplaceEachUntouched(s, table);
  }

  lemma {:induction false} NoBackslashNoInitials(s: string)
    requires '\\' !in s
    ensures Initials(s) == {}
  {
    if |s| >= 2 {
      NoBackslashNoInitials(s[1..]);
    }
  }

  /** Replacement texts hold no backslash, so no `replace` adds one: the
      number of backslashes never grows. */
  lemma {:induction false} ReplaceAllBackslashes(s: string, k: string, v: string)
    requires |k| >= 1 && k[0] == '\\' && '\\' !in v
    ensures Count(ReplaceAll(s, k, v), '\\') <= Count(s, '\\')
  {
    if |s| > 0 {
      if k <= s {
        ReplaceAllBackslashes(s[|k|..], k, v);
        CountAppend(v, ReplaceAll(s[|k|..], k, v), '\\');
        assert s == [s[0]] + s[1..];
        assert s[1..] == s[1..|k|] + s[|k|..];
        CountAppend(s[1..|k|], s[|k|..], '\\');
      } else {
        ReplaceAllBackslashes(s[1..], k, v);
        CountAppend([s[0]], ReplaceAll(s[1..], k, v), '\\');
      }
    }
  }

  lemma {:induction false} ReplaceEachBackslashes(s: string, table: seq<(string, string)>)
    requires WellFormedTable(table)
    ensures Count(ReplaceEach(s, table), '\\') <= Count(s, '\\')
    decreases |table|
  {
    if |table| > 0 {
      ReplaceAllBackslashes(s, table[0].0, table[0].1);
      ReplaceEachBackslashes(ReplaceAll(s, table[0].0, table[0].1), table[1..]);
    }
  }

  /** The symbol pass never adds a backslash, and a string without one is
      returned unchanged. */
  lemma SymbolPassBackslashes(s: string)
    ensures Count(SymbolPass(s), '\\') <= Count(s, '\\')
    ensures '\\' !in s ==> SymbolPass(s) == s
  {
    SymbolsWellFormed();
    ReplaceEachBackslashes(s, Symbols());
    if '\\' !in s {
      NoBackslashUntouched(s, Symbols());
    }
  }

  // ---------------------------------------------------------------------
  // The script and fraction rewrites

  /** The single-character rewrites `^c -> ^c` and `_c -> _c` replace each
      match by itself: they never change the string. */
  lemma {:induction false} SingleScriptIdentity(s: string, mark: char)
    ensures SingleScript(s, mark) == s
    decreases |s|
  {
    if |s| >= 2 && s[0] == mark && IsAsciiAlnum(s[1]) {
      SingleScriptIdentity(s[2..], mark);
      assert s == [mark, s[1]] + s[2..];
    } else if |s| > 0 {
      SingleScriptIdentity(s[1..], mark);
      assert s == [s[0]] + s[1..];
    }
  }

  /** The fallback therefore reduces to the symbol pass, the two braced
      script rewrites and the fraction rewrite. */
  lemma FallbackEffective(tex: string)
    ensures Fallback(tex) == Fracs(ScriptGroups(ScriptGroups(SymbolPass(tex), '^'), '_'))
  {
    var sup := ScriptGroups(SymbolPass(tex), '^');
    SingleScriptIdentity(sup, '^');
    SingleScriptIdentity(ScriptGroups(sup, '_'), '_');
  }

  /** A prefix without the script mark is copied as is. */
  lemma {:induction false} ScriptGroupsPrefix(p: string, q: string, mark: char)
    requires mark !in p
    ensures ScriptGroups(p + q, mark) == p + ScriptGroups(q, mark)
    decreases |p|
  {
    if |p| == 0 {
      assert p + q == q;
    } else {
      assert p[0] in p;
      calc {
        ScriptGroups(p + q, mark);
        == { ScriptGroupsPlainHead(p, q, mark); }
        [p[0]] + ScriptGroups(p[1..] + q, mark);
        == { ScriptGroupsPrefix(p[1..], q, mark); }
        [p[0]] + (p[1..] + ScriptGroups(q, mark));
        == { Associate([p[0]], p[1..], ScriptGroups(q, mark)); assert [p[0]] + p[1..] == p; }
        p + ScriptGroups(q, mark);
      }
    }
  }

  /** A text not starting with the mark starts its rewrite with its first
      character. */
  lemma ScriptGroupsPlainHead(p: string, q: string, mark: char)
    requires |p| > 0 && p[0] != mark
    ensures ScriptGroups(p + q, mark) == [p[0]] + ScriptGroups(p[1..] + q, mark)
  {
    var s := p + q;
    assert s[0] == p[0] && s[1..] == p[1..] + q;
  }

  lemma {:induction false} BraceFreeRunOf(x: string, rest: string)
    requires forall i :: 0 <= i < |x| ==> !IsBrace(x[i])
    requires |rest| > 0 && IsBrace(rest[0])
    ensures BraceFreeRun(x + rest) == |x|
    decreases |x|
  {
    if |x| > 0 {
      assert (x + rest)[1..] == x[1..] + rest;
      BraceFreeRunOf(x[1..], rest);
    } else {
      assert x + rest == rest;
    }
  }

  /** `{x}` with a non-empty brace-free `x` is a group of length `|x|`. */
  lemma {:induction false} GroupOf(x: string, rest: string)
    requires |x| > 0 && forall i :: 0 <= i < |x| ==> !IsBrace(x[i])
    ensures Group(['{'] + x + ['}'] + rest) == |x|
  {
    var t := ['{'] + x + ['}'] + rest;
    assert t[1..] == x + (['}'] + rest);
    BraceFreeRunOf(x, ['}'] + rest);
    assert t[|x| + 1] == '}';
  }

  /** `M{x}` at the head, with `x` non-empty and brace-free, becomes `Mx`. */
  lemma {:induction false} ScriptGroupHead(x: string, q: string, mark: char)
    requires |x| > 0 && forall i :: 0 <= i < |x| ==> !IsBrace(x[i])
    ensures ScriptGroups([mark, '{'] + x + ['}'] + q, mark) == [mark] + x + ScriptGroups(q, mark)
  {
    var t := ['{'] + x + ['}'] + q;
    var s := [mark] + t;
    assert s == [mark, '{'] + x + ['}'] + q;
    assert s[1..] == t;
    GroupOf(x, q);
    TailsOfGroup(x, q, mark);
    ScriptGroupsHit(s, mark, |x|);
    assert ScriptGroups(s, mark) == [mark] + x + ScriptGroups(q, mark);
  }

  /** The group and the text after the braces of `M{x}q`. */
  lemma {:induction false} TailsOfGroup(x: string, q: string, mark: char)
    ensures ([mark] + (['{'] + x + ['}'] + q))[2..|x| + 2] == x
    ensures ([mark] + (['{'] + x + ['}'] + q))[|x| + 3..] == q
  {
    var s := [mark] + (['{'] + x + ['}'] + q);
    assert s == [mark, '{'] + (x + (['}'] + q));
  }

  /** A script group at the head is rewritten and the scan goes on after
      its closing brace. */
  lemma ScriptGroupsHit(s: string, mark: char, n: nat)
    requires |s| > 0 && s[0] == mark && n == Group(s[1..]) > 0
    ensures ScriptGroups(s, mark) == [mark] + s[2..n + 2] + ScriptGroups(s[n + 3..], mark)
  {
  }

  /** Braced scripts lose their braces: in `p M{x} q`, where `p` holds no
      `M` and `x` is non-empty and brace-free, the group becomes `Mx`. */
  lemma {:induction false} ScriptBracesDropped(p: string, x: string, q: string, mark: char)
    requires mark !in p
    requires |x| > 0 && forall i :: 0 <= i < |x| ==> !IsBrace(x[i])
    ensures ScriptGroups(p + [mark, '{'] + x + ['}'] + q, mark)
         == p + [mark] + x + ScriptGroups(q, mark)
  {
    assert p + [mark, '{'] + x + ['}'] + q == p + ([mark, '{'] + x + ['}'] + q);
    ScriptGroupsPrefix(p, [mark, '{'] + x + ['}'] + q, mark);
    ScriptGroupHead(x, q, mark);
  }

  /** Without a closing brace nothing matches: unmatched braces pass through. */
  lemma {:induction false} ScriptGroupsNoClose(s: string, mark: char)
    requires '}' !in s
    ensures ScriptGroups(s, mark) == s
    decreases |s|
  {
    if |s| > 0 {
      ScriptGroupsNoClose(s[1..], mark);
      assert s == [s[0]] + s[1..];
    }
  }

  /** A prefix without a backslash is copied as is by the fraction rewrite. */
  lemma {:induction false} FracsPrefix(p: string, q: string)
    requires '\\' !in p
    ensures Fracs(p + q) == p + Fracs(q)
    decreases |p|
  {
    if |p| == 0 {
      assert p + q == q;
    } else {
      assert p[0] in p;
      calc {
        Fracs(p + q);
        == { FracsPlainHead(p, q); }
        [p[0]] + Fracs(p[1..] + q);
        == { FracsPrefix(p[1..], q); }
        [p[0]] + (p[1..] + Fracs(q));
        == { Associate([p[0]], p[1..], Fracs(q)); assert [p[0]] + p[1..] == p; }
        p + Fracs(q);
      }
    }
  }

  /** A text not starting with a backslash starts its rewrite with that
      character. */
  lemma FracsPlainHead(p: string, q: string)
    requires |p| > 0 && p[0] != '\\'
    ensures Fracs(p + q) == [p[0]] + Fracs(p[1..] + q)
  {
    var s := p + q;
    assert s[0] == p[0] && s[1..] == p[1..] + q;
    assert !(@"\frac" <= s);
  }

  /** `\frac{a}{b}` at the head, with brace-free non-empty `a` and `b`,
      becomes `a/b`. */
  lemma {:induction false} FracHead(a: string, b: string, q: string)
    requires |a| > 0 && forall i :: 0 <= i < |a| ==> !IsBrace(a[i])
    requires |b| > 0 && forall i :: 0 <= i < |b| ==> !IsBrace(b[i])
    ensures Fracs(@"\frac{" + a + "}{" + b + "}" + q) == a + "/" + b + Fracs(q)
  {
    var s := @"\frac{" + a + "}{" + b + "}" + q;
    FracLayout(a, b, q);
    GroupOf(a, ['{'] + b + ['}'] + q);
    GroupOf(b, q);
    assert Group(s[5..]) == |a| && Group(s[|a| + 7..]) == |b|;
    FracsHit(s, |a|, |b|);
  }

  /** A fraction at the head becomes `a/b` and the scan goes on after it. */
  lemma {:induction false} FracsHit(s: string, a: nat, b: nat)
    requires @"\frac" <= s && |s| >= 5
    requires a == Group(s[5..]) > 0 && a + 7 <= |s| && b == Group(s[a + 7..]) > 0
    ensures Fracs(s) == s[6..a + 6] + "/" + s[a + 8..a + b + 8] + Fracs(s[a + b + 9..])
  {
  }

  lemma FracLayout(a: string, b: string, q: string)
    ensures var s := @"\frac{" + a + "}{" + b + "}" + q;
      && @"\frac" <= s
      && s[5..] == ['{'] + a + ['}'] + (['{'] + b + ['}'] + q)
      && s[|a| + 7..] == ['{'] + b + ['}'] + q
      && s[6..|a| + 6] == a
      && s[|a| + 8..|a| + |b| + 8] == b
      && s[|a| + |b| + 9..] == q
  {
  }

  /** Without a closing brace no fraction matches. */
  lemma {:induction false} FracsNoClose(s: string)
    requires '}' !in s
    ensures Fracs(s) == s
    decreases |s|
  {
    if |s| > 0 {
      FracsNoClose(s[1..]);
      assert s == [s[0]] + s[1..];
    }
  }

  /** A snippet with no backslash, `^` or `_` comes back unchanged. */
  lemma FallbackPlain(s: string)
    requires '\\' !in s && '^' !in s && '_' !in s
    ensures Fallback(s) == s
  {
    SymbolPassBackslashes(s);
    FallbackEffective(s);
    ScriptGroupsPrefix(s, [], '^');
    ScriptGroupsPrefix(s, [], '_');
    FracsPrefix(s, []);
    assert s + [] == s;
  }

  /** Unmatched braces and unknown commands pass through: a snippet that
      mentions no command of the table and has no closing brace comes
      back unchanged. */
  lemma FallbackUnknownCommand(s: string)
    requires '}' !in s
    requires Untouched(s, Symbols())
    ensures Fallback(s) == s
  {
    SymbolsWellFormed();
    ReplaceEachUntouched(s, Symbols());
    FallbackEffective(s);
    ScriptGroupsNoClose(s, '^');
    ScriptGroupsNoClose(s, '_');
    FracsNoClose(s);
  }

  // ---------------------------------------------------------------------
  // Worked snippets

  /** The symbol pass is the six rows of the table applied one after the
      other. */
  lemma SymbolPassByRows(s: string)
    ensures SymbolPass(s) == ReplaceEach(ReplaceEach(ReplaceEach(ReplaceEach(ReplaceEach(ReplaceEach(
        s, LowerGreekA()), LowerGreekB()), LowerGreekC()), UpperGreek()), OperatorsA()), OperatorsB())
  {
    ChunksWellFormed();
    var a, b, c, u, oa, ob := LowerGreekA(), LowerGreekB(), LowerGreekC(), UpperGreek(), OperatorsA(), OperatorsB();
    assert Symbols() == a + b + c + u + oa + ob;
    ReplaceEachAppend(s, a, b);
    ReplaceEachAppend(s, a + b, c);
    ReplaceEachAppend(s, a + b + c, u);
    ReplaceEachAppend(s, a + b + c + u, oa);
    ReplaceEachAppend(s, a + b + c + u + oa, ob);
  }

  lemma UntouchedSlices(s: string, t: seq<(string, string)>, i: nat)
    requires WellFormedTable(t) && i < |t|
    ensures WellFormedTable(t[..i]) && WellFormedTable(t[i + 1..])
    ensures t == t[..i] + [t[i]] + t[i + 1..]
  {
    var post := t[i + 1..];
    assert forall j :: 0 <= j < |post| ==> post[j] == t[i + 1 + j];
  }

  /** A row whose only key that can occur in `s` is its `i`-th. */
  lemma ReplaceEachOnly(s: string, t: seq<(string, string)>, i: nat)
    requires WellFormedTable(t) && i < |t|
    requires Untouched(s, t[..i])
    requires Untouched(ReplaceAll(s, t[i].0, t[i].1), t[i + 1..])
    ensures ReplaceEach(s, t) == ReplaceAll(s, t[i].0, t[i].1)
  {
    UntouchedSlices(s, t, i);
    var pre, post := t[..i], t[i + 1..];
    assert WellFormedTable([t[i]]);
    ReplaceEachAppend(s, pre + [t[i]], post);
    ReplaceEachAppend(s, pre, [t[i]]);
    ReplaceEachUntouched(s, pre);
    var r := ReplaceAll(s, t[i].0, t[i].1);
    assert ReplaceEach(s, [t[i]]) == ReplaceEach(r, []);
    ReplaceEachUntouched(r, post);
  }

  lemma {:induction false} UntouchedRows(s: string)
    requires Initials(s) == {'f'}
    ensures Untouched(s, LowerGreekA()) && Untouched(s, LowerGreekB()) && Untouched(s, LowerGreekC())
    ensures Untouched(s, UpperGreek()) && Untouched(s, OperatorsA()) && Untouched(s, OperatorsB())
  {
  }

  /** No key of the table starts with `\f`, so a snippet whose only commands
      start with `f` (such as `\frac`) goes through the symbol pass
      unchanged. */
  lemma SymbolPassSkipsF(s: string)
    requires Initials(s) == {'f'}
    ensures SymbolPass(s) == s
  {
    ChunksWellFormed();
    SymbolPassByRows(s);
    UntouchedRows(s);
    ReplaceEachUntouched(s, LowerGreekA());
    ReplaceEachUntouched(s, LowerGreekB());
    ReplaceEachUntouched(s, LowerGreekC());
    ReplaceEachUntouched(s, UpperGreek());
    ReplaceEachUntouched(s, OperatorsA());
    ReplaceEachUntouched(s, OperatorsB());
  }

  /** Once no backslash is left, the remaining rows change nothing. */
  lemma LaterRowsIdle(s: string)
    requires '\\' !in s
    ensures ReplaceEach(ReplaceEach(ReplaceEach(ReplaceEach(ReplaceEach(
              s, LowerGreekB()), LowerGreekC()), UpperGreek()), OperatorsA()), OperatorsB()) == s
    ensures ReplaceEach(ReplaceEach(ReplaceEach(ReplaceEach(
              s, LowerGreekC()), UpperGreek()), OperatorsA()), OperatorsB()) == s
  {
    ChunksWellFormed();
    NoBackslashUntouched(s, LowerGreekB());
    NoBackslashUntouched(s, LowerGreekC());
    NoBackslashUntouched(s, UpperGreek());
    NoBackslashUntouched(s, OperatorsA());
    NoBackslashUntouched(s, OperatorsB());
  }

  /** `\alpha^{2}` renders as `a^2`: the symbol is replaced before the
      superscript braces are dropped. */
  lemma AlphaSquared()
    ensures Fallback(@"\alpha^{2}") == "a^2"
  {
    FallbackEffective(@"\alpha^{2}");
    AlphaSymbols();
    AlphaScripts();
  }

  lemma AlphaSymbols()
    ensures SymbolPass(@"\alpha^{2}") == "a^{2}"
  {
    var s, r := @"\alpha^{2}", "a^{2}";
    assert ReplaceEach(s, LowerGreekA()) == r by {
      AlphaFirstRow();
    }
    assert '\\' !in r;
    LaterRowsIdle(r);
    SymbolPassByRows(s);
  }

  lemma AlphaFirstRow()
    ensures ReplaceEach(@"\alpha^{2}", LowerGreekA()) == "a^{2}"
  {
    LowerGreekAWellFormed();
    AlphaReplaced();
    NoBackslashNoInitials("a^{2}");
    ReplaceEachOnly(@"\alpha^{2}", LowerGreekA(), 0);
  }

  lemma AlphaScripts()
    ensures Fracs(ScriptGroups(ScriptGroups("a^{2}", '^'), '_')) == "a^2"
  {
    assert ScriptGroups("a^{2}", '^') == "a^2" by {
      ScriptBracesDropped("a", "2", "", '^');
      assert "a" + ['^', '{'] + "2" + ['}'] + "" == "a^{2}";
      assert ScriptGroups("", '^') == "";
      assert "a" + ['^'] + "2" + "" == "a^2";
    }
    assert ScriptGroups("a^2", '_') == "a^2" by {
      ScriptGroupsPrefix("a^2", "", '_');
      assert "a^2" + "" == "a^2";
    }
    assert Fracs("a^2") == "a^2" by {
      FracsPrefix("a^2", "");
      assert "a^2" + "" == "a^2";
    }
  }

  lemma AlphaReplaced()
    ensures LowerGreekA()[0] == (@"\alpha", "a")
    ensures ReplaceAll(@"\alpha^{2}", @"\alpha", "a") == "a^{2}"
  {
    ReplaceAllHead(@"\alpha", "^{2}", "a");
    assert @"\alpha" + "^{2}" == @"\alpha^{2}";
    NoBackslashNoInitials("^{2}");
    ReplaceAllUntouched("^{2}", @"\alpha", "a");
  }

  /** A plain operand: non-empty, with no backslash, script mark or brace. */
  predicate Bare(x: string) {
    |x| > 0 && '\\' !in x && '^' !in x && '_' !in x && '{' !in x && '}' !in x
  }

  lemma BareBraceFree(x: string)
    requires Bare(x)
    ensures forall i :: 0 <= i < |x| ==> !IsBrace(x[i])
  {
    forall i | 0 <= i < |x|
      ensures !IsBrace(x[i])
    {
      assert x[i] in x;
    }
  }

  /** `\frac{a^{x}}{b}` renders as `a^x/b`: the superscript inside the
      numerator is rewritten first, which leaves the numerator brace-free
      for the fraction rewrite. */
  lemma FractionAfterScripts(a: string, x: string, b: string)
    requires Bare(a) && Bare(x) && Bare(b)
    ensures Fallback(@"\frac{" + a + "^{" + x + "}}{" + b + "}") == a + "^" + x + "/" + b
  {
    var s := @"\frac{" + a + "^{" + x + "}}{" + b + "}";
    FallbackEffective(s);
    FractionSymbols(a, x, b);
    FractionScripts(a, x, b);
    FractionRewrite(a, x, b);
  }

  lemma FractionSymbols(a: string, x: string, b: string)
    requires Bare(a) && Bare(x) && Bare(b)
    ensures SymbolPass(@"\frac{" + a + "^{" + x + "}}{" + b + "}") == @"\frac{" + a + "^{" + x + "}}{" + b + "}"
  {
    var rest := "rac{" + a + "^{" + x + "}}{" + b + "}";
    assert @"\frac{" + a + "^{" + x + "}}{" + b + "}" == ['\\', 'f'] + rest;
    FracOnlyCommand(['\\', 'f'] + rest, rest);
  }

  lemma {:induction false} FractionScripts(a: string, x: string, b: string)
    requires Bare(a) && Bare(x) && Bare(b)
    ensures ScriptGroups(ScriptGroups(@"\frac{" + a + "^{" + x + "}}{" + b + "}", '^'), '_')
         == @"\frac{" + a + "^" + x + "}{" + b + "}"
  {
    var t := @"\frac{" + a + "^" + x + "}{" + b + "}";
    FractionSuperscript(a, x, b);
    assert '_' !in t;
    ScriptGroupsPrefix(t, "", '_');
    assert t + "" == t;
  }

  lemma FractionSuperscript(a: string, x: string, b: string)
    requires Bare(a) && Bare(x) && Bare(b)
    ensures ScriptGroups(@"\frac{" + a + "^{" + x + "}}{" + b + "}", '^')
         == @"\frac{" + a + "^" + x + "}{" + b + "}"
  {
    var p := @"\frac{" + a;
    var q := "}{" + b + "}";
    var y := p + "^{" + x;
    var z := p + "^" + x;
    assert y + ['}'] + q == y + "}}{" + b + "}" by {
      Associate(y, ['}'], q);
      Associate(['}'], "}{" + b, "}");
      Associate(['}'], "}{", b);
      Associate(y, "}}{" + b, "}");
      Associate(y, "}}{", b);
    }
    assert z + q == z + "}{" + b + "}" by {
      Associate(z, "}{" + b, "}");
      Associate(z, "}{", b);
    }
    assert ScriptGroups(q, '^') == q by {
      ScriptGroupsPrefix(q, "", '^');
      assert q + "" == q;
    }
    BareBraceFree(x);
    ScriptBracesDropped(p, x, q, '^');
  }

  lemma FractionRewrite(a: string, x: string, b: string)
    requires Bare(a) && Bare(x) && Bare(b)
    ensures Fracs(@"\frac{" + a + "^" + x + "}{" + b + "}") == a + "^" + x + "/" + b
  {
    var n := a + "^" + x;
    ScriptedBraceFree(a, x);
    BareBraceFree(b);
    var t := @"\frac{" + n + "}{" + b + "}";
    assert t == @"\frac{" + a + "^" + x + "}{" + b + "}" by {
      assert @"\frac{" + n == @"\frac{" + a + "^" + x;
    }
    assert t + "" == t;
    FracHead(n, b, "");
    assert n + "/" + b + Fracs("") == a + "^" + x + "/" + b;
  }

  lemma ScriptedBraceFree(a: string, x: string)
    requires Bare(a) && Bare(x)
    ensures |a + "^" + x| > 0
    ensures forall i :: 0 <= i < |a + "^" + x| ==> !IsBrace((a + "^" + x)[i])
  {
    var n := a + "^" + x;
    forall i | 0 <= i < |n|
      ensures !IsBrace(n[i])
    {
      if i < |a| {
        assert n[i] == a[i] && a[i] in a;
      } else if i > |a| {
        assert n[i] == x[i - |a| - 1] && x[i - |a| - 1] in x;
      }
    }
  }

  /** A snippet that is `\f` followed by backslash-free text is left alone
      by the symbol pass. */
  lemma FracOnlyCommand(s: string, rest: string)
    requires s == ['\\', 'f'] + rest && '\\' !in rest
    ensures SymbolPass(s) == s
  {
    InitialsCommand('f', rest);
    NoBackslashNoInitials(rest);
    SymbolPassSkipsF(s);
  }

  /** A nested fraction is resolved one level only: the outer `\frac` does
      not match (its numerator holds braces), the inner one does. */
  lemma NestedFraction(a: string, b: string, c: string)
    requires Bare(a) && Bare(b) && Bare(c)
    ensures Fallback(@"\frac{\frac{" + a + "}{" + b + "}}{" + c + "}")
         == @"\frac{" + a + "/" + b + "}{" + c + "}"
  {
    FallbackEffective(@"\frac{\frac{" + a + "}{" + b + "}}{" + c + "}");
    NestedSymbols(a, b, c);
    NestedScripts(a, b, c);
    NestedFracs(a, b, c);
  }

  lemma {:induction false} NestedScripts(a: string, b: string, c: string)
    requires Bare(a) && Bare(b) && Bare(c)
    ensures ScriptGroups(ScriptGroups(@"\frac{\frac{" + a + "}{" + b + "}}{" + c + "}", '^'), '_')
         == @"\frac{\frac{" + a + "}{" + b + "}}{" + c + "}"
  {
    var s := @"\frac{\frac{" + a + "}{" + b + "}}{" + c + "}";
    assert '^' !in s && '_' !in s;
    ScriptGroupsPrefix(s, "", '^');
    ScriptGroupsPrefix(s, "", '_');
    assert s + "" == s;
  }

  lemma NestedSymbols(a: string, b: string, c: string)
    requires Bare(a) && Bare(b) && Bare(c)
    ensures SymbolPass(@"\frac{\frac{" + a + "}{" + b + "}}{" + c + "}")
         == @"\frac{\frac{" + a + "}{" + b + "}}{" + c + "}"
  {
    NestedOnlyF(a, b, c);
    SymbolPassSkipsF(@"\frac{\frac{" + a + "}{" + b + "}}{" + c + "}");
  }

  /** The only commands in a nested fraction are its two `\frac`s. */
  lemma NestedOnlyF(a: string, b: string, c: string)
    requires Bare(a) && Bare(b) && Bare(c)
    ensures Initials(@"\frac{\frac{" + a + "}{" + b + "}}{" + c + "}") == {'f'}
  {
    var r := a + "}{" + b + "}}{" + c + "}";
    NestedAssociate(a, b, c);
    NestedHead(r);
    assert '\\' !in r;
    NestedInitials("rac{" + r);
  }

  /** The nested fraction is its fixed head followed by the rest. */
  lemma NestedAssociate(a: string, b: string, c: string)
    ensures @"\frac{\frac{" + a + "}{" + b + "}}{" + c + "}"
         == @"\frac{\frac{" + (a + "}{" + b + "}}{" + c + "}")
  {
    var h := @"\frac{\frac{";
    calc {
      h + a + "}{" + b + "}}{" + c + "}";
      { Text.Associate(h + a + "}{" + b, "}}{" + c, "}");
        Text.Associate(h + a + "}{" + b, "}}{", c); }
      h + a + "}{" + b + ("}}{" + c + "}");
      { Text.Associate(h + a, "}{" + b, "}}{" + c + "}");
        Text.Associate(h + a, "}{", b); }
      h + a + ("}{" + b + ("}}{" + c + "}"));
      { Text.Associate(h, a, "}{" + b + ("}}{" + c + "}")); }
      h + (a + ("}{" + b + ("}}{" + c + "}")));
      { Text.Associate("}{", b, "}}{" + c + "}");
        Text.Associate(a, "}{" + b, "}}{" + c + "}");
        Text.Associate(a + "}{" + b, "}}{" + c, "}");
        Text.Associate(a + "}{" + b, "}}{", c); }
      h + (a + "}{" + b + "}}{" + c + "}");
    }
  }

  /** `\frac{\frac{` is two `\f` commands around `rac{`. */
  lemma NestedHead(r: string)
    ensures @"\frac{\frac{" + r == ['\\', 'f'] + ("rac{" + (['\\', 'f'] + ("rac{" + r)))
  {
  }

  /** Two `\f` commands with backslash-free text around them. */
  lemma NestedInitials(tail: string)
    requires '\\' !in tail
    ensures Initials(['\\', 'f'] + ("rac{" + (['\\', 'f'] + tail))) == {'f'}
  {
    InitialsCommand('f', tail);
    NoBackslashNoInitials(tail);
    InitialsPlainPrefix("rac{", ['\\', 'f'] + tail);
    InitialsCommand('f', "rac{" + (['\\', 'f'] + tail));
  }

  lemma NestedFracs(a: string, b: string, c: string)
    requires Bare(a) && Bare(b) && Bare(c)
    ensures Fracs(@"\frac{\frac{" + a + "}{" + b + "}}{" + c + "}")
         == @"\frac{" + a + "/" + b + "}{" + c + "}"
  {
    var s := @"\frac{\frac{" + a + "}{" + b + "}}{" + c + "}";
    NestedOuterFails(a, b, c);
    FracsMiss(s);
    NestedLayout(a, b, c);
    NestedInner(a, b, c);
  }

  /** Where no fraction matches, `Fracs` copies one character. */
  lemma FracsMiss(s: string)
    requires |s| >= 5 && Group(s[5..]) == 0
    ensures Fracs(s) == [s[0]] + Fracs(s[1..])
  {
  }

  lemma {:induction false} NestedLayout(a: string, b: string, c: string)
    ensures var s := @"\frac{\frac{" + a + "}{" + b + "}}{" + c + "}";
      && s[0] == '\\'
      && s[1..] == "frac{" + (@"\frac{" + a + "}{" + b + "}" + ("}{" + c + "}"))
      && [s[0]] + ("frac{" + (a + "/" + b + ("}{" + c + "}"))) == @"\frac{" + a + "/" + b + "}{" + c + "}"
  {
  }

  lemma {:induction false} NestedInner(a: string, b: string, c: string)
    requires Bare(a) && Bare(b) && Bare(c)
    ensures Fracs("frac{" + (@"\frac{" + a + "}{" + b + "}" + ("}{" + c + "}")))
         == "frac{" + (a + "/" + b + ("}{" + c + "}"))
  {
    var q := "}{" + c + "}";
    FracsPrefix("frac{", @"\frac{" + a + "}{" + b + "}" + q);
    BareBraceFree(a);
    BareBraceFree(b);
    FracHead(a, b, q);
    FracsPrefix(q, "");
    assert q + "" == q;
  }

  /** The outer `\frac` of a nested fraction does not match: its numerator
      group runs into the inner `{`. */
  lemma {:induction false} NestedOuterFails(a: string, b: string, c: string)
    requires Bare(a) && Bare(b) && Bare(c)
    ensures Group((@"\frac{\frac{" + a + "}{" + b + "}}{" + c + "}")[5..]) == 0
  {
    var s := @"\frac{\frac{" + a + "}{" + b + "}}{" + c + "}";
    var rest := "{" + a + "}{" + b + "}}{" + c + "}";
    assert s[5..] == ['{'] + (@"\frac" + rest);
    assert s[5..][1..] == @"\frac" + rest;
    BraceFreeRunOf(@"\frac", rest);
    assert s[5..][6] == '{';
  }

  /** The symbol pass is not idempotent: replacing `\upsilon` by `u`
      completes a `\mu` that an earlier row had already looked for, so a
      second pass changes the result again. */
  lemma SymbolPassNotIdempotent()
    ensures SymbolPass(@"\m\upsilon") == @"\mu"
    ensures SymbolPass(@"\mu") == "m"
    ensures SymbolPass(SymbolPass(@"\m\upsilon")) != SymbolPass(@"\m\upsilon")
  {
    FirstPassRows();
    SymbolPassByRows(@"\m\upsilon");
    SecondPassRows();
    SymbolPassByRows(@"\mu");
  }

  lemma FirstPassRows()
    ensures ReplaceEach(@"\m\upsilon", LowerGreekA()) == @"\m\upsilon"
    ensures ReplaceEach(@"\m\upsilon", LowerGreekB()) == @"\m\upsilon"
    ensures ReplaceEach(@"\m\upsilon", LowerGreekC()) == @"\mu"
    ensures ReplaceEach(@"\mu", UpperGreek()) == @"\mu"
    ensures ReplaceEach(@"\mu", OperatorsA()) == @"\mu"
    ensures ReplaceEach(@"\mu", OperatorsB()) == @"\mu"
  {
    UpsilonRowA();
    UpsilonRowB();
    UpsilonRowC();
    MuRowsIdle();
  }

  lemma SecondPassRows()
    ensures ReplaceEach(@"\mu", LowerGreekA()) == @"\mu"
    ensures ReplaceEach(@"\mu", LowerGreekB()) == "m"
    ensures ReplaceEach(ReplaceEach(ReplaceEach(ReplaceEach(
              "m", LowerGreekC()), UpperGreek()), OperatorsA()), OperatorsB()) == "m"
  {
    MuInitials();
    LowerGreekAWellFormed();
    ReplaceEachUntouched(@"\mu", LowerGreekA());
    MuRowB();
    LaterRowsIdle("m");
  }

  lemma UpsilonInitials()
    ensures Initials(@"\m\upsilon") == {'m', 'u'}
  {
    InitialsCommand('u', "psilon");
    NoBackslashNoInitials("psilon");
    InitialsCommand('m', @"\upsilon");
    assert ['\\', 'm'] + @"\upsilon" == @"\m\upsilon";
  }

  lemma MuInitials()
    ensures Initials(@"\mu") == {'m'}
  {
    InitialsCommand('m', "u");
    NoBackslashNoInitials("u");
  }

  lemma UpsilonRowA()
    ensures ReplaceEach(@"\m\upsilon", LowerGreekA()) == @"\m\upsilon"
  {
    UpsilonInitials();
    LowerGreekAWellFormed();
    ReplaceEachUntouched(@"\m\upsilon", LowerGreekA());
  }

  lemma UpsilonRowB()
    ensures ReplaceEach(@"\m\upsilon", LowerGreekB()) == @"\m\upsilon"
  {
    var s, t := @"\m\upsilon", LowerGreekB();
    assert t[3] == (@"\mu", "m");
    assert Initials(s) == {'m', 'u'} by {
      UpsilonInitials();
    }
    assert Untouched(s, t[..3]) by {
      forall i | 0 <= i < 3
        ensures t[..3][i].0[1] !in {'m', 'u'}
      {
        assert t[..3][i] == t[i];
      }
    }
    assert Untouched(s, t[4..]) by {
      forall i | 0 <= i < 4
        ensures t[4..][i].0[1] !in {'m', 'u'}
      {
        assert t[4..][i] == t[i + 4];
      }
    }
    assert ReplaceAll(s, t[3].0, t[3].1) == s by {
      MuAbsent();
    }
    LowerGreekBWellFormed();
    ReplaceEachOnly(s, t, 3);
  }

  lemma UpsilonRowC()
    ensures ReplaceEach(@"\m\upsilon", LowerGreekC()) == @"\mu"
  {
    UpsilonRowCBefore();
    UpsilonRowCAfter();
    UpsilonReplaced();
    LowerGreekCWellFormed();
    ReplaceEachOnly(@"\m\upsilon", LowerGreekC(), 2);
  }

  /** The rows before `\upsilon` leave `\m\upsilon` alone. */
  lemma UpsilonRowCBefore()
    ensures LowerGreekC()[2] == (@"\upsilon", "u")
    ensures Untouched(@"\m\upsilon", LowerGreekC()[..2])
  {
    var t := LowerGreekC();
    UpsilonInitials();
    assert t[0].0[1] == 's' && t[1].0[1] == 't';
    assert t[..2] == [t[0], t[1]];
  }

  /** The rows after `\upsilon` leave `\mu` alone. */
  lemma UpsilonRowCAfter()
    ensures Untouched(@"\mu", LowerGreekC()[3..])
  {
    var t := LowerGreekC();
    MuInitials();
    assert t[3].0[1] == 'p' && t[4].0[1] == 'c' && t[5].0[1] == 'p' && t[6].0[1] == 'o';
    assert t[3..] == [t[3], t[4], t[5], t[6]];
  }

  lemma MuRowsIdle()
    ensures ReplaceEach(@"\mu", UpperGreek()) == @"\mu"
    ensures ReplaceEach(@"\mu", OperatorsA()) == @"\mu"
    ensures ReplaceEach(@"\mu", OperatorsB()) == @"\mu"
  {
    MuUpper();
    MuOperatorsA();
    MuOperatorsB();
  }

  lemma MuUpper()
    ensures ReplaceEach(@"\mu", UpperGreek()) == @"\mu"
  {
    MuInitials();
    UpperGreekWellFormed();
    ReplaceEachUntouched(@"\mu", UpperGreek());
  }

  lemma MuOperatorsA()
    ensures ReplaceEach(@"\mu", OperatorsA()) == @"\mu"
  {
    MuInitials();
    OperatorsAWellFormed();
    MpAbsent();
    assert OperatorsA()[2] == (@"\mp", "-/+");
    ReplaceEachOnly(@"\mu", OperatorsA(), 2);
  }

  lemma MuOperatorsB()
    ensures ReplaceEach(@"\mu", OperatorsB()) == @"\mu"
  {
    MuInitials();
    OperatorsBWellFormed();
    ReplaceEachUntouched(@"\mu", OperatorsB());
  }

  lemma MuRowB()
    ensures ReplaceEach(@"\mu", LowerGreekB()) == "m"
  {
    MuInitials();
    LowerGreekBWellFormed();
    ReplaceAllHead(@"\mu", "", "m");
    assert @"\mu" + "" == @"\mu";
    NoBackslashNoInitials("m");
    assert LowerGreekB()[3] == (@"\mu", "m");
    ReplaceEachOnly(@"\mu", LowerGreekB(), 3);
  }

  /** `\m\upsilon` holds no `\mu`: the backslash after `m` breaks it. */
  lemma MuAbsent()
    ensures ReplaceAll(@"\m\upsilon", @"\mu", "m") == @"\m\upsilon"
  {
    MuAbsentIn(@"\m\upsilon");
  }

  /** A `\m` directly followed by another command holds no `\mu`. */
  lemma {:induction false} MuAbsentIn(s: string)
    requires |s| >= 4 && s[..3] == @"\m\" && s[3] != 'm' && s[3] != '\\' && '\\' !in s[4..]
    ensures ReplaceAll(s, @"\mu", "m") == s
  {
    var k := @"\mu";
    var t := s[2..];
    assert t == ['\\', s[3]] + s[4..];
    InitialsCommand(s[3], s[4..]);
    NoBackslashNoInitials(s[4..]);
    ReplaceAllUntouched(t, k, "m");
    assert s[1..] == [s[1]] + t;
    ReplaceAllSkip(s[1], t, k, "m");
    assert s == [s[0]] + s[1..];
    assert s[2] != k[2];
    ReplaceAllSkip(s[0], s[1..], k, "m");
  }

  lemma UpsilonReplaced()
    ensures ReplaceAll(@"\m\upsilon", @"\upsilon", "u") == @"\mu"
  {
    assert (['\\'] + @"m\upsilon")[1] != @"\upsilon"[1];
    ReplaceAllSkip('\\', @"m\upsilon", @"\upsilon", "u");
    assert ['\\'] + @"m\upsilon" == @"\m\upsilon";
    ReplaceAllSkip('m', @"\upsilon", @"\upsilon", "u");
    assert ['m'] + @"\upsilon" == @"m\upsilon";
    ReplaceAllHead(@"\upsilon", "", "u");
    assert @"\upsilon" + "" == @"\upsilon";
  }

  lemma MpAbsent()
    ensures ReplaceAll(@"\mu", @"\mp", "-/+") == @"\mu"
  {
    assert (['\\'] + "mu")[2] != @"\mp"[2];
    ReplaceAllSkip('\\', "mu", @"\mp", "-/+");
    assert ['\\'] + "mu" == @"\mu";
    NoBackslashNoInitials("mu");
    ReplaceAllUntouched("mu", @"\mp", "-/+");
  }

}
