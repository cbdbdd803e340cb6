/** Ordering of repositories into portfolio sections: the prioritised
    repositories first, in the order of the priority list, then every
    repository named in neither list, most-starred first. The three output
    writers order repositories with the same five lines, so one function
    models all three. */
module Repos {
  import opened Options

  datatype Repo = Repo(name: string, description: Option<string>, url: string, stars: int)

  /** The elements of `s` satisfying `p`, in their original order. */
  function Filter<T(!new)>(s: seq<T>, p: T -> bool): (r: seq<T>)
    ensures |r| <= |s|
    ensures forall x :: x in r <==> x in s && p(x)
    ensures forall x :: multiset(r)[x] == (if p(x) then multiset(s)[x] else 0)
  {
    if |s| == 0 then []
    else
      var rest := Filter(s[1..], p);
      assert s == [s[0]] + s[1..];
      if p(s[0]) then [s[0]] + rest else rest
  }

  /** The subsequence of `s` whose key is `k`: what a stable sort by `key`
      must leave in place. */
  function WithKey<T>(s: seq<T>, key: T -> int, k: int): seq<T> {
    if |s| == 0 then []
    else (if key(s[0]) == k then [s[0]] else []) + WithKey(s[1..], key, k)
  }

  ghost predicate SortedBy<T>(s: seq<T>, key: T -> int) {
    forall i, j :: 0 <= i < j < |s| ==> key(s[i]) <= key(s[j])
  }

  /** Inserts `x` in front of the first element whose key is not smaller. */
  function Insert<T>(x: T, s: seq<T>, key: T -> int): seq<T> {
    if |s| == 0 then [x]
    else if key(x) <= key(s[0]) then [x] + s
    else [s[0]] + Insert(x, s[1..], key)
  }

  lemma {:induction false} InsertMultiset<T>(x: T, s: seq<T>, key: T -> int)
    ensures multiset(Insert(x, s, key)) == multiset(s) + multiset{x}
  {
    if |s| > 0 && key(x) > key(s[0]) {
      InsertMultiset(x, s[1..], key);
      assert s == [s[0]] + s[1..];
    }
  }

  lemma {:induction false} InsertSorted<T>(x: T, s: seq<T>, key: T -> int)
    requires SortedBy(s, key)
    ensures SortedBy(Insert(x, s, key), key)
  {
    if |s| > 0 && key(x) > key(s[0]) {
      var rest := Insert(x, s[1..], key);
      InsertSorted(x, s[1..], key);
      InsertMultiset(x, s[1..], key);
      forall i | 0 <= i < |rest| ensures key(s[0]) <= key(rest[i]) {
        assert rest[i] in multiset(s[1..]) + multiset{x};
        if rest[i] != x {
          assert rest[i] in s[1..];
        }
      }
    }
  }

  lemma WithKeyCons<T>(y: T, t: seq<T>, key: T -> int, k: int)
    ensures WithKey([y] + t, key, k) == (if key(y) == k then [y] else []) + WithKey(t, key, k)
  {
    assert ([y] + t)[0] == y;
    assert ([y] + t)[1..] == t;
  }

  lemma {:induction false} InsertWithKey<T>(x: T, s: seq<T>, key: T -> int, k: int)
    ensures WithKey(Insert(x, s, key), key, k) == (if key(x) == k then [x] else []) + WithKey(s, key, k)
  {
    if |s| == 0 {
      WithKeyCons(x, s, key, k);
    } else if key(x) <= key(s[0]) {
      WithKeyCons(x, s, key, k);
    } else {
      var rest := Insert(x, s[1..], key);
      WithKeyCons(s[0], rest, key, k);
      InsertWithKey(x, s[1..], key, k);
      WithKeyCons(s[0], s[1..], key, k);
      assert [s[0]] + s[1..] == s;
    }
  }

  /** Python's `list.sort(key=key)`: a stable sort into non-decreasing key
      order. Sorted, a permutation of the input, and stable: the elements
      sharing any one key keep their input order. */
  function SortBy<T>(s: seq<T>, key: T -> int): (r: seq<T>)
    ensures multiset(r) == multiset(s)
    ensures |r| == |s|
    ensures SortedBy(r, key)
    ensures forall k :: WithKey(r, key, k) == WithKey(s, key, k)
  {
    if |s| == 0 then []
    else
      var rest := SortBy(s[1..], key);
      SortByStep(s, rest, key);
      Insert(s[0], rest, key)
  }

  lemma SortByStep<T>(s: seq<T>, rest: seq<T>, key: T -> int)
    requires |s| > 0
    requires multiset(rest) == multiset(s[1..])
    requires SortedBy(rest, key)
    requires forall k :: WithKey(rest, key, k) == WithKey(s[1..], key, k)
    ensures var r := Insert(s[0], rest, key);
      && multiset(r) == multiset(s)
      && |r| == |s|
      && SortedBy(r, key)
      && forall k :: WithKey(r, key, k) == WithKey(s, key, k)
  {
    var r := Insert(s[0], rest, key);
    InsertMultiset(s[0], rest, key);
    InsertSorted(s[0], rest, key);
    assert s == [s[0]] + s[1..];
    assert |r| == |multiset(r)|;
    forall k ensures WithKey(r, key, k) == WithKey(s, key, k) {
      InsertWithKey(s[0], rest, key, k);
    }
  }

  /** Python's `xs.index(x)`: the first position of `x`. */
  function IndexOf(xs: seq<string>, x: string): (i: nat)
    requires x in xs
    ensures i < |xs| && xs[i] == x
    ensures forall j :: 0 <= j < i ==> xs[j] != x
  {
    if xs[0] == x then 0 else 1 + IndexOf(xs[1..], x)
  }

  /** Sort key of a prioritised repository: the first position of its name
      in the priority list. */
  function PriorityKey(prioritize: seq<string>): Repo -> int {
    (r: Repo) => if r.name in prioritize then IndexOf(prioritize, r.name) else 0
  }

  /** Sort key for `sort(key=stars, reverse=True)`. Python keeps reversed sorts
      stable, which is the same as a stable ascending sort on the negated key. */
  function StarKey(r: Repo): int {
    -r.stars
  }

  /** The repositories whose name is in the priority list, in input order. */
  function Prioritized(repos: seq<Repo>, prioritize: seq<string>): seq<Repo> {
    Filter(repos, NamedIn(prioritize))
  }

  function NamedIn(names: seq<string>): Repo -> bool {
    (x: Repo) => x.name in names
  }

  function NamedInNeither(prioritize: seq<string>, exclude: seq<string>): Repo -> bool {
    (x: Repo) => x.name !in prioritize && x.name !in exclude
  }

  /** The repositories named in neither list, in input order. */
  function Others(repos: seq<Repo>, prioritize: seq<string>, exclude: seq<string>): seq<Repo> {
    Filter(repos, NamedInNeither(prioritize, exclude))
  }

  /** A repository the ordering keeps: prioritised, or not excluded. The
      exclusion list filters only the non-prioritised repositories. */
  predicate Kept(prioritize: seq<string>, exclude: seq<string>, r: Repo) {
    r.name in prioritize || r.name !in exclude
  }

  /** The ordering of `generate_pdf`, `generate_html` and `generate_md`. The
      result splits after the prioritised repositories:
      - the first part holds exactly the repositories whose name is in
        `prioritize`, ordered by the first position of that name, ties in
        input order;
      - the rest holds exactly the repositories named in neither list, in
        non-increasing star order, ties in input order;
      - nothing kept is dropped and nothing is duplicated. */
  function Order(repos: seq<Repo>, prioritize: seq<string>, exclude: seq<string>): (r: seq<Repo>)
    ensures var n := |Prioritized(repos, prioritize)|;
      && n <= |r|
      && (forall i :: 0 <= i < n ==> r[i].name in prioritize)
      && (forall i, j :: 0 <= i < j < n ==>
            IndexOf(prioritize, r[i].name) <= IndexOf(prioritize, r[j].name))
      && (forall k :: WithKey(r[..n], PriorityKey(prioritize), k)
                    == WithKey(Prioritized(repos, prioritize), PriorityKey(prioritize), k))
    ensures var n := |Prioritized(repos, prioritize)|;
      && (forall i :: n <= i < |r| ==> r[i].name !in prioritize && r[i].name !in exclude)
      && (forall i, j :: n <= i < j < |r| ==> r[i].stars >= r[j].stars)
      && (forall k :: WithKey(r[n..], StarKey, k) == WithKey(Others(repos, prioritize, exclude), StarKey, k))
    ensures multiset(r) == multiset(Filter(repos, (x: Repo) => Kept(prioritize, exclude, x)))
  {
    var prio := SortBy(Prioritized(repos, prioritize), PriorityKey(prioritize));
    var other := SortBy(Others(repos, prioritize, exclude), StarKey);
    OrderParts(repos, prioritize, exclude, prio, other);
    prio + other
  }

  lemma OrderParts(repos: seq<Repo>, prioritize: seq<string>, exclude: seq<string>,
                   prio: seq<Repo>, other: seq<Repo>)
    requires prio == SortBy(Prioritized(repos, prioritize), PriorityKey(prioritize))
    requires other == SortBy(Others(repos, prioritize, exclude), StarKey)
    ensures var r := prio + other;
      && (forall i :: 0 <= i < |prio| ==> r[i].name in prioritize)
      && (forall i, j :: 0 <= i < j < |prio| ==>
            IndexOf(prioritize, r[i].name) <= IndexOf(prioritize, r[j].name))
      && (forall i :: |prio| <= i < |r| ==> r[i].name !in prioritize && r[i].name !in exclude)
      && (forall i, j :: |prio| <= i < j < |r| ==> r[i].stars >= r[j].stars)
      && r[..|prio|] == prio && r[|prio|..] == other
      && multiset(r) == multiset(Filter(repos, (x: Repo) => Kept(prioritize, exclude, x)))
  {
    PrioritizedSorted(repos, prioritize, prio);
    OthersSorted(repos, prioritize, exclude, other);
    KeptSplits(repos, prioritize, exclude);
    var r := prio + other;
    assert r[..|prio|] == prio && r[|prio|..] == other;
  }

  lemma PrioritizedSorted(repos: seq<Repo>, prioritize: seq<string>, prio: seq<Repo>)
    requires prio == SortBy(Prioritized(repos, prioritize), PriorityKey(prioritize))
    ensures forall i :: 0 <= i < |prio| ==> prio[i].name in prioritize
    ensures forall i, j :: 0 <= i < j < |prio| ==>
              IndexOf(prioritize, prio[i].name) <= IndexOf(prioritize, prio[j].name)
  {
    var pkey := PriorityKey(prioritize);
    forall i | 0 <= i < |prio| ensures prio[i].name in prioritize {
      assert prio[i] in multiset(prio);
    }
    forall i, j | 0 <= i < j < |prio|
      ensures IndexOf(prioritize, prio[i].name) <= IndexOf(prioritize, prio[j].name)
    {
      assert pkey(prio[i]) <= pkey(prio[j]);
    }
  }

  lemma OthersSorted(repos: seq<Repo>, prioritize: seq<string>, exclude: seq<string>, other: seq<Repo>)
    requires other == SortBy(Others(repos, prioritize, exclude), StarKey)
    ensures forall i :: 0 <= i < |other| ==> other[i].name !in prioritize && other[i].name !in exclude
    ensures forall i, j :: 0 <= i < j < |other| ==> other[i].stars >= other[j].stars
  {
    forall i | 0 <= i < |other| ensures other[i].name !in prioritize && other[i].name !in exclude {
      assert other[i] in multiset(other);
    }
    forall i, j | 0 <= i < j < |other| ensures other[i].stars >= other[j].stars {
      assert StarKey(other[i]) <= StarKey(other[j]);
    }
  }

  /** The kept repositories are the prioritised ones and the others, as a
      multiset. */
  lemma KeptSplits(repos: seq<Repo>, prioritize: seq<string>, exclude: seq<string>)
    ensures multiset(Filter(repos, (x: Repo) => Kept(prioritize, exclude, x)))
         == multiset(Prioritized(repos, prioritize)) + multiset(Others(repos, prioritize, exclude))
  {
    var kept := Filter(repos, (x: Repo) => Kept(prioritize, exclude, x));
    var p := Prioritized(repos, prioritize);
    var o := Others(repos, prioritize, exclude);
    forall x ensures multiset(kept)[x] == (multiset(p) + multiset(o))[x] {
    }
  }

  /** A repository named in both lists is still in the result: the exclusion
      list is only consulted for repositories that are not prioritised. */
  lemma PrioritizedBeatsExcluded(repos: seq<Repo>, prioritize: seq<string>, exclude: seq<string>, x: Repo)
    requires x in repos && x.name in prioritize && x.name in exclude
    ensures x in Order(repos, prioritize, exclude)
  {
    var kept := Filter(repos, (y: Repo) => Kept(prioritize, exclude, y));
    assert x in kept;
    assert x in multiset(Order(repos, prioritize, exclude));
  }

  /** An excluded repository that is not prioritised is dropped. */
  lemma ExcludedDropped(repos: seq<Repo>, prioritize: seq<string>, exclude: seq<string>, x: Repo)
    requires x.name !in prioritize && x.name in exclude
    ensures x !in Order(repos, prioritize, exclude)
  {
    var kept := Filter(repos, (y: Repo) => Kept(prioritize, exclude, y));
    assert x !in multiset(kept);
  }

  lemma FilterCons<T(!new)>(y: T, t: seq<T>, p: T -> bool)
    ensures Filter([y] + t, p) == (if p(y) then [y] else []) + Filter(t, p)
  {
    assert ([y] + t)[0] == y && ([y] + t)[1..] == t;
  }

  /** Repositories A (5 stars), B (10), C (1) with C prioritised and B
      excluded come out as C, A. */
  lemma OrderExample()
    ensures Order([RepoA(), RepoB(), RepoC()], ["C"], ["B"]) == [RepoC(), RepoA()]
  {
    var a, b, c := RepoA(), RepoB(), RepoC();
    ExamplePrioritized();
    ExampleOthers();
    SortSingleton(c, PriorityKey(["C"]));
    SortSingleton(a, StarKey);
  }

  function RepoA(): Repo { Repo("A", None, "", 5) }
  function RepoB(): Repo { Repo("B", None, "", 10) }
  function RepoC(): Repo { Repo("C", None, "", 1) }

  lemma ExamplePrioritized()
    ensures Prioritized([RepoA(), RepoB(), RepoC()], ["C"]) == [RepoC()]
  {
    var a, b, c := RepoA(), RepoB(), RepoC();
    var inPrio := NamedIn(["C"]);
    assert [a, b, c] == [a] + [b, c];
    assert [b, c] == [b] + [c];
    assert [c] == [c] + [];
    assert !inPrio(a) && !inPrio(b) && inPrio(c);
    FilterCons(a, [b, c], inPrio);
    FilterCons(b, [c], inPrio);
    FilterCons(c, [], inPrio);
  }

  lemma ExampleOthers()
    ensures Others([RepoA(), RepoB(), RepoC()], ["C"], ["B"]) == [RepoA()]
  {
    var a, b, c := RepoA(), RepoB(), RepoC();
    var inOther := NamedInNeither(["C"], ["B"]);
    assert [a, b, c] == [a] + [b, c];
    assert [b, c] == [b] + [c];
    assert [c] == [c] + [];
    assert inOther(a) && !inOther(b) && !inOther(c);
    FilterCons(a, [b, c], inOther);
    FilterCons(b, [c], inOther);
    FilterCons(c, [], inOther);
  }

  lemma SortSingleton<T>(x: T, key: T -> int)
    ensures SortBy([x], key) == [x]
  {
    assert [x][1..] == [];
  }
}
