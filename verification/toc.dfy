/** The table of contents of the PDF portfolio: its entries, the page
    numbers it prints, the loop that guesses how many pages the table
    itself takes, and the links from entries to sections.

    The document is a title page, then the table of contents, then the
    content. The content is laid out once on its own to learn on which of
    its pages each section starts (`rel_pages`); the page numbers printed
    in the table are those pages shifted by the length of the front
    matter. Pagination itself is not modelled: the start pages and the
    number of pages a table with given numbers fills are parameters. */
module Toc {
  import opened Options
  import Repos

  const CalendarTitle: string := "Contribution Calendar"

  /** The title page in front of the table of contents. */
  const TitlePages: nat := 1

  /** 1 when the contribution calendar is the first section, else 0. */
  function Lead(contrib: bool): nat {
    if contrib then 1 else 0
  }

  /** `toc_entries`: the calendar first when there is one, then one entry
      per repository, in the given order. */
  function TocEntries(contrib: bool, repos: seq<Repos.Repo>): (r: seq<string>)
    ensures |r| == Lead(contrib) + |repos|
    ensures contrib ==> r[0] == CalendarTitle
    ensures forall j :: 0 <= j < |repos| ==> r[Lead(contrib) + j] == repos[j].name
  {
    (if contrib then [CalendarTitle] else []) + seq(|repos|, j requires 0 <= j < |repos| => repos[j].name)
  }

  /** The entries after the calendar name the repositories in the order
      the portfolio lists them, each one a repository of the account that
      is kept: prioritised, or not excluded. */
  lemma PortfolioEntries(contrib: bool, repos: seq<Repos.Repo>, prioritize: seq<string>, exclude: seq<string>)
    ensures var order := Repos.Order(repos, prioritize, exclude);
      var entries := TocEntries(contrib, order);
      forall j :: 0 <= j < |order| ==>
        order[j] in repos && Repos.Kept(prioritize, exclude, order[j]) &&
        entries[Lead(contrib) + j] == order[j].name
  {
    var order := Repos.Order(repos, prioritize, exclude);
    var kept := Repos.Filter(repos, (x: Repos.Repo) => Repos.Kept(prioritize, exclude, x));
    forall j | 0 <= j < |order|
      ensures order[j] in repos && Repos.Kept(prioritize, exclude, order[j])
    {
      assert order[j] in multiset(order);
      assert order[j] in multiset(kept);
      assert order[j] in kept;
    }
  }

  // ---------------------------------------------------------------------
  // Page numbers

  /** `abs_pages` as the program computes it: the content is assumed to
      start at page `1 + toc`, and a section on content page `r` is
      numbered `r + content_start - 1`. */
  function AbsPages(rel: seq<nat>, toc: nat): (r: seq<nat>)
    ensures |r| == |rel|
    ensures forall i :: 0 <= i < |rel| ==> r[i] == rel[i] + toc
  {
    var contentStart := 1 + toc;
    seq(|rel|, i requires 0 <= i < |rel| => rel[i] + contentStart - 1)
  }

  /** The page numbers the front matter actually implies: content starts
      after the title page and the `toc` pages of the table. */
  function CorrectedAbsPages(rel: seq<nat>, toc: nat): (r: seq<nat>)
    ensures |r| == |rel|
    ensures forall i :: 0 <= i < |rel| ==> r[i] == rel[i] + toc + 1
  {
    var contentStart := TitlePages + toc + 1;
    seq(|rel|, i requires 0 <= i < |rel| => rel[i] + contentStart - 1)
  }

  /** Where a section on content page `r` lands in the final document:
      the title page, `toc` pages of table, then the content from its
      first page on. */
  function FinalPage(r: nat, toc: nat): nat {
    TitlePages + toc + r
  }

  /** The pages the links of the final document point at, section by
      section. */
  function LinkTargets(rel: seq<nat>, toc: nat): (r: seq<nat>)
    ensures |r| == |rel|
    ensures forall i :: 0 <= i < |rel| ==> r[i] == FinalPage(rel[i], toc)
  {
    seq(|rel|, i requires 0 <= i < |rel| => FinalPage(rel[i], toc))
  }

  /** Every printed number is one less than the page its entry links to:
      the computation forgets the title page. */
  lemma PrintedOffByOne(rel: seq<nat>, toc: nat)
    ensures forall i :: 0 <= i < |rel| ==> AbsPages(rel, toc)[i] + 1 == LinkTargets(rel, toc)[i]
    ensures |rel| > 0 ==> AbsPages(rel, toc) != LinkTargets(rel, toc)
  {
    if |rel| > 0 {
      assert AbsPages(rel, toc)[0] != LinkTargets(rel, toc)[0];
    }
  }

  /** A calendar-less portfolio of one repository with a one-page table:
      the table prints 2 for a section that starts on page 3. */
  lemma OneRepoExample()
    ensures AbsPages([1], 1) == [2]
    ensures LinkTargets([1], 1) == [3]
  {
  }

  /** With the title page counted, the printed numbers are the link
      targets. */
  lemma CorrectedMatchesLinks(rel: seq<nat>, toc: nat)
    ensures CorrectedAbsPages(rel, toc) == LinkTargets(rel, toc)
  {
  }

  /** Which page numbers the table prints. */
  datatype Numbering = AsWritten | Corrected

  function Printed(n: Numbering, rel: seq<nat>, toc: nat): seq<nat> {
    match n
    case AsWritten => AbsPages(rel, toc)
    case Corrected => CorrectedAbsPages(rel, toc)
  }

  /** Either numbering keeps the order of the sections and moves every
      number by the same amount when the table grows by a page. */
  lemma PrintedShift(n: Numbering, rel: seq<nat>, toc: nat)
    ensures |Printed(n, rel, toc + 1)| == |Printed(n, rel, toc)| == |rel|
    ensures forall i :: 0 <= i < |rel| ==> Printed(n, rel, toc + 1)[i] == Printed(n, rel, toc)[i] + 1
    ensures forall i, j :: 0 <= i < j < |rel| && rel[i] <= rel[j] ==>
      Printed(n, rel, toc)[i] <= Printed(n, rel, toc)[j]
  {
  }

  // ---------------------------------------------------------------------
  // The fixed-point loop

  /** The number of pages a table printing `numbers` fills, as measured on
      the page count of a trial layout. */
  function Measured(n: Numbering, rel: seq<nat>, measure: seq<nat> -> nat, toc: nat): nat {
    measure(Printed(n, rel, toc))
  }

  /** The `while True` loop: lay the table out with the numbers for
      `assumed` pages, stop when it fills exactly that many, otherwise
      assume what it filled. The loop has no bound; `fuel` counts the
      rounds this model is willing to run, and `None` means they ran out. */
  function Reconcile(n: Numbering, rel: seq<nat>, measure: seq<nat> -> nat, assumed: nat, fuel: nat): (r: Option<nat>)
    ensures r.Some? ==> Measured(n, rel, measure, r.value) == r.value
    decreases fuel
  {
    if fuel == 0 then None
    else
      var actual := Measured(n, rel, measure, assumed);
      if actual == assumed then Some(assumed)
      else Reconcile(n, rel, measure, actual, fuel - 1)
  }

  /** `assumed_toc_pages = 1` to begin with. */
  function TocPages(n: Numbering, rel: seq<nat>, measure: seq<nat> -> nat, fuel: nat): (r: Option<nat>)
    ensures r.Some? ==> Measured(n, rel, measure, r.value) == r.value
  {
    Reconcile(n, rel, measure, 1, fuel)
  }

  /** More rounds never change an answer already found. */
  lemma {:induction false} MoreFuel(n: Numbering, rel: seq<nat>, measure: seq<nat> -> nat, assumed: nat, fuel: nat, more: nat)
    requires Reconcile(n, rel, measure, assumed, fuel).Some? && fuel <= more
    ensures Reconcile(n, rel, measure, assumed, more) == Reconcile(n, rel, measure, assumed, fuel)
    decreases fuel
  {
    var actual := Measured(n, rel, measure, assumed);
    if actual != assumed {
      MoreFuel(n, rel, measure, actual, fuel - 1, more - 1);
    }
  }

  /** When the table fills the same number of pages whatever numbers it
      prints, the loop stops by its second round with that number. */
  lemma ConstantMeasure(n: Numbering, rel: seq<nat>, measure: seq<nat> -> nat, c: nat)
    requires forall numbers :: measure(numbers) == c
    ensures TocPages(n, rel, measure, 2) == Some(c)
  {
    assert Measured(n, rel, measure, 1) == c;
    assert Measured(n, rel, measure, c) == c;
  }

  /** When a longer table never fills fewer pages and never more than
      `bound`, the loop stops: a page count at least the one assumed
      settles within `bound - assumed + 1` rounds. */
  lemma {:induction false} MonotoneConverges(n: Numbering, rel: seq<nat>, measure: seq<nat> -> nat, bound: nat, assumed: nat, fuel: nat)
    requires forall t, u :: t <= u ==> Measured(n, rel, measure, t) <= Measured(n, rel, measure, u)
    requires forall t :: Measured(n, rel, measure, t) <= bound
    requires assumed <= Measured(n, rel, measure, assumed)
    requires fuel + assumed > bound
    ensures Reconcile(n, rel, measure, assumed, fuel).Some?
    decreases fuel
  {
    var actual := Measured(n, rel, measure, assumed);
    if actual != assumed {
      assert Measured(n, rel, measure, assumed) <= Measured(n, rel, measure, actual);
      MonotoneConverges(n, rel, measure, bound, actual, fuel - 1);
    }
  }

  /** From the program's start of one page, `bound` rounds suffice under
      the same conditions, since every layout fills at least one page. */
  lemma MonotoneTocPages(n: Numbering, rel: seq<nat>, measure: seq<nat> -> nat, bound: nat)
    requires forall t, u :: t <= u ==> Measured(n, rel, measure, t) <= Measured(n, rel, measure, u)
    requires forall t :: 1 <= Measured(n, rel, measure, t) <= bound
    ensures TocPages(n, rel, measure, bound).Some?
  {
    MonotoneConverges(n, rel, measure, bound, 1, bound);
  }

  /** A page count that flips between one and two pages as the numbers
      change: with nothing to cap it, the loop runs forever. */
  function Flip(first: nat): seq<nat> -> nat {
    (numbers: seq<nat>) => if |numbers| > 0 && numbers[0] == first then 2 else 1
  }

  /** The program's loop has no round limit: for a layout whose page count
      flips, no number of rounds settles it. */
  lemma {:induction false} FlipNeverSettles(rel: seq<nat>, fuel: nat)
    requires |rel| > 0
    ensures TocPages(AsWritten, rel, Flip(rel[0] + 1), fuel) == None
  {
    FlipRounds(rel, fuel);
  }

  lemma {:induction false} FlipRounds(rel: seq<nat>, fuel: nat)
    requires |rel| > 0
    ensures Reconcile(AsWritten, rel, Flip(rel[0] + 1), 1, fuel) == None
    ensures Reconcile(AsWritten, rel, Flip(rel[0] + 1), 2, fuel) == None
    decreases fuel
  {
    var m := Flip(rel[0] + 1);
    if fuel > 0 {
      assert AbsPages(rel, 1)[0] == rel[0] + 1;
      assert AbsPages(rel, 2)[0] == rel[0] + 2;
      assert Measured(AsWritten, rel, m, 1) == 2;
      assert Measured(AsWritten, rel, m, 2) == 1;
      FlipRounds(rel, fuel - 1);
    }
  }

  // ---------------------------------------------------------------------
  // Links

  /** The section walk of the final document: `links[idx]` is bound to
      the page where the current section starts, the calendar first and
      then each repository, `idx` counting up. `calendarPage` and
      `repoPages` are those start pages. Entry `i` of the table is bound to
      the page of the section it names. */
  method BindLinks(contrib: bool, repos: seq<Repos.Repo>, calendarPage: nat, repoPages: seq<nat>)
    returns (targets: seq<nat>)
    requires |repoPages| == |repos|
    ensures |targets| == |TocEntries(contrib, repos)|
    ensures contrib ==> TocEntries(contrib, repos)[0] == CalendarTitle && targets[0] == calendarPage
    ensures forall j :: 0 <= j < |repos| ==>
      TocEntries(contrib, repos)[Lead(contrib) + j] == repos[j].name &&
      targets[Lead(contrib) + j] == repoPages[j]
  {
    targets := [];
    var idx := 0;
    if contrib {
      targets := targets + [calendarPage];
      idx := idx + 1;
    }
    for j := 0 to |repos|
      invariant idx == Lead(contrib) + j && |targets| == idx
      invariant contrib ==> targets[0] == calendarPage
      invariant forall k :: 0 <= k < j ==> targets[Lead(contrib) + k] == repoPages[k]
    {
      targets := targets + [repoPages[j]];
      idx := idx + 1;
    }
  }

  /** The links of the final document. The final document is laid out a
      second time, so the pages its sections land on, `final`, are a
      parameter: the links go to exactly those pages. When that layout
      puts every section where the content layout did, behind the title
      page and `toc` pages of table (`LinkTargets`), the links are the
      corrected numbers, and the program's numbers miss each by one. */
  method FinalLinks(contrib: bool, repos: seq<Repos.Repo>, rel: seq<nat>, toc: nat, final: seq<nat>)
    returns (targets: seq<nat>)
    requires |rel| == Lead(contrib) + |repos| && |final| == |rel|
    ensures targets == final
    ensures final == LinkTargets(rel, toc) ==>
      targets == CorrectedAbsPages(rel, toc) &&
      forall i :: 0 <= i < |rel| ==> targets[i] == AbsPages(rel, toc)[i] + 1
  {
    var lead := Lead(contrib);
    var calendarPage := if contrib then final[0] else 0;
    var repoPages := final[lead..];
    targets := BindLinks(contrib, repos, calendarPage, repoPages);
    assert forall i :: 0 <= i < |final| ==> targets[i] == final[i] by {
      forall i | 0 <= i < |final|
        ensures targets[i] == final[i]
      {
        if i >= lead {
          assert targets[lead + (i - lead)] == repoPages[i - lead];
        }
      }
    }
    CorrectedMatchesLinks(rel, toc);
    PrintedOffByOne(rel, toc);
  }
}
