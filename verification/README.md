# GitHub portfolio exporter: a Dafny model of its text processing

`export-github-as-portfolio.py` fetches a user's repositories and
contribution calendar from GitHub and writes a portfolio as a PDF, HTML
or Markdown document. This project models the deterministic string and
sequence processing behind the PDF output and proves properties of it:

- **Repos**: the order of the repository sections. Prioritised
  repositories come first, ordered by their position in `--prioritize`.
  Every repository named in neither list follows, by descending stars.
  Python's stable `list.sort` is modelled as a stable insertion sort.
- **Colors**: `hex_to_rgb`, which decodes the calendar's cell colours.
- **Latex**: the fallback branch of `latex_to_unicode`. It runs a
  symbol table through `str.replace`, then four `re.sub` rewrites for
  superscripts and subscripts, then `\frac`.
- **Inline**: `process_inline`. Three nested `re.split`s (math, code,
  bold) produce a sequence of styled runs instead of FPDF calls.
- **Readme**: `process_readme_line`, a state machine over the
  `(in_code_block, in_inline_code)` flags. It is threaded over
  `readme.split('\n')`. Each line yields one block: fence, code line,
  list item, heading or paragraph.
- **Calendar**: the month labels above the contribution calendar, after
  its first week is dropped.
- **Toc**: the table of contents. It covers the entry list, the page
  numbers it prints, the `while True` loop that guesses how many pages
  the table fills, and the binding of entries to section pages.
- **OutputPath**: the `--output` extension normalisation.
- **Text** and **Options** are shared helpers: Python's whitespace,
  `strip` and `startswith`, character counting, and an `Option`
  datatype.

The model follows the code in these places:

- **Math is split before code.** Math is split off before code.
  `` `x $g$ y` `` is therefore written as the plain text `` `x ``, then
  the math `g`, then the plain text `` y` `` (`Inline.MathBeforeCode`).
  One might expect the code span to win; the program splits math first,
  and so does the model.
- **The symbol pass is not idempotent.** `\m\upsilon` becomes `\mu` after
  one pass and `m` after a second (`Latex.SymbolPassNotIdempotent`).
  Replacement texts never add a backslash
  (`Latex.SymbolPassBackslashes`), but a replacement can complete a
  command with the text before it.
- **Calendar months are compared as numbers.** The program compares the
  `strftime("%b")` abbreviations. `Calendar.MonthNamesDistinct` shows
  that the two comparisons agree.
- **Regex match values.** A list item and a paragraph carry the text the
  program hands to `process_inline`. `Readme.InlineRuns` gives the runs
  that text produces. Math runs keep their TeX source, and
  `Latex.Fallback` renders it.

## Model

| member | source | states |
|---|---|---|
| Repos.Order | export-github-as-portfolio.py:188-192 | The result is the prioritised repositories followed by the others. The first part is ordered by first position in `prioritize`, ties in input order. The rest holds exactly the repositories named in neither list, with stars non-increasing and ties in input order. The result is a permutation of the kept repositories. |
| Repos.SortBy | export-github-as-portfolio.py:189-191 | `list.sort(key=…)` is a permutation of its input and sorted by key. It is stable: the repositories with any one key keep their input order. |
| Repos.Filter | export-github-as-portfolio.py:188-190 | A list comprehension keeps exactly the elements satisfying the condition, each with its multiplicity. |
| Repos.IndexOf | export-github-as-portfolio.py:189 | `prioritize.index(name)` is the first position holding the name. |
| Repos.PrioritizedSorted | export-github-as-portfolio.py:188-189 | Every repository in the sorted prioritised list is named in `prioritize`, and the list is ordered by first position in `prioritize`. |
| Repos.OthersSorted | export-github-as-portfolio.py:190-191 | The other repositories are named in neither list and come in non-increasing star order. |
| Repos.KeptSplits | export-github-as-portfolio.py:188-192 | The kept repositories, as a multiset, are the prioritised ones plus the others. |
| Repos.PrioritizedBeatsExcluded | export-github-as-portfolio.py:188-190 | A repository named in both `prioritize` and `exclude` is still in the order. |
| Repos.ExcludedDropped | export-github-as-portfolio.py:190 | An excluded repository that is not prioritised never appears. |
| Repos.OrderExample | export-github-as-portfolio.py:188-192 | Take A (5 stars), B (10) and C (1), with C prioritised and B excluded. The order is C, A. |
| Colors.HexToRgb | export-github-as-portfolio.py:70-72 | After all leading `#` are stripped, six hex digits give the three bytes `16·hi+lo`, each in 0..255. Fewer than five characters make Python raise: `None`. |
| Colors.StripHashes | export-github-as-portfolio.py:71 | `lstrip("#")` removes exactly the leading run of `#`: what is left is a suffix of the input and does not start with `#`. |
| Colors.Slice | export-github-as-portfolio.py:72 | A Python slice clips its end to the length of the string. |
| Colors.ParseField | export-github-as-portfolio.py:72 | `int(x, 16)` of an empty field raises. A parsed field of at most two characters lies between -15 and 255. |
| Colors.LeadingHashesIgnored | export-github-as-portfolio.py:71 | One more leading `#` never changes the colour. |
| Colors.TailIgnored | export-github-as-portfolio.py:72 | Characters after the sixth never change the colour. |
| Colors.ParseFormat | export-github-as-portfolio.py:70-72 | Formatting a colour as `#rrggbb` and parsing it back gives the colour. |
| Colors.FormatParse | export-github-as-portfolio.py:70-72 | Parsing `#` plus six lower-case hex digits and formatting the colour gives the text back. |
| Colors.EmptyCellColour | export-github-as-portfolio.py:70-72 | GitHub's `#ebedf0` decodes to (235, 237, 240). |
| Colors.ShortColours | export-github-as-portfolio.py:72 | With five digits the last field is a single digit, so `#12345` gives (18, 52, 5). `#1234` raises. |
| Latex.SymbolsWellFormed | export-github-as-portfolio.py:80-94 | Every key of the symbol table is a backslash command, and no replacement contains a backslash. |
| Latex.ReplaceEachAppend | export-github-as-portfolio.py:95-96 | Replacing with a table is replacing with its first rows, then with the rest, in insertion order. |
| Latex.ReplaceEachUntouched | export-github-as-portfolio.py:95-96 | A string in which no key's first letter follows a backslash is left alone by the symbol loop. |
| Latex.SymbolPassBackslashes | export-github-as-portfolio.py:80-96 | The symbol pass never adds a backslash, and it leaves a backslash-free string unchanged. |
| Latex.SymbolPassNotIdempotent | export-github-as-portfolio.py:80-96 | The symbol pass is not idempotent: `\m\upsilon` becomes `\mu`, then `m`. |
| Latex.BraceFreeRun | export-github-as-portfolio.py:102 | `[^{}]+` reaches exactly up to the first brace. |
| Latex.Group | export-github-as-portfolio.py:102 | `{([^{}]+)}` at the head matches a non-empty, brace-free group between two braces. |
| Latex.SingleScriptIdentity | export-github-as-portfolio.py:103-110 | The rewrites `^c → ^c` and `_c → _c` are the identity on every string. |
| Latex.FallbackEffective | export-github-as-portfolio.py:95-115 | The fallback is the symbol pass, then the braced superscript and subscript rewrites, then fractions. |
| Latex.ScriptBracesDropped | export-github-as-portfolio.py:102-109 | `^{x}` and `_{x}`, with `x` non-empty and brace-free, lose their braces. The text before is copied and the rewrite continues after. |
| Latex.ScriptGroupsNoClose | export-github-as-portfolio.py:102-109 | Without a closing brace the script rewrite changes nothing. |
| Latex.FracHead | export-github-as-portfolio.py:113 | `\frac{a}{b}`, with `a` and `b` non-empty and brace-free, becomes `a/b`. The rewrite continues after it. |
| Latex.FracsNoClose | export-github-as-portfolio.py:113 | Without a closing brace no fraction is rewritten. |
| Latex.FallbackPlain | export-github-as-portfolio.py:80-115 | A snippet with no backslash, `^` or `_` is returned unchanged. |
| Latex.FallbackUnknownCommand | export-github-as-portfolio.py:80-115 | Unknown commands and unmatched braces pass through: a snippet with no `}` and no table key comes back as is. |
| Latex.AlphaSquared | export-github-as-portfolio.py:80-110 | Symbols are replaced before scripts are rewritten, so `\alpha^{2}` renders as `a^2`. |
| Latex.FractionAfterScripts | export-github-as-portfolio.py:102-113 | Scripts are rewritten before fractions. `\frac{a^{x}}{b}` therefore renders as `a^x/b`, since the braces inside the numerator are gone by then. |
| Latex.NestedFraction | export-github-as-portfolio.py:113 | A nested fraction is resolved one level only. `\frac{\frac{a}{b}}{c}` renders as `\frac{a/b}{c}`. |
| Inline.Find | export-github-as-portfolio.py:162-170 | `[^d]+d` reaches the first `d`: the position holds `d` and no earlier one does. It is `None` exactly when `d` is absent. |
| Inline.StrongClose | export-github-as-portfolio.py:177 | The lazy `(.*?)\*\*` stops at the first `**`, with no newline before it. |
| Inline.MatchWraps | export-github-as-portfolio.py:162-177 | A match covers exactly its group between two delimiters. |
| Inline.SplitJoin | export-github-as-portfolio.py:162-177 | `re.split` loses nothing. Joining the even parts with the odd parts in their delimiters gives the text back. |
| Inline.SplitGroups | export-github-as-portfolio.py:162-177 | Every odd part is a captured group: put back between its delimiters, it is matched whole and gives itself back. |
| Inline.SplitGaps | export-github-as-portfolio.py:162-177 | No match starts anywhere inside an even part. |
| Inline.SplitQuiet | export-github-as-portfolio.py:162-177 | Text in which no match starts splits into itself alone. |
| Inline.LoneDelimiter | export-github-as-portfolio.py:162-170 | A single `$` or backtick opens no span. |
| Inline.KeepFilters | export-github-as-portfolio.py:178-184 | `if bpart:` writes exactly the runs that are not empty plain or empty bold runs. |
| Inline.KeepUnparse | export-github-as-portfolio.py:178-184 | Dropping the skipped runs keeps the text unless an empty bold run is dropped. In that case the text gets shorter. |
| Inline.SegmentsUnparse | export-github-as-portfolio.py:161-184 | Putting the delimiters back around all three levels' runs reproduces the line. |
| Inline.TokenizeUnparse | export-github-as-portfolio.py:161-184 | The written runs, with their delimiters put back, reproduce the line exactly when it has no empty bold span `****`. |
| Inline.TokensReadable | export-github-as-portfolio.py:161-184 | Every written run is non-empty. Math and code runs are free of their delimiter. Bold runs are single-line and hold no `**`. No span starts inside a plain run. |
| Inline.PlainLine | export-github-as-portfolio.py:161-184 | A line with no `$`, backtick or `*` is one plain run, and an empty line writes nothing. |
| Inline.EmptyBoldDropped | export-github-as-portfolio.py:177-184 | `x****y` splits around an empty bold span, and only `x` and `y` are written. |
| Inline.CodeHidesBold | export-github-as-portfolio.py:170-175 | A code span is written whole, with any `**` inside it as written. |
| Inline.MathBeforeCode | export-github-as-portfolio.py:162-175 | Math is split first. A `$…$` inside backticks is a math run, and the backticks stay in the plain text. |
| Inline.UnclosedMath | export-github-as-portfolio.py:162 | An unclosed `$` stays in the plain text. |
| Inline.SplitOneSpan | export-github-as-portfolio.py:162-170 | One complete span in otherwise delimiter-free text splits into the text before, the group, and the text after. |
| Readme.FenceIsStripped | export-github-as-portfolio.py:118 | The fence test is exactly `line.strip().startswith('```')`. |
| Readme.FenceToggles | export-github-as-portfolio.py:118-119 | A line that starts with three backticks after `strip()` draws nothing, flips the code-block flag and clears the inline flag, even inside a block. |
| Readme.CodeLineVerbatim | export-github-as-portfolio.py:118-124 | Inside a code block a line that does not start with three backticks after `strip()` is drawn verbatim, and the flags are kept. |
| Readme.ClassifyKinds | export-github-as-portfolio.py:117-159 | Only fences change the flags. A line is a fence exactly when it matches the fence test, and a code line exactly when it is no fence and a block is open. |
| Readme.MarginOfIndent | export-github-as-portfolio.py:126-156 | Outside code blocks every block sits at `10 + 2·indent`. |
| Readme.DrawCases | export-github-as-portfolio.py:129-159 | The bullet, numbered and heading patterns exclude one another. A line is a heading exactly when the heading pattern matches, and a paragraph exactly when none does. |
| Readme.BulletShape | export-github-as-portfolio.py:129 | `([-*+])\s+(.*)` matches exactly when a marker is followed by whitespace. The item text is what follows all of the whitespace. |
| Readme.BulletOf | export-github-as-portfolio.py:129-134 | A marker, whitespace and a text give back that text. |
| Readme.OrderedShape | export-github-as-portfolio.py:138 | `(\d+)\.\s+(.*)` matches exactly when a digit run, a dot and whitespace open the line. The label is the digits. |
| Readme.OrderedOf | export-github-as-portfolio.py:138-142 | Digits, a dot, whitespace and a text give back the digits and the text. |
| Readme.HeadingShape | export-github-as-portfolio.py:147 | `^(#{1,6})\s+(.*)` matches exactly when one to six hashes are followed by whitespace. The level is the number of hashes. |
| Readme.HeadingOf | export-github-as-portfolio.py:147-153 | `l` hashes, whitespace and a text give back level `l` and the text. |
| Readme.HeadingSizes | export-github-as-portfolio.py:149-150 | `max(16 - 2·level, 10)` is 14, 12, then 10 for every deeper level. |
| Readme.DeepHashesParagraph | export-github-as-portfolio.py:147-159 | Seven or more hashes make a paragraph, not a heading. |
| Readme.NestedBullet | export-github-as-portfolio.py:126-136 | A bullet indented by `n` spaces is a `*` item at `10 + 2n` carrying its text. |
| Readme.NumberedItem | export-github-as-portfolio.py:138-145 | `n. text` is an item labelled `n.` carrying its text. |
| Readme.UpToNewline | export-github-as-portfolio.py:129-147 | `(.*)` captures everything before the first newline. |
| Readme.ClassifyLines | export-github-as-portfolio.py:266-270 | The loop writes one block per line, and the inline flag is never set. |
| Readme.FinalState | export-github-as-portfolio.py:266-270 | The flags after the loop are the start flags with the code-block flag flipped once per fence. |
| Readme.BlockAt | export-github-as-portfolio.py:269-270 | The block for line `i` is what that line draws under the flags left by the lines before it. |
| Readme.CodeLineExactly | export-github-as-portfolio.py:117-270 | A line is drawn as code exactly when it is no fence and an odd number of fences precede it (from clear flags). |
| Readme.FencedBlock | export-github-as-portfolio.py:117-124 | A fenced block draws its two fences as nothing and every line between as code, and ends outside a block. |
| Readme.ClassifyLinesAppend | export-github-as-portfolio.py:269-270 | Running the loop over two stretches of lines is running it over the first, then the second from the flags left. |
| Readme.SplitLines | export-github-as-portfolio.py:266 | `split('\n')` gives at least one line, none holding a newline. |
| Readme.SplitJoin | export-github-as-portfolio.py:266 | Joining the lines with newlines gives the README back. |
| Readme.JoinSplit | export-github-as-portfolio.py:266 | Joining newline-free lines and splitting again gives the lines back. |
| Readme.SplitCount | export-github-as-portfolio.py:266 | There is one more line than there are newlines. |
| Readme.RenderReadme | export-github-as-portfolio.py:266-270 | A README draws one block per line, one more than its newlines. |
| Calendar.DrawnWeeks | export-github-as-portfolio.py:213 | `weeks[1:]` is every week but the first, and no weeks when there are none. |
| Calendar.MonthOf | export-github-as-portfolio.py:224 | A `YYYY-MM-DD` date that `fromisoformat` accepts (year at least 1, month 1 to 12, day within its month, leap years counted) has a month between 1 and 12. |
| Calendar.LeapDayExamples | export-github-as-portfolio.py:224 | February 29 is accepted in 2024 and 2000 and rejected in 2023 and 1900. |
| Calendar.DayRangeExamples | export-github-as-portfolio.py:224 | `2023-12-31` is accepted; `2024-02-30`, `2024-04-31` and `2024-01-00` are rejected. |
| Calendar.YearMonthRangeExamples | export-github-as-portfolio.py:224 | `0000-01-01` and `2024-13-01` are rejected. |
| Calendar.MonthNameRoundTrip | export-github-as-portfolio.py:225 | Every month's `%b` abbreviation reads back as that month. |
| Calendar.MonthNamesDistinct | export-github-as-portfolio.py:225-226 | Two months have the same abbreviation exactly when they are the same month. |
| Calendar.CalendarLabels | export-github-as-portfolio.py:213-229 | Run over `weeks[1:]`, the labels name weeks 1 onwards of the calendar, each with its own month; every week the loop labels is there, in order, with no two in a row naming the same month. The first week is never labelled. |
| Calendar.MonthLabels | export-github-as-portfolio.py:217-229 | The labels are exactly the non-empty weeks whose month differs from the last label, each naming its week's month. They come in week order, and no two in a row name the same month. |
| Calendar.VisitWeek | export-github-as-portfolio.py:222-229 | One round of the loop labels a week exactly when it has days and its month differs from that of the last non-empty week before it. It carries that month on and keeps the loop invariant. |
| Calendar.LabelStep | export-github-as-portfolio.py:226-229 | A labelled week extends the labels by its own and keeps the loop invariant. |
| Calendar.QuietStep | export-github-as-portfolio.py:222-226 | An unlabelled week keeps the labels and the loop invariant. |
| Calendar.FirstWeekLabelled | export-github-as-portfolio.py:217-229 | The first non-empty week is always labelled. |
| Calendar.EmptyWeekTransparent | export-github-as-portfolio.py:222 | An empty week gets no label and does not change the last month. |
| Calendar.SameMonthUnlabelled | export-github-as-portfolio.py:226 | A week in the same month as the previous non-empty week gets no label. |
| Calendar.LastMonthSkips | export-github-as-portfolio.py:217-229 | The last month seen is that of the last non-empty week, whatever empty weeks follow it. |
| Toc.TocEntries | export-github-as-portfolio.py:194-198 | The calendar entry comes first when there is a calendar, then one entry per repository, in order, named after it. |
| Toc.PortfolioEntries | export-github-as-portfolio.py:188-198 | Each entry after the calendar names a kept repository of the account, in portfolio order. |
| Toc.AbsPages | export-github-as-portfolio.py:276-277 | There is one printed number per section, in section order: section `i` starting on content page `rel[i]` is printed as `rel[i] + T` for a table of `T` pages. |
| Toc.PrintedOffByOne | export-github-as-portfolio.py:276-277 | Each printed number is one less than the page its entry links to, so the printed numbers never match the links. |
| Toc.OneRepoExample | export-github-as-portfolio.py:276-277 | Take one repository, no calendar and a one-page table. The entry prints 2 but its section is on page 3. |
| Toc.CorrectedMatchesLinks | export-github-as-portfolio.py:300-325 | Counting the title page, the printed numbers are the link targets. |
| Toc.PrintedShift | export-github-as-portfolio.py:276-277 | One more table page moves every printed number up by one and keeps their order. |
| Toc.Reconcile | export-github-as-portfolio.py:274-297 | When the loop stops, the table fills exactly the number of pages it was laid out for. |
| Toc.TocPages | export-github-as-portfolio.py:274-297 | Starting from one assumed page, a result is always a fixed point of the page count. |
| Toc.MoreFuel | export-github-as-portfolio.py:275-297 | Running more rounds never changes a result already found. |
| Toc.ConstantMeasure | export-github-as-portfolio.py:274-297 | If the page count does not depend on the numbers, the loop stops within two rounds at that count. |
| Toc.MonotoneTocPages | export-github-as-portfolio.py:274-297 | If the page count is monotone in the assumed count and bounded by `b`, the loop stops within `b` rounds. |
| Toc.FlipNeverSettles | export-github-as-portfolio.py:275-297 | The loop has no round limit. A page count that flips between one and two pages never stops it. |
| Toc.BindLinks | export-github-as-portfolio.py:326-372 | Walking the sections with `idx` binds each entry's link to the page of the section it names: the calendar first, then each repository. |
| Toc.FinalLinks | export-github-as-portfolio.py:300-372 | Each link goes to the page its section starts on in the final layout. When that layout matches the content layout behind the title page and `T` table pages, the links are the corrected numbers, one more than each printed number. |
| OutputPath.Normalise | export-github-as-portfolio.py:469-480 | The extension is appended exactly when the path lacks it. The result keeps the path as a prefix and ends with the extension. |
| OutputPath.NormaliseIdempotent | export-github-as-portfolio.py:470-480 | Normalising twice is normalising once. |
| OutputPath.DefaultNameOtherFormat | export-github-as-portfolio.py:459-480 | The default `portfolio.pdf` keeps its `.pdf` when another format is chosen, for example `portfolio.pdf.html`. |
| Text.LStrip | export-github-as-portfolio.py:126-127 | `lstrip()` removes exactly the leading whitespace, and the indent is the number of characters removed. |

## Left out

- HTTP fetching (`fetch_repos`, `fetch_readme`, `fetch_contributions`, lines 18-68) is network I/O. The README text, the repositories and the calendar weeks are inputs.
- The sympy path of `latex_to_unicode` (lines 75-77) calls a foreign parser whose output cannot be specified. The model is the fallback branch, taken whenever parsing fails.
- FPDF drawing, fonts and automatic page breaks are left out. Pages where sections start, and the number of pages a table fills, are parameters (`rel`, `measure`).
- Float geometry is left out: calendar coordinates and day squares (lines 211-244), dot-leader widths (lines 286-290, 318-319) and heading line height (line 153).
- The calendar's day squares are not modelled. They only call `hex_to_rgb`, which is modelled, on every day's colour.
- The HTML and Markdown writers (lines 399-453) are plain string formatting written to a file.
- The argparse wiring and the final `print` (lines 455-467, 482) are left out. The extension rule of lines 469-480 is modelled.
- Calendar.IsoDate: `datetime.date.fromisoformat` is modelled only for `YYYY-MM-DD` dates; the other forms newer Pythons accept are not. On a date it rejects, the program raises at line 224; the model does not model that error and takes only calendars whose dates are valid (`Calendar.Dated`).
- `strftime("%b")` is modelled in the C locale.
- Regex `\d` and `\s` are modelled with ASCII digits and Python's whitespace set. Other Unicode digits are not.
- Toc.Reconcile: the program's loop has no bound. The model runs it for `fuel` rounds and returns `None` when they run out. `MonotoneTocPages` and `ConstantMeasure` give fuel that suffices, and `FlipNeverSettles` gives a layout for which no fuel does.
- Toc.FinalLinks: the final document is laid out a second time, and every README is fetched again for it (line 385). The link claims about the printed numbers, and the Findings row, hold under the premise that this layout puts each section on page `1 + T + rel`: the README texts are the same as in the first fetch (line 261) and the final table fills exactly the `T` pages the loop settled on. The model does not check that premise, since pagination is not modelled.
- Colors.ParseField: `int(x, 16)` also skips non-ASCII whitespace and accepts non-ASCII decimal digits. The model accepts only ASCII whitespace and ASCII hex digits, so such a field counts as failing.

## Findings

| source | as written | input that shows it | evidently intended | confidence | as-written member | corrected member |
|---|---|---|---|---|---|---|
| export-github-as-portfolio.py:276-277 | `abs_pages = rel + (1 + T) - 1`, so content is assumed to start right after `T` table pages. The final document also has a title page before the table (lines 302, 307, 325). | No calendar, one repository on content page 1, a one-page table (`rel = [1]`, `T = 1`). The entry prints 2, while its link points at page 3, given a final layout that matches the content layout (see `Toc.FinalLinks` under Left out). | Content starts at `T + 2`, so each printed number should equal the link target, `rel + T + 1`. | not executed | Toc.PrintedOffByOne | Toc.CorrectedMatchesLinks |
