/** The contribution calendar's month labels: the calendar drops the first
    week GitHub returns, then walks the remaining weeks and writes a
    month's abbreviation above every non-empty week whose first day falls
    in a different month from the last label written. */
module Calendar {
  import opened Options
  import opened Text

  /** A day of the calendar: its ISO date and its cell colour. */
  datatype Day = Day(date: string, color: string)

  type Week = seq<Day>

  /** A month label: the index of the drawn week it sits above and the
      month (1 to 12) it names. */
  datatype Label = Label(week: nat, month: nat)

  /** `contrib["weeks"][1:]`: every week but the first, none of an empty
      list. */
  function DrawnWeeks(weeks: seq<Week>): (r: seq<Week>)
    ensures |r| == if |weeks| == 0 then 0 else |weeks| - 1
    ensures forall w :: 0 <= w < |r| ==> r[w] == weeks[w + 1]
  {
    if |weeks| == 0 then [] else weeks[1..]
  }

  function DigitValue(c: char): nat
    requires IsDigit(c)
  {
    c as nat - '0' as nat
  }

  /** Ten characters laid out as `YYYY-MM-DD`, all digits but the dashes. */
  predicate IsoShape(d: string) {
    |d| == 10 && d[4] == '-' && d[7] == '-' &&
    forall i :: 0 <= i < 10 && i != 4 && i != 7 ==> IsDigit(d[i])
  }

  function YearField(d: string): nat
    requires IsoShape(d)
  {
    1000 * DigitValue(d[0]) + 100 * DigitValue(d[1]) + 10 * DigitValue(d[2]) + DigitValue(d[3])
  }

  function MonthField(d: string): nat
    requires IsoShape(d)
  {
    10 * DigitValue(d[5]) + DigitValue(d[6])
  }

  function DayField(d: string): nat
    requires IsoShape(d)
  {
    10 * DigitValue(d[8]) + DigitValue(d[9])
  }

  /** The proleptic Gregorian leap year rule `datetime` uses. */
  predicate Leap(y: nat) {
    y % 4 == 0 && (y % 100 != 0 || y % 400 == 0)
  }

  /** The number of days in month `m` of year `y`. */
  function DaysInMonth(y: nat, m: nat): (n: nat)
    requires 1 <= m <= 12
    ensures 28 <= n <= 31
    ensures n == 29 <==> m == 2 && Leap(y)
  {
    if m == 2 then (if Leap(y) then 29 else 28)
    else if m == 4 || m == 6 || m == 9 || m == 11 then 30
    else 31
  }

  /** A `YYYY-MM-DD` date that `datetime.date.fromisoformat` accepts: the
      year is at least 1, the month between 1 and 12, and the day within
      its month, leap years counted. Any other text makes it raise. */
  predicate IsoDate(d: string) {
    IsoShape(d) && YearField(d) >= 1 &&
    1 <= MonthField(d) <= 12 && 1 <= DayField(d) <= DaysInMonth(YearField(d), MonthField(d))
  }

  /** The month of an ISO date. */
  function MonthOf(d: string): (m: nat)
    requires IsoDate(d)
    ensures 1 <= m <= 12
  {
    MonthField(d)
  }

  /** February 29 is a date exactly in leap years. */
  lemma LeapDayExamples()
    ensures IsoDate("2024-02-29") && MonthOf("2024-02-29") == 2
    ensures IsoDate("2000-02-29")
    ensures !IsoDate("2023-02-29") && !IsoDate("1900-02-29")
  {
    assert IsoShape("2024-02-29") && YearField("2024-02-29") == 2024;
    assert IsoShape("2000-02-29") && YearField("2000-02-29") == 2000;
    assert IsoShape("2023-02-29") && YearField("2023-02-29") == 2023;
    assert IsoShape("1900-02-29") && YearField("1900-02-29") == 1900;
  }

  /** The day must lie within its month. */
  lemma DayRangeExamples()
    ensures IsoDate("2023-12-31")
    ensures !IsoDate("2024-02-30") && !IsoDate("2024-04-31") && !IsoDate("2024-01-00")
  {
    assert IsoShape("2023-12-31") && DayField("2023-12-31") == 31;
    assert IsoShape("2024-02-30") && DayField("2024-02-30") == 30;
    assert IsoShape("2024-04-31") && DayField("2024-04-31") == 31;
    assert IsoShape("2024-01-00") && DayField("2024-01-00") == 0;
  }

  /** Year 0 and month 13 make `fromisoformat` raise. */
  lemma YearMonthRangeExamples()
    ensures !IsoDate("0000-01-01") && !IsoDate("2024-13-01")
  {
    assert IsoShape("0000-01-01") && YearField("0000-01-01") == 0;
    assert IsoShape("2024-13-01") && MonthField("2024-13-01") == 13;
  }

  /** `date.strftime("%b")` in the C locale. */
  function MonthName(m: nat): (s: string)
    requires 1 <= m <= 12
    ensures |s| == 3
  {
    ["Jan", "Feb", "Mar", "Apr", "May", "Jun", "Jul", "Aug", "Sep", "Oct", "Nov", "Dec"][m - 1]
  }

  /** The month an abbreviation names, 0 for any other text. */
  function MonthNumber(s: string): nat {
    if s == "Jan" then 1 else if s == "Feb" then 2 else if s == "Mar" then 3
    else if s == "Apr" then 4 else if s == "May" then 5 else if s == "Jun" then 6
    else if s == "Jul" then 7 else if s == "Aug" then 8 else if s == "Sep" then 9
    else if s == "Oct" then 10 else if s == "Nov" then 11 else if s == "Dec" then 12
    else 0
  }

  /** Every month's abbreviation reads back as that month. */
  lemma MonthNameRoundTrip(m: nat)
    requires 1 <= m <= 12
    ensures MonthNumber(MonthName(m)) == m
  {
    var names := ["Jan", "Feb", "Mar", "Apr", "May", "Jun", "Jul", "Aug", "Sep", "Oct", "Nov", "Dec"];
    assert MonthName(m) == names[m - 1];
  }

  /** Different months have different abbreviations, so comparing the
      abbreviations, as the program does, is comparing the months. */
  lemma MonthNamesDistinct(m: nat, n: nat)
    requires 1 <= m <= 12 && 1 <= n <= 12
    ensures MonthName(m) == MonthName(n) <==> m == n
  {
    MonthNameRoundTrip(m);
    MonthNameRoundTrip(n);
  }

  /** Every non-empty week starts with a date `fromisoformat` accepts.
      On any other date the program raises; the model takes such a
      calendar as outside its inputs. */
  predicate Dated(weeks: seq<Week>) {
    forall w :: 0 <= w < |weeks| && |weeks[w]| > 0 ==> IsoDate(weeks[w][0].date)
  }

  /** The month of a non-empty week: the month of its first day. */
  function FirstMonth(week: Week): nat
    requires |week| > 0 && IsoDate(week[0].date)
  {
    MonthOf(week[0].date)
  }

  /** The month of the last non-empty week before week `w`, if any. */
  function LastMonth(weeks: seq<Week>, w: nat): Option<nat>
    requires w <= |weeks| && Dated(weeks)
  {
    if w == 0 then None
    else if |weeks[w - 1]| > 0 then Some(FirstMonth(weeks[w - 1]))
    else LastMonth(weeks, w - 1)
  }

  /** Week `w` gets a label: it has days, and its month differs from that
      of the last non-empty week before it. */
  predicate LabelAt(weeks: seq<Week>, w: nat)
    requires w < |weeks| && Dated(weeks)
  {
    |weeks[w]| > 0 && LastMonth(weeks, w) != Some(FirstMonth(weeks[w]))
  }

  /** Every label sits above a week before `w` that `LabelAt` picks, and
      names that week's month. */
  predicate Sound(weeks: seq<Week>, w: nat, labels: seq<Label>)
    requires w <= |weeks| && Dated(weeks)
  {
    forall k :: 0 <= k < |labels| ==>
      labels[k].week < w && LabelAt(weeks, labels[k].week) &&
      labels[k].month == FirstMonth(weeks[labels[k].week])
  }

  /** Every week before `w` that `LabelAt` picks has its label. */
  predicate Complete(weeks: seq<Week>, w: nat, labels: seq<Label>)
    requires w <= |weeks| && Dated(weeks)
  {
    forall v :: 0 <= v < w && LabelAt(weeks, v) ==> Label(v, FirstMonth(weeks[v])) in labels
  }

  /** The labels are in week order. */
  predicate Increasing(labels: seq<Label>) {
    forall i, j :: 0 <= i < j < |labels| ==> labels[i].week < labels[j].week
  }

  /** No two labels in a row name the same month. */
  predicate Alternating(labels: seq<Label>) {
    forall k :: 0 < k < |labels| ==> labels[k - 1].month != labels[k].month
  }

  /** `labels` are the labels of the weeks before `w`, and the last names
      the month the loop carries over. */
  predicate LabelsUpTo(weeks: seq<Week>, w: nat, labels: seq<Label>)
    requires w <= |weeks| && Dated(weeks)
  {
    && Sound(weeks, w, labels)
    && Complete(weeks, w, labels)
    && Increasing(labels)
    && Alternating(labels)
    && (|labels| > 0 ==> LastMonth(weeks, w) == Some(labels[|labels| - 1].month))
  }

  /** The label loop over the drawn weeks, with `current_month` as an
      optional month. Its result holds the labels `LabelAt` picks, in week
      order, and no two labels in a row name the same month. */
  method MonthLabels(weeks: seq<Week>) returns (labels: seq<Label>)
    requires Dated(weeks)
    ensures forall k :: 0 <= k < |labels| ==>
      labels[k].week < |weeks| && LabelAt(weeks, labels[k].week) &&
      labels[k].month == FirstMonth(weeks[labels[k].week])
    ensures forall w :: 0 <= w < |weeks| && LabelAt(weeks, w) ==>
      Label(w, FirstMonth(weeks[w])) in labels
    ensures forall i, j :: 0 <= i < j < |labels| ==> labels[i].week < labels[j].week
    ensures forall k :: 0 < k < |labels| ==> labels[k - 1].month != labels[k].month
  {
    labels := [];
    var current: Option<nat> := None;
    var w := 0;
    while w < |weeks|
      invariant w <= |weeks|
      invariant current == LastMonth(weeks, w)
      invariant LabelsUpTo(weeks, w, labels)
    {
      labels, current := VisitWeek(weeks, w, labels, current);
      w := w + 1;
    }
    LabelsDone(weeks, labels);
  }

  /** One round of the label loop: a week with days whose month differs
      from `current_month` gets a label and becomes the current month. */
  method VisitWeek(weeks: seq<Week>, w: nat, labels: seq<Label>, current: Option<nat>)
    returns (next: seq<Label>, nextCurrent: Option<nat>)
    requires w < |weeks| && Dated(weeks)
    requires current == LastMonth(weeks, w) && LabelsUpTo(weeks, w, labels)
    ensures next == if LabelAt(weeks, w) then labels + [Label(w, FirstMonth(weeks[w]))] else labels
    ensures nextCurrent == LastMonth(weeks, w + 1)
    ensures LabelsUpTo(weeks, w + 1, next)
  {
    next, nextCurrent := labels, current;
    if |weeks[w]| > 0 {
      var month := MonthOf(weeks[w][0].date);
      if current != Some(month) {
        LabelStep(weeks, w, labels);
        next := labels + [Label(w, month)];
        nextCurrent := Some(month);
      } else {
        QuietStep(weeks, w, labels);
      }
    } else {
      QuietStep(weeks, w, labels);
    }
  }

  /** After the last week the loop invariant is the loop's promise. */
  lemma LabelsDone(weeks: seq<Week>, labels: seq<Label>)
    requires Dated(weeks) && LabelsUpTo(weeks, |weeks|, labels)
    ensures forall k :: 0 <= k < |labels| ==>
      labels[k].week < |weeks| && LabelAt(weeks, labels[k].week) &&
      labels[k].month == FirstMonth(weeks[labels[k].week])
    ensures forall w :: 0 <= w < |weeks| && LabelAt(weeks, w) ==>
      Label(w, FirstMonth(weeks[w])) in labels
    ensures Increasing(labels) && Alternating(labels)
  {
  }

  /** The labels of a calendar as drawn: the loop runs over every week
      but the first, and label `k` belongs to drawn week
      `labels[k].week`, which is week `labels[k].week + 1` of the
      calendar. The first week of the calendar is never labelled. */
  method CalendarLabels(weeks: seq<Week>) returns (labels: seq<Label>)
    requires Dated(weeks)
    ensures forall k :: 0 <= k < |labels| ==>
      labels[k].week + 1 < |weeks| && LabelAt(DrawnWeeks(weeks), labels[k].week) &&
      labels[k].month == FirstMonth(weeks[labels[k].week + 1])
    ensures forall w :: 1 <= w < |weeks| && LabelAt(DrawnWeeks(weeks), w - 1) ==>
      Label(w - 1, FirstMonth(weeks[w])) in labels
    ensures forall i, j :: 0 <= i < j < |labels| ==> labels[i].week < labels[j].week
    ensures forall k :: 0 < k < |labels| ==> labels[k - 1].month != labels[k].month
  {
    var drawn := DrawnWeeks(weeks);
    assert Dated(drawn) by {
      forall w | 0 <= w < |drawn| && |drawn[w]| > 0
        ensures IsoDate(drawn[w][0].date)
      {
        assert drawn[w] == weeks[w + 1];
      }
    }
    labels := MonthLabels(drawn);
    forall w | 1 <= w < |weeks| && LabelAt(drawn, w - 1)
      ensures Label(w - 1, FirstMonth(weeks[w])) in labels
    {
      assert drawn[w - 1] == weeks[w];
    }
  }

  /** A labelled week extends the labels by its own. */
  lemma LabelStep(weeks: seq<Week>, w: nat, labels: seq<Label>)
    requires w < |weeks| && Dated(weeks) && LabelsUpTo(weeks, w, labels)
    requires LabelAt(weeks, w)
    ensures LabelsUpTo(weeks, w + 1, labels + [Label(w, FirstMonth(weeks[w]))])
  {
    var next := labels + [Label(w, FirstMonth(weeks[w]))];
    SoundStep(weeks, w, labels);
    CompleteStep(weeks, w, labels);
    IncreasingStep(weeks, w, labels);
    AlternatingStep(weeks, w, labels);
    assert LastMonth(weeks, w + 1) == Some(next[|next| - 1].month);
  }

  lemma SoundStep(weeks: seq<Week>, w: nat, labels: seq<Label>)
    requires w < |weeks| && Dated(weeks) && Sound(weeks, w, labels) && LabelAt(weeks, w)
    ensures Sound(weeks, w + 1, labels + [Label(w, FirstMonth(weeks[w]))])
  {
    var next := labels + [Label(w, FirstMonth(weeks[w]))];
    forall k | 0 <= k < |next|
      ensures next[k].week < w + 1 && LabelAt(weeks, next[k].week)
      ensures next[k].month == FirstMonth(weeks[next[k].week])
    {
      if k < |labels| {
        assert next[k] == labels[k];
      }
    }
  }

  lemma CompleteStep(weeks: seq<Week>, w: nat, labels: seq<Label>)
    requires w < |weeks| && Dated(weeks) && Complete(weeks, w, labels) && LabelAt(weeks, w)
    ensures Complete(weeks, w + 1, labels + [Label(w, FirstMonth(weeks[w]))])
  {
    var next := labels + [Label(w, FirstMonth(weeks[w]))];
    forall v | 0 <= v < w + 1 && LabelAt(weeks, v)
      ensures Label(v, FirstMonth(weeks[v])) in next
    {
      if v < w {
        assert Label(v, FirstMonth(weeks[v])) in labels;
      } else {
        assert next[|labels|] == Label(w, FirstMonth(weeks[w]));
      }
    }
  }

  lemma IncreasingStep(weeks: seq<Week>, w: nat, labels: seq<Label>)
    requires w < |weeks| && Dated(weeks) && LabelAt(weeks, w) && Sound(weeks, w, labels) && Increasing(labels)
    ensures Increasing(labels + [Label(w, FirstMonth(weeks[w]))])
  {
    var next := labels + [Label(w, FirstMonth(weeks[w]))];
    forall i, j | 0 <= i < j < |next|
      ensures next[i].week < next[j].week
    {
      assert next[i] == labels[i];
    }
  }

  lemma AlternatingStep(weeks: seq<Week>, w: nat, labels: seq<Label>)
    requires w < |weeks| && Dated(weeks) && LabelAt(weeks, w) && Alternating(labels)
    requires |labels| > 0 ==> LastMonth(weeks, w) == Some(labels[|labels| - 1].month)
    ensures Alternating(labels + [Label(w, FirstMonth(weeks[w]))])
  {
    var next := labels + [Label(w, FirstMonth(weeks[w]))];
    forall k | 0 < k < |next|
      ensures next[k - 1].month != next[k].month
    {
      if k < |labels| {
        assert next[k - 1] == labels[k - 1] && next[k] == labels[k];
      } else {
        assert next[k - 1] == labels[|labels| - 1];
      }
    }
  }

  /** An unlabelled week leaves the labels as they are. */
  lemma QuietStep(weeks: seq<Week>, w: nat, labels: seq<Label>)
    requires w < |weeks| && Dated(weeks) && LabelsUpTo(weeks, w, labels)
    requires !LabelAt(weeks, w)
    ensures LabelsUpTo(weeks, w + 1, labels)
  {
  }

  /** The first non-empty week is always labelled. */
  lemma {:induction false} FirstWeekLabelled(weeks: seq<Week>, w: nat)
    requires w < |weeks| && Dated(weeks) && |weeks[w]| > 0
    requires forall v :: 0 <= v < w ==> |weeks[v]| == 0
    ensures LabelAt(weeks, w)
  {
    NoMonthBefore(weeks, w);
  }

  lemma {:induction false} NoMonthBefore(weeks: seq<Week>, w: nat)
    requires w <= |weeks| && Dated(weeks)
    requires forall v :: 0 <= v < w ==> |weeks[v]| == 0
    ensures LastMonth(weeks, w) == None
  {
    if w > 0 {
      NoMonthBefore(weeks, w - 1);
    }
  }

  /** Empty weeks are skipped: they neither get a label nor interrupt a
      run of weeks in the same month. */
  lemma EmptyWeekTransparent(weeks: seq<Week>, w: nat)
    requires w < |weeks| && Dated(weeks) && |weeks[w]| == 0
    ensures !LabelAt(weeks, w)
    ensures LastMonth(weeks, w + 1) == LastMonth(weeks, w)
  {
  }

  /** A week whose month matches the previous non-empty week's is never
      labelled, even when that earlier week lies in another year: `%b`
      names the month only. */
  lemma SameMonthUnlabelled(weeks: seq<Week>, v: nat, w: nat)
    requires v < w < |weeks| && Dated(weeks) && |weeks[v]| > 0 && |weeks[w]| > 0
    requires forall u :: v < u < w ==> |weeks[u]| == 0
    requires FirstMonth(weeks[v]) == FirstMonth(weeks[w])
    ensures !LabelAt(weeks, w)
  {
    LastMonthSkips(weeks, v, w);
  }

  /** The last month before `w` is that of the last non-empty week `v`
      when only empty weeks lie between. */
  lemma {:induction false} LastMonthSkips(weeks: seq<Week>, v: nat, w: nat)
    requires v < w <= |weeks| && Dated(weeks) && |weeks[v]| > 0
    requires forall u :: v < u < w ==> |weeks[u]| == 0
    ensures LastMonth(weeks, w) == Some(FirstMonth(weeks[v]))
  {
    if w - 1 > v {
      LastMonthSkips(weeks, v, w - 1);
    }
  }
}
