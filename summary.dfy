/** weekly_summary and get_todays_pomodoro_count of task.py over the rows of
    the session log (count_pomodoro.csv held in memory). Dates are day numbers. */
module Summary {
  import opened Text

  /** One log row. A date that is missing or not an ISO date is None. A
      category or count that is None stands for a column absent from the
      header, where row.get gives its default; it does not stand for a short
      row, whose missing cells csv.DictReader fills with None and on which
      the source raises (that case is not modelled). */
  datatype LogRow = LogRow(date: Option<int>, category: Option<string>, pomodoros: Option<string>)

  /** The fixed category keys of by_category, in their order. */
  const Categories: seq<string> := ["study", "exam", "assignment", "reading", "other"]

  /** int(row.get("pomodoros", 0)), with a ValueError counted as 0. */
  function CountOf(r: LogRow): int {
    match r.pomodoros
    case None => 0
    case Some(s) => ParseInt(s).GetOr(0)
  }

  /** A count written in decimal reads back as itself, and a missing or
      unreadable count adds nothing. */
  lemma CountOfWritten(d: Option<int>, c: Option<string>, n: int)
    ensures CountOf(LogRow(d, c, Some(ShowInt(n)))) == n
    ensures CountOf(LogRow(d, c, None)) == 0
    ensures CountOf(LogRow(d, c, Some("one"))) == 0
    ensures CountOf(LogRow(d, c, Some("12\U{001C}"))) == 0
  {
    ParseShowInt(n);
    SeparatorsOnlyStripped();
    StripStripped("one");
    assert !IsDigit("one"[0]);
  }

  /** row.get("category", "other").strip().lower(), with anything outside the
      five keys folded into "other". */
  function CategoryOf(r: LogRow): (c: string)
    ensures c in Categories
    ensures c != "other" ==> c == Lower(Strip(r.category.GetOr("other")))
  {
    var c := Lower(Strip(r.category.GetOr("other")));
    if c in Categories then c else "other"
  }

  /** The category written by log_pomodoro is kept when it is one of the five
      keys and counts as "other" otherwise. */
  lemma CategoryOfKnown(c: string)
    requires c in Categories
    ensures CategoryOf(LogRow(None, Some(c), None)) == c
  {
    KeyLetters(c);
    assert !IsSpace(c[0]) && !IsSpace(c[|c| - 1]);
    StripStripped(c);
    LowerNoUpper(c);
  }

  /** The five keys are non-empty words of lower-case letters. */
  lemma KeyLetters(c: string)
    requires c in Categories
    ensures c != [] && forall i :: 0 <= i < |c| ==> 'a' <= c[i] <= 'z'
  {
  }

  lemma UnknownIsOther()
    ensures CategoryOf(LogRow(None, Some("Misc"), None)) == "other"
  {
    StripStripped("Misc");
    assert Lower("Misc") == "misc";
  }

  /** A row counted by the summary: dated within today - 6 .. today. */
  predicate InWeek(r: LogRow, today: int) {
    r.date.Some? && today - 6 <= r.date.value <= today
  }

  /** Sessions logged on day d. */
  function DayTotal(log: seq<LogRow>, d: int): int {
    if log == [] then 0
    else DayTotal(log[..|log| - 1], d) + (if log[|log| - 1].date == Some(d) then CountOf(log[|log| - 1]) else 0)
  }

  /** Sessions of category c logged in the week ending today. */
  function CategoryTotal(log: seq<LogRow>, today: int, c: string): int {
    if log == [] then 0
    else
      var r := log[|log| - 1];
      CategoryTotal(log[..|log| - 1], today, c) + (if InWeek(r, today) && CategoryOf(r) == c then CountOf(r) else 0)
  }

  /** Sessions logged in the week ending today. */
  function WeekTotal(log: seq<LogRow>, today: int): int {
    if log == [] then 0
    else
      var r := log[|log| - 1];
      WeekTotal(log[..|log| - 1], today) + (if InWeek(r, today) then CountOf(r) else 0)
  }

  /** DayTotal summed over the k days lo .. lo + k - 1. */
  function SumDays(log: seq<LogRow>, lo: int, k: nat): int {
    if k == 0 then 0 else SumDays(log, lo, k - 1) + DayTotal(log, lo + k - 1)
  }

  /** CategoryTotal summed over the five keys. */
  function SumCategories(log: seq<LogRow>, today: int): int {
    CategoryTotal(log, today, "study") + CategoryTotal(log, today, "exam")
    + CategoryTotal(log, today, "assignment") + CategoryTotal(log, today, "reading")
    + CategoryTotal(log, today, "other")
  }

  /** per_day after reading the rows of log: the seven days of the week,
      each holding the sessions logged that day. */
  ghost predicate DaysTallied(log: seq<LogRow>, today: int, perDay: map<int, int>) {
    (forall d :: d in perDay <==> today - 6 <= d <= today) &&
    (forall d :: d in perDay ==> perDay[d] == DayTotal(log, d))
  }

  /** by_category after reading the rows of log: the five keys, each holding
      the sessions of that category logged in the week. */
  ghost predicate CategoriesTallied(log: seq<LogRow>, today: int, byCategory: map<string, int>) {
    (forall c :: c in byCategory <==> c in Categories) &&
    (forall c :: c in byCategory ==> byCategory[c] == CategoryTotal(log, today, c))
  }

  ghost predicate Tallied(log: seq<LogRow>, today: int, perDay: map<int, int>, byCategory: map<string, int>) {
    DaysTallied(log, today, perDay) && CategoriesTallied(log, today, byCategory)
  }

  /** Reading one more row adds its count to its own day when that day is in
      the week, and leaves per_day alone otherwise. */
  lemma TallyDay(log: seq<LogRow>, r: LogRow, today: int, perDay: map<int, int>)
    requires DaysTallied(log, today, perDay)
    ensures InWeek(r, today) ==> DaysTallied(log + [r], today, perDay[r.date.value := perDay[r.date.value] + CountOf(r)])
    ensures !InWeek(r, today) ==> DaysTallied(log + [r], today, perDay)
  {
    assert (log + [r])[..|log|] == log;
  }

  /** Reading one more row adds its count to its own category when it is in
      the week, and leaves by_category alone otherwise. */
  lemma TallyCategory(log: seq<LogRow>, r: LogRow, today: int, byCategory: map<string, int>)
    requires CategoriesTallied(log, today, byCategory)
    ensures InWeek(r, today) ==> CategoriesTallied(log + [r], today, byCategory[CategoryOf(r) := byCategory[CategoryOf(r)] + CountOf(r)])
    ensures !InWeek(r, today) ==> CategoriesTallied(log + [r], today, byCategory)
  {
    var log' := log + [r];
    if InWeek(r, today) {
      var k := CategoryOf(r);
      var m := byCategory[k := byCategory[k] + CountOf(r)];
      assert m.Keys == byCategory.Keys;
      forall c | c in m ensures m[c] == CategoryTotal(log', today, c) {
        CategoryStep(log, r, today, c);
      }
    } else {
      forall c | c in byCategory ensures byCategory[c] == CategoryTotal(log', today, c) {
        CategoryStep(log, r, today, c);
      }
    }
  }

  lemma CategoryStep(log: seq<LogRow>, r: LogRow, today: int, c: string)
    ensures CategoryTotal(log + [r], today, c)
         == CategoryTotal(log, today, c) + (if InWeek(r, today) && CategoryOf(r) == c then CountOf(r) else 0)
  {
    assert (log + [r])[..|log|] == log;
  }

  datatype WeekSummary = WeekSummary(
    start: int,
    end: int,
    total: int,
    focusMinutes: int,
    perDay: map<int, int>,
    byCategory: map<string, int>)

  /** The dictionary weekly_summary returns: total is the sum of the per-day
      counts, and focus time is 25 minutes per session. */
  function SummaryOf(log: seq<LogRow>, today: int): WeekSummary {
    var total := SumDays(log, today - 6, 7);
    WeekSummary(today - 6, today, total, total * 25,
                map d | today - 6 <= d <= today :: DayTotal(log, d),
                map c | c in Categories :: CategoryTotal(log, today, c))
  }

  lemma {:induction false} SumDaysSnoc(log: seq<LogRow>, r: LogRow, lo: int, k: nat)
    ensures SumDays(log + [r], lo, k)
         == SumDays(log, lo, k) + (if r.date.Some? && lo <= r.date.value < lo + k then CountOf(r) else 0)
  {
    assert (log + [r])[..|log + [r]| - 1] == log;
    if k > 0 {
      SumDaysSnoc(log, r, lo, k - 1);
    }
  }

  /** Summing the seven per-day counts gives every row dated in the week
      exactly once. */
  lemma {:induction false} SumDaysIsWeekTotal(log: seq<LogRow>, today: int)
    ensures SumDays(log, today - 6, 7) == WeekTotal(log, today)
  {
    if log != [] {
      var pre := log[..|log| - 1];
      SumDaysIsWeekTotal(pre, today);
      SumDaysSnoc(pre, log[|log| - 1], today - 6, 7);
      assert pre + [log[|log| - 1]] == log;
    } else {
      SumDaysEmpty(today - 6, 7);
    }
  }

  lemma {:induction false} SumDaysEmpty(lo: int, k: nat)
    ensures SumDays([], lo, k) == 0
  {
    if k > 0 {
      SumDaysEmpty(lo, k - 1);
    }
  }

  /** Summing by_category gives the same week total: each counted row falls
      into exactly one of the five keys. */
  lemma {:induction false} SumCategoriesIsWeekTotal(log: seq<LogRow>, today: int)
    ensures SumCategories(log, today) == WeekTotal(log, today)
  {
    if log != [] {
      SumCategoriesIsWeekTotal(log[..|log| - 1], today);
      var c := CategoryOf(log[|log| - 1]);
      assert c == "study" || c == "exam" || c == "assignment" || c == "reading" || c == "other";
      assert "study"[0] == 's' && "exam"[0] == 'e' && "assignment"[0] == 'a' && "reading"[0] == 'r' && "other"[0] == 'o';
    }
  }

  /** The summary's invariants: the window is the seven days ending today,
      per_day has exactly those keys, by_category exactly the five keys, and
      total = sum of per_day = sum of by_category, focus = 25 * total. */
  lemma SummaryConsistent(log: seq<LogRow>, today: int)
    ensures var s := SummaryOf(log, today);
      s.start == today - 6 && s.end == today &&
      (forall d :: d in s.perDay <==> today - 6 <= d <= today) &&
      (forall c :: c in s.byCategory <==> c in Categories) &&
      s.total == WeekTotal(log, today) &&
      s.total == SumCategories(log, today) &&
      s.focusMinutes == 25 * s.total
  {
    SumDaysIsWeekTotal(log, today);
    SumCategoriesIsWeekTotal(log, today);
  }

  /** Rows dated outside the week, or with no readable date, change nothing. */
  lemma {:induction false} OutsideRowsIgnored(log: seq<LogRow>, r: LogRow, today: int)
    requires !InWeek(r, today)
    ensures SummaryOf(log + [r], today) == SummaryOf(log, today)
  {
    var log2 := log + [r];
    assert log2[..|log2| - 1] == log;
    SumDaysSnoc(log, r, today - 6, 7);
    var s1 := SummaryOf(log2, today);
    var s2 := SummaryOf(log, today);
    assert s1.perDay == s2.perDay;
    assert s1.byCategory == s2.byCategory;
  }
}
