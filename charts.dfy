/** The arithmetic of weekly_charts_paged in visualization.py: the per-day
    values and their running total taken from the weekly summary, the
    category values, and the page cursor moved by N and P over three pages.
    Drawing is not modelled. */
module Charts {
  import opened Text
  import opened Summary

  /** The number of dashboard pages. */
  const Pages: int := 3

  function Sum(v: seq<int>): int {
    if v == [] then 0 else Sum(v[..|v| - 1]) + v[|v| - 1]
  }

  /** `for v in values: running += v; cumulative.append(running)`. */
  method Cumulative(values: seq<int>) returns (cumulative: seq<int>)
    ensures |cumulative| == |values|
    ensures forall i :: 0 <= i < |values| ==> cumulative[i] == Sum(values[..i + 1])
  {
    cumulative := [];
    var running := 0;
    for i := 0 to |values|
      invariant |cumulative| == i
      invariant running == Sum(values[..i])
      invariant forall k :: 0 <= k < i ==> cumulative[k] == Sum(values[..k + 1])
    {
      assert values[..i + 1][..i] == values[..i];
      running := running + values[i];
      cumulative := cumulative + [running];
    }
  }

  /** Read as the line drawn by Cumulative: the first point is the first
      value, each later point is the one before plus the value of its own
      day, and the last point is the sum of all the values. */
  lemma RunningTotal(values: seq<int>, cumulative: seq<int>)
    requires |cumulative| == |values| > 0
    requires forall i :: 0 <= i < |values| ==> cumulative[i] == Sum(values[..i + 1])
    ensures cumulative[0] == values[0]
    ensures forall i :: 0 < i < |values| ==> cumulative[i] == cumulative[i - 1] + values[i]
    ensures cumulative[|values| - 1] == Sum(values)
  {
    assert values[..1][..0] == [];
    assert Sum(values[..1]) == values[0];
    forall i | 0 < i < |values|
      ensures cumulative[i] == cumulative[i - 1] + values[i]
    {
      assert values[..i + 1][..i] == values[..i];
    }
    assert values[..|values|] == values;
  }

  /** With no negative value the running total never falls. */
  lemma {:induction false} RunningTotalRises(values: seq<int>, i: nat, j: nat)
    requires forall k :: 0 <= k < |values| ==> values[k] >= 0
    requires i <= j <= |values|
    ensures Sum(values[..i]) <= Sum(values[..j])
    decreases j
  {
    if i < j {
      RunningTotalRises(values, i, j - 1);
      assert values[..j][..j - 1] == values[..j - 1];
    }
  }

  /** `values = [int(per_day[d]) for d in days]`, the days in the order the
      summary inserted them: start, start + 1, ..., start + 6. */
  function DayValues(s: WeekSummary): seq<int>
    requires forall d :: s.start <= d < s.start + 7 ==> d in s.perDay
  {
    seq(7, i requires 0 <= i < 7 => s.perDay[s.start + i])
  }

  /** `by_cat_ordered`: the five categories in their fixed order, a missing
      key counting 0. */
  function CategoryValues(s: WeekSummary): seq<int> {
    seq(|Categories|, i requires 0 <= i < |Categories| =>
      if Categories[i] in s.byCategory then s.byCategory[Categories[i]] else 0)
  }

  /** For the summary of a log, bar i of the per-day chart is the number of
      sessions logged on day today - 6 + i. */
  lemma DayValuesOfLog(log: seq<LogRow>, today: int)
    ensures var v := DayValues(SummaryOf(log, today));
      |v| == 7 && forall i :: 0 <= i < 7 ==> v[i] == DayTotal(log, today - 6 + i)
  {
  }

  /** For the summary of a log, bar i of the category chart is the number
      of sessions of the i-th category logged in the week. */
  lemma CategoryValuesOfLog(log: seq<LogRow>, today: int)
    ensures var v := CategoryValues(SummaryOf(log, today));
      |v| == 5 && forall i :: 0 <= i < 5 ==> v[i] == CategoryTotal(log, today, Categories[i])
  {
  }

  lemma {:induction false} SumOfDays(log: seq<LogRow>, lo: int, k: nat)
    ensures Sum(seq(k, i requires 0 <= i < k => DayTotal(log, lo + i))) == SumDays(log, lo, k)
  {
    if k > 0 {
      SumOfDays(log, lo, k - 1);
      var v := seq(k, i requires 0 <= i < k => DayTotal(log, lo + i));
      assert v[..k - 1] == seq(k - 1, i requires 0 <= i < k - 1 => DayTotal(log, lo + i));
    }
  }

  /** For the summary of a log, the cumulative chart ends at the week's
      total, and the bars of the category chart add up to the same total. */
  lemma ChartsMatchSummary(log: seq<LogRow>, today: int)
    ensures var s := SummaryOf(log, today);
      Sum(DayValues(s)) == s.total && Sum(CategoryValues(s)) == s.total
  {
    DayChartTotal(log, today);
    CategoryChartTotal(log, today);
  }

  lemma DayChartTotal(log: seq<LogRow>, today: int)
    ensures Sum(DayValues(SummaryOf(log, today))) == SummaryOf(log, today).total
  {
    var s := SummaryOf(log, today);
    assert DayValues(s) == seq(7, i requires 0 <= i < 7 => DayTotal(log, today - 6 + i));
    SumOfDays(log, today - 6, 7);
  }

  lemma CategoryChartTotal(log: seq<LogRow>, today: int)
    ensures Sum(CategoryValues(SummaryOf(log, today))) == SummaryOf(log, today).total
  {
    var s := SummaryOf(log, today);
    SummaryConsistent(log, today);
    var c := CategoryValues(s);
    assert Categories[0] == "study" && Categories[1] == "exam" && Categories[2] == "assignment";
    assert Categories[3] == "reading" && Categories[4] == "other";
    SumFive(c);
  }

  lemma SumFive(c: seq<int>)
    requires |c| == 5
    ensures Sum(c) == c[0] + c[1] + c[2] + c[3] + c[4]
  {
    assert c[..1][..0] == [];
    assert Sum(c[..1]) == c[0];
    assert c[..2][..1] == c[..1];
    assert Sum(c[..2]) == c[0] + c[1];
    assert c[..3][..2] == c[..2];
    assert Sum(c[..3]) == c[0] + c[1] + c[2];
    assert c[..4][..3] == c[..3];
    assert Sum(c[..4]) == c[0] + c[1] + c[2] + c[3];
    assert c[..4] == c[..|c| - 1];
  }

  /** The pie of page 3 is drawn exactly when the week has a session. */
  lemma PieDrawnIffSessions(log: seq<LogRow>, today: int)
    ensures Sum(CategoryValues(SummaryOf(log, today))) > 0 <==> WeekTotal(log, today) > 0
  {
    ChartsMatchSummary(log, today);
    SummaryConsistent(log, today);
  }

  /** N: `(page + 1) % pages`. */
  function NextPage(page: int): (r: int)
    ensures 0 <= r < Pages
  {
    (page + 1) % Pages
  }

  /** P: `(page - 1) % pages`; Python's % with a positive divisor is never
      negative, as Dafny's is, so page 0 goes back to page 2. */
  function PrevPage(page: int): (r: int)
    ensures 0 <= r < Pages
  {
    (page - 1) % Pages
  }

  /** N and P undo each other on every page, and P wraps from the first
      page to the last. */
  lemma PagesInverse(page: int)
    requires 0 <= page < Pages
    ensures PrevPage(NextPage(page)) == page
    ensures NextPage(PrevPage(page)) == page
    ensures PrevPage(0) == Pages - 1 && NextPage(Pages - 1) == 0
  {
  }

  /** The commands the loop tells apart. */
  datatype Key = Next | Prev | Quit | Other

  /** `input(...).strip().lower()` compared with "n", "p" and "q". */
  function KeyOf(line: string): Key {
    var c := Lower(Strip(line));
    if c == "n" then Next else if c == "p" then Prev else if c == "q" then Quit else Other
  }

  /** Surrounding whitespace never changes the command a line gives. */
  lemma KeyOfStrip(line: string)
    ensures KeyOf(Strip(line)) == KeyOf(line)
  {
    StripTwice(line);
  }

  /** Commands are read after strip and lower: " N " is Next. */
  lemma NextIgnoresCaseAndSpace()
    ensures KeyOf(" N ") == Next
  {
    assert SkipSpaces(" N ", 0, StrBlanks) == 1;
    assert BackSpaces(" N ", 3, StrBlanks) == 2;
    assert Strip(" N ") == " N "[1..2];
  }

  /** "Q" with its line feed is Quit. */
  lemma QuitWithNewline()
    ensures KeyOf("Q\n") == Quit
  {
    assert SkipSpaces("Q\n", 0, StrBlanks) == 0;
    assert BackSpaces("Q\n", 2, StrBlanks) == 1;
    assert Strip("Q\n") == "Q\n"[0..1] == "Q";
    assert Lower("Q") == "q";
  }

  /** A whole word is not a command: "next" only prints a message. */
  lemma WordIsNoCommand()
    ensures KeyOf("next") == Other
  {
    StripStripped("next");
    assert Lower("next") == "next";
  }

  function KeysOf(lines: seq<string>): seq<Key> {
    seq(|lines|, k requires 0 <= k < |lines| => KeyOf(lines[k]))
  }

  /** The move a command makes: +1 for N, -1 for P, none for anything else;
      Invalid input only prints a message. */
  function Move(key: Key): int {
    match key
    case Next => 1
    case Prev => -1
    case _ => 0
  }

  /** The net moves of the commands before the first Q; each command moves
      by at most one page. */
  function Moves(keys: seq<Key>): (m: int)
    ensures -|keys| <= m <= |keys|
  {
    if keys == [] then 0
    else if keys[0] == Quit then 0
    else Move(keys[0]) + Moves(keys[1..])
  }

  /** Reading one more command that is not Q adds its move. */
  lemma {:induction false} MovesSnoc(keys: seq<Key>, i: nat)
    requires i < |keys| && Quit !in keys[..i + 1]
    ensures Moves(keys[..i + 1]) == Moves(keys[..i]) + Move(keys[i])
  {
    var t := keys[..i + 1];
    assert t[0] == keys[0];
    if i > 0 {
      var rest := keys[1..];
      assert t[1..] == rest[..i];
      assert keys[..i][1..] == rest[..i - 1];
      assert keys[..i][0] == keys[0];
      assert Quit !in rest[..i] by {
        assert rest[..i] == t[1..];
      }
      MovesSnoc(rest, i - 1);
      assert rest[i - 1] == keys[i];
    } else {
      assert t[1..] == [];
    }
  }

  /** A Q ends the loop: the commands after it change nothing. */
  lemma {:induction false} MovesStopAtQuit(keys: seq<Key>, i: nat)
    requires i < |keys| && Quit !in keys[..i] && keys[i] == Quit
    ensures Moves(keys) == Moves(keys[..i])
  {
    if i > 0 {
      var rest := keys[1..];
      assert keys[..i][1..] == rest[..i - 1];
      assert keys[..i][0] == keys[0];
      assert Quit !in rest[..i - 1] by {
        assert rest[..i - 1] == keys[..i][1..];
      }
      assert rest[i - 1] == keys[i];
      MovesStopAtQuit(rest, i - 1);
    }
  }

  lemma ModShift(m: int, d: int)
    ensures (m % Pages + d) % Pages == (m + d) % Pages
  {
    var q := m / Pages;
    assert m == Pages * q + m % Pages;
    assert m + d == Pages * q + (m % Pages + d);
    ModAddMultiple(m % Pages + d, q);
  }

  lemma ModAddMultiple(x: int, q: int)
    ensures (Pages * q + x) % Pages == x % Pages
  {
    var y := Pages * q + x;
    var r := x % Pages;
    assert x == Pages * (x / Pages) + r;
    assert y == Pages * (q + x / Pages) + r;
    assert 0 <= r < Pages;
  }

  /** One turn of the command loop on a command that is not Q. */
  lemma BrowseStep(keys: seq<Key>, i: nat, page: int)
    requires i < |keys| && Quit !in keys[..i] && keys[i] != Quit
    requires page == Moves(keys[..i]) % Pages
    ensures Quit !in keys[..i + 1]
    ensures Moves(keys[..i + 1]) % Pages
         == if keys[i] == Next then NextPage(page) else if keys[i] == Prev then PrevPage(page) else page
  {
    assert keys[..i + 1] == keys[..i] + [keys[i]];
    MovesSnoc(keys, i);
    ModShift(Moves(keys[..i]), Move(keys[i]));
  }

  /** The command loop of weekly_charts_paged over the lines typed: the page
      starts at 0 and the loop stops at the first Q. The page is always one
      of the three, namely the net N/P moves before the first Q modulo 3. */
  method Browse(lines: seq<string>) returns (page: int, quit: bool)
    ensures 0 <= page < Pages
    ensures page == Moves(KeysOf(lines)) % Pages
    ensures quit <==> Quit in KeysOf(lines)
  {
    ghost var keys := KeysOf(lines);
    page := 0;
    quit := false;
    var i := 0;
    while i < |lines|
      invariant 0 <= i <= |lines|
      invariant Quit !in keys[..i]
      invariant 0 <= page < Pages
      invariant page == Moves(keys[..i]) % Pages
    {
      var key := KeyOf(lines[i]);
      assert key == keys[i];
      if key == Quit {
        MovesStopAtQuit(keys, i);
        quit := true;
        return;
      }
      BrowseStep(keys, i, page);
      if key == Next {
        page := NextPage(page);
      } else if key == Prev {
        page := PrevPage(page);
      }
      i := i + 1;
    }
    assert keys[..i] == keys;
  }
}
