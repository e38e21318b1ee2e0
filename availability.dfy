/** get_daily_availability and get_weekly_availability of visualization.py:
    the unavailable hours typed as "9-12, 15-20" are parsed part by part,
    clipped to the fixed working day 9..22, sorted, and swept with a cursor
    to give the free windows. Intervals are half-open: (9, 12) covers the
    hours h with 9 <= h < 12. The typed text is a parameter. */
module Availability {
  import opened Text

  const WorkStart: int := 9
  const WorkEnd: int := 22

  /** One (start, end) pair of hours. */
  datatype Span = Span(start: int, end: int)

  /** Hour h lies in the half-open span. */
  predicate In(s: Span, h: int) {
    s.start <= h < s.end
  }

  /** The parts of the typed line: `raw.strip()`, and when that is not
      empty, the stripped non-empty pieces between commas; each part is
      non-empty, has no surrounding whitespace and holds no comma. */
  function Parts(raw: string): (r: seq<string>)
    ensures forall k :: 0 <= k < |r| ==> FieldSafe(r[k])
  {
    var line := Strip(raw);
    if line == [] then []
    else
      assert Fields(line) == CleanPieces(Split(line, ','));
      CleanPieces(Split(line, ','))
  }

  /** `a` of `a, b = part.split("-", 1)`: the text before the first '-'. */
  function Before(part: string): string
    requires '-' in part
  {
    part[..IndexOf(part, '-')]
  }

  /** `b` of `a, b = part.split("-", 1)`: the text after the first '-'. */
  function After(part: string): string
    requires '-' in part
  {
    part[IndexOf(part, '-') + 1..]
  }

  /** One part: `a, b = part.split("-", 1)`, then `int(a.strip())` and
      `int(b.strip())`. The part is accepted exactly when it has a '-' and
      both stripped sides of its first '-' are integers, and then it is that
      pair; otherwise it is skipped (None). */
  function ParsePart(part: string): (r: Option<Span>)
    ensures r.Some? <==>
      '-' in part && ParseInt(Strip(Before(part))).Some? && ParseInt(Strip(After(part))).Some?
    ensures r.Some? ==>
      r.value == Span(ParseInt(Strip(Before(part))).value, ParseInt(Strip(After(part))).value)
  {
    if '-' !in part then None
    else
      var a := ParseInt(Strip(Before(part)));
      var b := ParseInt(Strip(After(part)));
      if a.Some? && b.Some? then Some(Span(a.value, b.value)) else None
  }

  /** Writing a pair as typed text and parsing it gives the pair back, for
      a start that is a natural number and any end. */
  lemma ParsePrinted(a: nat, b: int)
    ensures ParsePart(ShowNat(a) + "-" + ShowInt(b)) == Some(Span(a, b))
  {
    var x := ShowNat(a);
    var s := x + "-" + ShowInt(b);
    var n := |x|;
    assert s[n] == '-';
    assert '-' !in x by {
      assert forall k :: 0 <= k < n ==> IsDigit(x[k]);
    }
    assert IndexOf(s, '-') == n;
    assert Before(s) == x;
    assert After(s) == ShowInt(b);
    assert ShowInt(a) == x;
    ShowIntTrimmed(a, StrBlanks);
    ShowIntTrimmed(b, StrBlanks);
    ParseShowInt(a);
    ParseShowInt(b);
  }

  /** The strip before int() matters: "12\x1c" is no integer to int(), but
      strip removes the separator first, so "9-12\x1c" is the pair (9, 12). */
  lemma StripBeforeInt()
    ensures ParsePart("9-12\U{001C}") == Some(Span(9, 12))
  {
    assert IndexOf("9-12\U{001C}", '-') == 1;
    assert Before("9-12\U{001C}") == "9" && After("9-12\U{001C}") == "12\U{001C}";
    SeparatorsOnlyStripped();
    StripStripped("9");
    ParseNineTwelve();
  }

  lemma ParseNineTwelve()
    ensures ParseInt("9") == Some(9) && ParseInt("12") == Some(12)
  {
    StripStripped("9");
    StripStripped("12");
    assert DigitsValue("12") == 12 by {
      assert "12"[..1] == "1";
    }
  }

  /** A well-formed part gives its pair. */
  lemma ParsesPair()
    ensures ParsePart("9-12") == Some(Span(9, 12))
  {
    assert IndexOf("9-12", '-') == 1;
    assert Before("9-12") == "9" && After("9-12") == "12";
    StripStripped("9");
    StripStripped("12");
    ParseNineTwelve();
  }

  /** A part is split at its first '-' only: the second half of "8-10-12"
      is "10-12", which is not an integer, so the part is skipped. */
  lemma SplitAtFirstDash()
    ensures ParsePart("8-10-12") == None
  {
    assert IndexOf("8-10-12", '-') == 1;
    assert After("8-10-12") == "10-12";
    StripStripped("10-12");
    assert !AllDigits("10-12") by {
      assert !IsDigit("10-12"[2]);
    }
  }

  /** max(WORK_START, start), min(WORK_END, end), kept only if start < end. */
  function Clip(s: Span): (r: Option<Span>)
    ensures r.Some? ==> WorkStart <= r.value.start < r.value.end <= WorkEnd
    ensures r.Some? ==> forall h :: In(r.value, h) <==> In(s, h) && WorkStart <= h < WorkEnd
    ensures r.None? ==> forall h :: WorkStart <= h < WorkEnd ==> !In(s, h)
  {
    var start := if s.start > WorkStart then s.start else WorkStart;
    var end := if s.end < WorkEnd then s.end else WorkEnd;
    if start < end then Some(Span(start, end)) else None
  }

  /** The pairs typed in the parts that parse, in their order, unclipped:
      at most one per part, and one per part when every part parses. */
  function Requested(parts: seq<string>): (r: seq<Span>)
    ensures |r| <= |parts|
    ensures (forall k :: 0 <= k < |parts| ==> ParsePart(parts[k]).Some?) ==> |r| == |parts|
  {
    if parts == [] then []
    else
      var r := ParsePart(parts[|parts| - 1]);
      Requested(parts[..|parts| - 1]) + (if r.Some? then [r.value] else [])
  }

  /** Each pair clipped, dropping those with nothing left. */
  function ClipAll(spans: seq<Span>): seq<Span> {
    if spans == [] then []
    else
      var c := Clip(spans[|spans| - 1]);
      ClipAll(spans[..|spans| - 1]) + (if c.Some? then [c.value] else [])
  }

  /** The list `unavailable` after the parsing loop. */
  function Kept(parts: seq<string>): seq<Span> {
    ClipAll(Requested(parts))
  }

  predicate Within(s: Span) {
    WorkStart <= s.start < s.end <= WorkEnd
  }

  /** Hour h falls inside one of the spans. */
  predicate Covered(spans: seq<Span>, h: int) {
    exists k :: 0 <= k < |spans| && In(spans[k], h)
  }

  lemma CoveredSnoc(spans: seq<Span>, x: Span, h: int)
    ensures Covered(spans + [x], h) <==> Covered(spans, h) || In(x, h)
  {
    var t := spans + [x];
    if Covered(t, h) {
      var k :| 0 <= k < |t| && In(t[k], h);
      if k < |spans| {
        assert spans[k] == t[k];
      }
    }
    if Covered(spans, h) {
      var k :| 0 <= k < |spans| && In(spans[k], h);
      assert t[k] == spans[k];
    }
    if In(x, h) {
      assert t[|spans|] == x;
    }
  }

  /** Every kept interval lies inside the working day and is non-empty. */
  lemma {:induction false} ClipAllWithin(spans: seq<Span>)
    ensures forall k :: 0 <= k < |ClipAll(spans)| ==> Within(ClipAll(spans)[k])
  {
    if spans != [] {
      ClipAllWithin(spans[..|spans| - 1]);
    }
  }

  /** Clipping changes nothing inside the working day: an hour of the day is
      covered by a kept interval iff it is covered by a typed pair. */
  lemma {:induction false} ClipAllCovers(spans: seq<Span>, h: int)
    requires WorkStart <= h < WorkEnd
    ensures Covered(ClipAll(spans), h) <==> Covered(spans, h)
  {
    if spans != [] {
      var pre := spans[..|spans| - 1];
      var x := spans[|spans| - 1];
      ClipAllCovers(pre, h);
      assert spans == pre + [x];
      CoveredSnoc(pre, x, h);
      var c := Clip(x);
      if c.Some? {
        assert ClipAll(spans) == ClipAll(pre) + [c.value];
        CoveredSnoc(ClipAll(pre), c.value, h);
        assert In(c.value, h) <==> In(x, h);
      } else {
        assert ClipAll(spans) == ClipAll(pre);
        assert !In(x, h);
      }
    }
  }

  lemma KeptCovers(parts: seq<string>, h: int)
    requires WorkStart <= h < WorkEnd
    ensures Covered(Kept(parts), h) <==> Covered(Requested(parts), h)
  {
    ClipAllCovers(Requested(parts), h);
  }

  /** Parts are handled one at a time: the pairs of a line are those of its
      first parts followed by those of the rest. */
  lemma {:induction false} RequestedAppend(p: seq<string>, q: seq<string>)
    ensures Requested(p + q) == Requested(p) + Requested(q)
  {
    if q == [] {
      assert p + q == p;
    } else {
      var q' := q[..|q| - 1];
      assert (p + q)[..|p + q| - 1] == p + q';
      assert (p + q)[|p + q| - 1] == q[|q| - 1];
      RequestedAppend(p, q');
    }
  }

  /** A malformed part drops out without affecting any other part. */
  lemma SkippedPart(p: seq<string>, bad: string, q: seq<string>)
    requires ParsePart(bad).None?
    ensures Requested(p + [bad] + q) == Requested(p + q)
  {
    RequestedAppend(p + [bad], q);
    RequestedAppend(p, [bad]);
    RequestedAppend(p, q);
    assert [bad][..0] == [];
  }

  /** The order `list.sort()` puts pairs in: by start, then by end. */
  predicate SpanLe(a: Span, b: Span) {
    a.start < b.start || (a.start == b.start && a.end <= b.end)
  }

  predicate SortedSpans(s: seq<Span>) {
    forall k :: 0 <= k < |s| - 1 ==> SpanLe(s[k], s[k + 1])
  }

  function Insert(x: Span, s: seq<Span>): (r: seq<Span>)
    ensures |r| == |s| + 1
    ensures r[0] == x || (s != [] && r[0] == s[0])
  {
    if s == [] || SpanLe(x, s[0]) then [x] + s
    else [s[0]] + Insert(x, s[1..])
  }

  /** `unavailable.sort()`: the same pairs in SpanLe order. */
  function SortSpans(s: seq<Span>): seq<Span> {
    if s == [] then [] else Insert(s[0], SortSpans(s[1..]))
  }

  lemma {:induction false} InsertPermutes(x: Span, s: seq<Span>)
    ensures multiset(Insert(x, s)) == multiset(s) + multiset{x}
  {
    if s != [] && !SpanLe(x, s[0]) {
      InsertPermutes(x, s[1..]);
      assert s == [s[0]] + s[1..];
    }
  }

  lemma {:induction false} InsertSorts(x: Span, s: seq<Span>)
    requires SortedSpans(s)
    ensures SortedSpans(Insert(x, s))
  {
    if s != [] && !SpanLe(x, s[0]) {
      var rest := s[1..];
      assert SortedSpans(rest) by {
        forall k | 0 <= k < |rest| - 1 ensures SpanLe(rest[k], rest[k + 1]) {
          assert rest[k] == s[k + 1] && rest[k + 1] == s[k + 2];
        }
      }
      InsertSorts(x, rest);
      var t := Insert(x, rest);
      var r := [s[0]] + t;
      forall k | 0 <= k < |r| - 1 ensures SpanLe(r[k], r[k + 1]) {
        if k == 0 {
          assert r[1] == t[0];
          if t[0] != x {
            assert t[0] == s[1];
          }
        } else {
          assert r[k] == t[k - 1] && r[k + 1] == t[k];
        }
      }
    }
  }

  /** The sorted list is sorted and holds exactly the same pairs. */
  lemma {:induction false} SortSpansCorrect(s: seq<Span>)
    ensures SortedSpans(SortSpans(s))
    ensures multiset(SortSpans(s)) == multiset(s)
  {
    if s != [] {
      SortSpansCorrect(s[1..]);
      InsertSorts(s[0], SortSpans(s[1..]));
      InsertPermutes(s[0], SortSpans(s[1..]));
      assert s == [s[0]] + s[1..];
    }
  }

  /** Sorting keeps the hours covered. */
  lemma SortKeepsCover(s: seq<Span>, h: int)
    ensures Covered(SortSpans(s), h) <==> Covered(s, h)
  {
    SortSpansCorrect(s);
    var t := SortSpans(s);
    if Covered(t, h) {
      var k :| 0 <= k < |t| && In(t[k], h);
      assert t[k] in multiset(s);
      var j :| 0 <= j < |s| && s[j] == t[k];
    }
    if Covered(s, h) {
      var k :| 0 <= k < |s| && In(s[k], h);
      assert s[k] in multiset(t);
      var j :| 0 <= j < |t| && t[j] == s[k];
    }
  }

  lemma SortKeepsWithin(s: seq<Span>)
    requires forall k :: 0 <= k < |s| ==> Within(s[k])
    ensures forall k :: 0 <= k < |SortSpans(s)| ==> Within(SortSpans(s)[k])
  {
    SortSpansCorrect(s);
    var t := SortSpans(s);
    forall k | 0 <= k < |t| ensures Within(t[k]) {
      assert t[k] in multiset(s);
      var j :| 0 <= j < |s| && s[j] == t[k];
    }
  }

  /** The free windows the functions return: each non-empty and inside the
      working day, in increasing order, and no two touching. */
  predicate FreeWindows(w: seq<Span>) {
    (forall k :: 0 <= k < |w| ==> Within(w[k])) &&
    (forall i, j :: 0 <= i < j < |w| ==> w[i].end < w[j].start)
  }

  /** What the functions promise for one typed line: free windows, and an
      hour of the working day is in a window iff no typed pair covers it. */
  predicate Answers(raw: string, w: seq<Span>) {
    FreeWindows(w) &&
    forall h :: WorkStart <= h < WorkEnd ==> (Covered(w, h) <==> !Covered(Requested(Parts(raw)), h))
  }

  /** No span reaching past h covers h. */
  lemma EndsBy(spans: seq<Span>, h: int)
    requires forall k :: 0 <= k < |spans| ==> spans[k].end <= h
    ensures !Covered(spans, h)
  {
  }

  /** The loop invariant of the sweep after the first i sorted intervals:
      the cursor is past every interval seen and every window found, the
      hours from the last start seen up to the cursor are covered, and below
      the cursor the windows are exactly the hours no interval covers. */
  ghost predicate Swept(u: seq<Span>, i: nat, current: int, available: seq<Span>) {
    i <= |u| &&
    WorkStart <= current <= WorkEnd &&
    (i == 0 ==> current == WorkStart && available == []) &&
    FreeWindows(available) &&
    (forall k :: 0 <= k < |available| ==> available[k].end < current) &&
    (forall k :: 0 <= k < i ==> u[k].end <= current) &&
    (i > 0 ==> forall h :: u[i - 1].start <= h < current ==> Covered(u[..i], h)) &&
    (forall h :: WorkStart <= h < current ==> (Covered(available, h) <==> !Covered(u[..i], h)))
  }

  /** The window a turn of the sweep adds, if any. */
  function Gap(current: int, s: Span): seq<Span> {
    if current < s.start then [Span(current, s.start)] else []
  }

  lemma GapFree(available: seq<Span>, current: int, s: Span)
    requires FreeWindows(available) && WorkStart <= current && Within(s)
    requires forall k :: 0 <= k < |available| ==> available[k].end < current
    ensures FreeWindows(available + Gap(current, s))
    ensures forall h :: Covered(available + Gap(current, s), h) <==> Covered(available, h) || (current <= h < s.start)
  {
    if current < s.start {
      var a := available + Gap(current, s);
      assert a[|available|] == Span(current, s.start);
      assert forall k :: 0 <= k < |available| ==> a[k] == available[k];
      forall h ensures Covered(a, h) <==> Covered(available, h) || (current <= h < s.start) {
        CoveredSnoc(available, Span(current, s.start), h);
      }
    } else {
      assert available + Gap(current, s) == available;
    }
  }

  /** One turn of `for s, e in unavailable`. */
  lemma SweepStep(u: seq<Span>, i: nat, current: int, available: seq<Span>)
    requires i < |u| && SortedSpans(u) && Within(u[i])
    requires Swept(u, i, current, available)
    ensures Swept(u, i + 1, if current > u[i].end then current else u[i].end, available + Gap(current, u[i]))
  {
    var s, e := u[i].start, u[i].end;
    var current' := if current > e then current else e;
    var available' := available + Gap(current, u[i]);
    GapFree(available, current, u[i]);
    assert u[..i + 1] == u[..i] + [u[i]];
    forall h ensures Covered(u[..i + 1], h) <==> Covered(u[..i], h) || In(u[i], h) {
      CoveredSnoc(u[..i], u[i], h);
    }
    if i > 0 {
      assert SpanLe(u[i - 1], u[i]);
    }
    // an hour from s up to the old cursor was already covered
    assert forall h :: s <= h < current ==> Covered(u[..i], h);
    assert forall k :: 0 <= k < i ==> u[..i][k] == u[k];
    forall h | current <= h
      ensures !Covered(available, h) && !Covered(u[..i], h)
    {
      EndsBy(available, h);
      EndsBy(u[..i], h);
    }
  }

  /** The sweep over intervals that are sorted and inside the working day:
      a gap before each interval that starts after the cursor, then the rest
      of the day after the last one. */
  method Sweep(unavailable: seq<Span>) returns (available: seq<Span>)
    requires SortedSpans(unavailable)
    requires forall k :: 0 <= k < |unavailable| ==> Within(unavailable[k])
    ensures FreeWindows(available)
    ensures forall h :: WorkStart <= h < WorkEnd ==> (Covered(available, h) <==> !Covered(unavailable, h))
    ensures unavailable == [] ==> available == [Span(WorkStart, WorkEnd)]
  {
    available := [];
    var current := WorkStart;
    for i := 0 to |unavailable|
      invariant Swept(unavailable, i, current, available)
    {
      SweepStep(unavailable, i, current, available);
      var s, e := unavailable[i].start, unavailable[i].end;
      if current < s {
        available := available + [Span(current, s)];
      }
      current := if current > e then current else e;
    }
    SweepEnd(unavailable, current, available);
    if current < WorkEnd {
      available := available + [Span(current, WorkEnd)];
    }
  }

  /** The last step: `if current < WORK_END` adds the rest of the day. */
  lemma SweepEnd(u: seq<Span>, current: int, available: seq<Span>)
    requires Swept(u, |u|, current, available)
    ensures var a := if current < WorkEnd then available + [Span(current, WorkEnd)] else available;
      FreeWindows(a) &&
      (forall h :: WorkStart <= h < WorkEnd ==> (Covered(a, h) <==> !Covered(u, h))) &&
      (u == [] ==> a == [Span(WorkStart, WorkEnd)])
  {
    assert u[..|u|] == u;
    var rest := Span(current, WorkEnd);
    var a := if current < WorkEnd then available + [rest] else available;
    if current < WorkEnd {
      assert a[|available|] == rest;
      assert forall k :: 0 <= k < |available| ==> a[k] == available[k];
    }
    forall h | WorkStart <= h < WorkEnd
      ensures Covered(a, h) <==> !Covered(u, h)
    {
      if current < WorkEnd {
        CoveredSnoc(available, rest, h);
      }
      if h >= current {
        EndsBy(available, h);
        EndsBy(u, h);
      }
    }
  }

  /** One more part read by the parsing loop. */
  lemma KeptStep(parts: seq<string>, i: nat)
    requires i < |parts|
    ensures var r := ParsePart(parts[i]);
      var c := if r.Some? then Clip(r.value) else None;
      Kept(parts[..i + 1]) == Kept(parts[..i]) + (if c.Some? then [c.value] else [])
  {
    var pre := parts[..i + 1];
    assert pre[..i] == parts[..i] && pre[i] == parts[i];
    var r := ParsePart(parts[i]);
    var req := Requested(parts[..i]);
    if r.Some? {
      assert (req + [r.value])[..|req|] == req;
    } else {
      assert req + [] == req;
    }
  }

  /** The parsing loop: each part without '-' or with a non-integer side is
      skipped, each other one clipped and kept when non-empty. */
  method CollectUnavailable(parts: seq<string>) returns (unavailable: seq<Span>)
    ensures unavailable == Kept(parts)
  {
    unavailable := [];
    for i := 0 to |parts|
      invariant unavailable == Kept(parts[..i])
    {
      KeptStep(parts, i);
      var part := parts[i];
      if '-' !in part {
        continue;
      }
      var r := ParsePart(part);
      if r.None? {
        continue;
      }
      var c := Clip(r.value);
      if c.Some? {
        unavailable := unavailable + [c.value];
      }
    }
    assert parts[..|parts|] == parts;
  }

  /** get_daily_availability for the typed line raw. An empty line, or one in
      which no part parses to a non-empty interval of the day, gives the
      whole day. */
  method DailyAvailability(raw: string) returns (available: seq<Span>)
    ensures Answers(raw, available)
    ensures Kept(Parts(raw)) == [] ==> available == [Span(WorkStart, WorkEnd)]
  {
    var parts := Parts(raw);
    var unavailable := CollectUnavailable(parts);
    ClipAllWithin(Requested(parts));
    var sorted := SortSpans(unavailable);
    SortKeepsWithin(unavailable);
    SortSpansCorrect(unavailable);
    available := Sweep(sorted);
    forall h | WorkStart <= h < WorkEnd
      ensures Covered(sorted, h) <==> Covered(Requested(parts), h)
    {
      SortKeepsCover(unavailable, h);
      KeptCovers(parts, h);
    }
  }

  /** The first n days from today have their windows, each related to its
      own line by ok, and no other key is present. */
  ghost predicate WeekFilled(weekly: map<int, seq<Span>>, today: int, raws: seq<string>, n: nat,
                             ok: (string, seq<Span>) -> bool)
    requires n <= |raws|
  {
    (forall d :: d in weekly <==> today <= d < today + n) &&
    (forall j :: 0 <= j < n ==> ok(raws[j], weekly[today + j]))
  }

  lemma WeekStep(weekly: map<int, seq<Span>>, today: int, raws: seq<string>, n: nat, available: seq<Span>,
                 ok: (string, seq<Span>) -> bool)
    requires n < |raws| && WeekFilled(weekly, today, raws, n, ok)
    requires ok(raws[n], available)
    ensures WeekFilled(weekly[today + n := available], today, raws, n + 1, ok)
  {
    var w := weekly[today + n := available];
    forall j | 0 <= j < n + 1 ensures ok(raws[j], w[today + j]) {
      if j < n {
        assert w[today + j] == weekly[today + j];
      }
    }
  }

  /** get_weekly_availability: one typed line per day for the seven days
      today .. today + 6, each answered by the same rule as the daily one. */
  method WeeklyAvailability(today: int, raws: seq<string>) returns (weekly: map<int, seq<Span>>)
    requires |raws| == 7
    ensures forall d :: d in weekly <==> today <= d < today + 7
    ensures forall i :: 0 <= i < 7 ==> Answers(raws[i], weekly[today + i])
  {
    ghost var ok := (raw, w) => Answers(raw, w);
    weekly := map[];
    for i := 0 to 7
      invariant WeekFilled(weekly, today, raws, i, ok)
    {
      var available := DailyAvailability(raws[i]);
      WeekStep(weekly, today, raws, i, available, ok);
      weekly := weekly[today + i := available];
    }
  }

  /** An hour before the first of a list of free windows is in none of them. */
  lemma BeforeFirst(w: seq<Span>, h: int)
    requires FreeWindows(w) && w != [] && h < w[0].start
    ensures !Covered(w, h)
  {
    forall k | 0 <= k < |w| ensures !In(w[k], h) {
      if k > 0 {
        assert w[0].end < w[k].start;
      }
    }
  }

  /** The tail of a list of free windows covers the same hours from the end
      of the first window on. */
  lemma TailCovers(w: seq<Span>, h: int)
    requires FreeWindows(w) && w != [] && h >= w[0].end
    ensures Covered(w, h) <==> Covered(w[1..], h)
    ensures FreeWindows(w[1..])
  {
    var t := w[1..];
    assert forall k :: 0 <= k < |t| ==> t[k] == w[k + 1];
    if Covered(w, h) {
      var k :| 0 <= k < |w| && In(w[k], h);
      assert t[k - 1] == w[k];
    }
  }

  /** Free windows are determined by the hours they cover from lo on. */
  lemma {:induction false} FreeWindowsUniqueFrom(w1: seq<Span>, w2: seq<Span>, lo: int)
    requires FreeWindows(w1) && FreeWindows(w2)
    requires w1 != [] ==> w1[0].start >= lo
    requires w2 != [] ==> w2[0].start >= lo
    requires forall h :: lo <= h < WorkEnd ==> (Covered(w1, h) <==> Covered(w2, h))
    ensures w1 == w2
    decreases |w1| + |w2|
  {
    if w1 == [] || w2 == [] {
      if w1 != [] {
        assert In(w1[0], w1[0].start);
        assert Covered(w1, w1[0].start);
      }
      if w2 != [] {
        assert In(w2[0], w2[0].start);
        assert Covered(w2, w2[0].start);
      }
    } else {
      var a, b := w1[0], w2[0];
      assert In(a, a.start) && In(b, b.start);
      if a.start < b.start {
        BeforeFirst(w2, a.start);
      } else if b.start < a.start {
        BeforeFirst(w1, b.start);
      }
      if a.end < b.end {
        assert In(b, a.end);
        TailCovers(w1, a.end);
      } else if b.end < a.end {
        assert In(a, b.end);
        TailCovers(w2, b.end);
      }
      forall h | a.end <= h < WorkEnd ensures Covered(w1[1..], h) <==> Covered(w2[1..], h) {
        TailCovers(w1, h);
        TailCovers(w2, h);
      }
      TailCovers(w1, a.end);
      TailCovers(w2, a.end);
      FreeWindowsUniqueFrom(w1[1..], w2[1..], a.end);
      assert w1 == [a] + w1[1..] && w2 == [b] + w2[1..];
    }
  }

  /** The promise pins the answer down: for each typed line at most one list
      of windows answers it. */
  lemma AnswerUnique(raw: string, w1: seq<Span>, w2: seq<Span>)
    requires Answers(raw, w1) && Answers(raw, w2)
    ensures w1 == w2
  {
    FreeWindowsUniqueFrom(w1, w2, WorkStart);
  }

  /** A line with nothing parsed is answered by the whole day and by no
      other list of windows. */
  lemma NothingTypedWholeDay(raw: string, w: seq<Span>)
    requires Requested(Parts(raw)) == []
    requires Answers(raw, w)
    ensures w == [Span(WorkStart, WorkEnd)]
  {
    var day := [Span(WorkStart, WorkEnd)];
    forall h | WorkStart <= h < WorkEnd ensures Covered(day, h) {
      assert In(day[0], h);
    }
    AnswerUnique(raw, w, day);
  }
}
