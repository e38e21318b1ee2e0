/** The scheduling rules of task.py as values: availability windows become a
    timeline of half-hour slots, tasks are visited in descending score with
    stable ties, and a cursor hands consecutive slots to eligible tasks,
    first-fit. A plan is described by `owner`: owner[k] is the index of the
    task that receives timeline slot k. */
module Schedule {
  import opened Text
  import opened Tasks
  import opened Priority

  datatype Window = Window(start: real, end: real)
  datatype Slot = Slot(start: real, end: real)

  /** One schedule dictionary: task, start, end, priority, category. */
  datatype Entry = Entry(task: string, start: real, end: real, priority: Level, category: string)

  // ---------------------------------------------------------------- slots

  /** How many times `while hour + 0.5 <= end` runs from hour = start: the
      largest n with start + n/2 <= end, so a remainder under half an hour is
      dropped. */
  function SlotCount(w: Window): (n: nat)
    ensures n > 0 ==> w.start + n as real * 0.5 <= w.end
    ensures w.start + (n + 1) as real * 0.5 > w.end
  {
    if w.start + 0.5 <= w.end then ((w.end - w.start) * 2.0).Floor else 0
  }

  /** A window of whole hours holds two slots per hour. */
  lemma WholeHourSlots(lo: int, hi: int)
    requires lo <= hi
    ensures SlotCount(Window(lo as real, hi as real)) == 2 * (hi - lo)
  {
  }

  function SlotAt(w: Window, k: nat): Slot {
    Slot(w.start + k as real * 0.5, w.start + (k + 1) as real * 0.5)
  }

  function WindowSlots(w: Window): seq<Slot> {
    seq(SlotCount(w), k requires 0 <= k => SlotAt(w, k))
  }

  /** The timeline: each window's slots, windows in the order given. */
  function Timeline(ws: seq<Window>): seq<Slot> {
    if ws == [] then [] else Timeline(ws[..|ws| - 1]) + WindowSlots(ws[|ws| - 1])
  }

  predicate InWindow(s: Slot, w: Window) {
    w.start <= s.start && s.end <= w.end
  }

  /** Every slot is half an hour long and lies inside one of the windows. */
  lemma {:induction false} TimelineInsideWindows(ws: seq<Window>)
    ensures forall k :: 0 <= k < |Timeline(ws)| ==>
      Timeline(ws)[k].end == Timeline(ws)[k].start + 0.5 &&
      exists i :: 0 <= i < |ws| && InWindow(Timeline(ws)[k], ws[i])
  {
    if ws != [] {
      var pre := ws[..|ws| - 1];
      var w := ws[|ws| - 1];
      TimelineInsideWindows(pre);
      var t := Timeline(ws);
      forall k | 0 <= k < |t|
        ensures t[k].end == t[k].start + 0.5 && exists i :: 0 <= i < |ws| && InWindow(t[k], ws[i])
      {
        if k < |Timeline(pre)| {
          var i :| 0 <= i < |pre| && InWindow(Timeline(pre)[k], pre[i]);
          assert ws[i] == pre[i];
        } else {
          var j := k - |Timeline(pre)|;
          assert t[k] == SlotAt(w, j);
          assert (j + 1) as real <= SlotCount(w) as real;
          assert InWindow(t[k], ws[|ws| - 1]);
        }
      }
    }
  }

  /** Windows in increasing order, each ending no later than the next starts. */
  predicate OrderedWindows(ws: seq<Window>) {
    forall i, j :: 0 <= i < j < |ws| ==> ws[i].end <= ws[j].start
  }

  /** Ordered windows give a timeline of non-overlapping slots in increasing
      order: slot a ends no later than slot b starts whenever a < b. */
  lemma {:induction false} TimelineOrdered(ws: seq<Window>)
    requires OrderedWindows(ws)
    ensures forall a, b :: 0 <= a < b < |Timeline(ws)| ==> Timeline(ws)[a].end <= Timeline(ws)[b].start
  {
    if ws != [] {
      var pre := ws[..|ws| - 1];
      var w := ws[|ws| - 1];
      TimelineOrdered(pre);
      TimelineInsideWindows(pre);
      var t := Timeline(ws);
      var tp := Timeline(pre);
      forall a, b | 0 <= a < b < |t| ensures t[a].end <= t[b].start {
        if b < |tp| {
          assert t[a] == tp[a] && t[b] == tp[b];
        } else if a < |tp| {
          var i :| 0 <= i < |pre| && InWindow(tp[a], pre[i]);
          assert ws[i] == pre[i];
          assert t[b] == SlotAt(w, b - |tp|);
        } else {
          assert t[a] == SlotAt(w, a - |tp|) && t[b] == SlotAt(w, b - |tp|);
        }
      }
    }
  }

  /** The slot generator's loop: `hour` walks through each window in steps of
      half an hour while a whole slot still fits. */
  method BuildTimeline(windows: seq<Window>) returns (timeline: seq<Slot>)
    ensures timeline == Timeline(windows)
  {
    timeline := [];
    for i := 0 to |windows|
      invariant timeline == Timeline(windows[..i])
    {
      var w := windows[i];
      var hour := w.start;
      ghost var k: nat := 0;
      while hour + 0.5 <= w.end
        invariant k <= SlotCount(w)
        invariant hour == w.start + k as real * 0.5
        invariant timeline == Timeline(windows[..i]) + WindowSlots(w)[..k]
        decreases SlotCount(w) - k
      {
        assert k < SlotCount(w);
        timeline := timeline + [Slot(hour, hour + 0.5)];
        hour := hour + 0.5;
        k := k + 1;
        assert WindowSlots(w)[..k] == WindowSlots(w)[..k - 1] + [SlotAt(w, k - 1)];
      }
      assert k == SlotCount(w);
      assert windows[..i + 1][..i] == windows[..i];
    }
    assert windows[..|windows|] == windows;
  }

  // ------------------------------------------------------------ ordering

  /** The scores calculate_priorities assigns, task by task. */
  function ScoresOf(all: seq<TaskInfo>, today: int, w: Weights): (keys: seq<real>)
    ensures |keys| == |all|
  {
    seq(|all|, i requires 0 <= i < |all| => Score(all[i].due, all[i].category, all[i].estimated, today, w))
  }

  /** Task a comes before task b in `sorted(..., key=score, reverse=True)`:
      a higher score, or an equal score and an earlier position. */
  predicate Precedes(keys: seq<real>, a: nat, b: nat)
    requires a < |keys| && b < |keys|
  {
    keys[a] > keys[b] || (keys[a] == keys[b] && a < b)
  }

  predicate Indices(keys: seq<real>, o: seq<nat>) {
    forall k :: 0 <= k < |o| ==> o[k] < |keys|
  }

  predicate SortedBy(keys: seq<real>, o: seq<nat>) {
    Indices(keys, o) && forall a, b :: 0 <= a < b < |o| ==> Precedes(keys, o[a], o[b])
  }

  /** One step of insertion sort: x placed before the first index it
      precedes. */
  function InsertByKey(keys: seq<real>, o: seq<nat>, x: nat): (r: seq<nat>)
    requires Indices(keys, o) && x < |keys|
    ensures |r| == |o| + 1 && Indices(keys, r)
  {
    if o == [] then [x]
    else if Precedes(keys, x, o[0]) then [x] + o
    else [o[0]] + InsertByKey(keys, o[1..], x)
  }

  /** Inserting adds exactly x. */
  lemma {:induction false} InsertAdds(keys: seq<real>, o: seq<nat>, x: nat)
    requires Indices(keys, o) && x < |keys|
    ensures multiset(InsertByKey(keys, o, x)) == multiset(o) + multiset{x}
  {
    if o != [] && !Precedes(keys, x, o[0]) {
      InsertAdds(keys, o[1..], x);
      assert o == [o[0]] + o[1..];
    }
  }

  /** Inserting an index not yet present keeps a sorted order sorted. */
  lemma {:induction false} InsertSorted(keys: seq<real>, o: seq<nat>, x: nat)
    requires SortedBy(keys, o) && x < |keys| && x !in o
    ensures SortedBy(keys, InsertByKey(keys, o, x))
  {
    if o == [] {
    } else if Precedes(keys, x, o[0]) {
      InsertFront(keys, o, x);
    } else {
      assert o == [o[0]] + o[1..];
      assert x !in o[1..];
      InsertSorted(keys, o[1..], x);
      InsertAdds(keys, o[1..], x);
      InsertBehind(keys, o, x, InsertByKey(keys, o[1..], x));
    }
  }

  /** x before a sorted order whose head it precedes. */
  lemma InsertFront(keys: seq<real>, o: seq<nat>, x: nat)
    requires SortedBy(keys, o) && x < |keys| && o != [] && Precedes(keys, x, o[0])
    ensures SortedBy(keys, [x] + o)
  {
    var r := [x] + o;
    forall a, b | 0 <= a < b < |r| ensures Precedes(keys, r[a], r[b]) {
      assert r[b] == o[b - 1];
      if a == 0 {
        assert r[a] == x;
        if b > 1 {
          assert Precedes(keys, o[0], o[b - 1]);
        }
      } else {
        assert r[a] == o[a - 1];
      }
    }
  }

  /** The head of o kept in front of x inserted into the rest. */
  lemma InsertBehind(keys: seq<real>, o: seq<nat>, x: nat, rest: seq<nat>)
    requires SortedBy(keys, o) && x < |keys| && x !in o && o != [] && !Precedes(keys, x, o[0])
    requires SortedBy(keys, rest) && multiset(rest) == multiset(o[1..]) + multiset{x}
    ensures SortedBy(keys, [o[0]] + rest)
  {
    var r := [o[0]] + rest;
    forall a, b | 0 <= a < b < |r| ensures Precedes(keys, r[a], r[b]) {
      if a == 0 {
        assert r[b] == rest[b - 1];
        assert r[b] in multiset(rest);
        if r[b] != x {
          assert r[b] in o[1..];
          var j :| 0 <= j < |o[1..]| && o[1..][j] == r[b];
          assert o[j + 1] == r[b];
        }
      } else {
        assert r[a] == rest[a - 1] && r[b] == rest[b - 1];
      }
    }
  }

  /** Indices 0 .. n - 1 inserted one at a time. */
  function SortPrefix(keys: seq<real>, n: nat): (r: seq<nat>)
    requires n <= |keys|
    ensures |r| == n && Indices(keys, r)
  {
    if n == 0 then [] else InsertByKey(keys, SortPrefix(keys, n - 1), n - 1)
  }

  lemma {:induction false} SortPrefixSorted(keys: seq<real>, n: nat)
    requires n <= |keys|
    ensures SortedBy(keys, SortPrefix(keys, n))
    ensures forall i: nat :: i in SortPrefix(keys, n) <==> i < n
  {
    if n > 0 {
      var x: nat := n - 1;
      var prev := SortPrefix(keys, x);
      SortPrefixSorted(keys, x);
      assert x !in prev;
      var r := InsertByKey(keys, prev, x);
      InsertAdds(keys, prev, x);
      InsertSorted(keys, prev, x);
      MembersOfInsert(keys, prev, x, r);
    }
  }

  lemma MembersOfInsert(keys: seq<real>, o: seq<nat>, x: nat, r: seq<nat>)
    requires multiset(r) == multiset(o) + multiset{x}
    ensures forall i :: i in r <==> i in o || i == x
  {
    forall i ensures i in r <==> i in o || i == x {
      assert i in r <==> i in multiset(r);
      assert i in o <==> i in multiset(o);
    }
  }

  /** `sorted(tasks, key=priority_score, reverse=True)` as task indices: every
      index exactly once, higher scores first, equal scores in their original
      order (Python's sort is stable under reverse=True). */
  function StableOrder(keys: seq<real>): (order: seq<nat>)
    ensures |order| == |keys| && Indices(keys, order)
  {
    SortPrefix(keys, |keys|)
  }

  /** The order visits every index exactly once, higher scores first and
      ties by position. */
  lemma StableOrderSorted(keys: seq<real>)
    ensures SortedBy(keys, StableOrder(keys))
    ensures forall i: nat :: i in StableOrder(keys) <==> i < |keys|
    ensures Distinct(StableOrder(keys))
  {
    SortPrefixSorted(keys, |keys|);
    SortedDistinct(keys, StableOrder(keys));
  }

  predicate Distinct(o: seq<nat>) {
    forall a, b :: 0 <= a < b < |o| ==> o[a] != o[b]
  }

  lemma SortedDistinct(keys: seq<real>, o: seq<nat>)
    requires SortedBy(keys, o)
    ensures Distinct(o)
  {
    forall a, b | 0 <= a < b < |o| ensures o[a] != o[b] {
      assert Precedes(keys, o[a], o[b]);
    }
  }

  // --------------------------------------------------------- eligibility

  function Names(all: seq<TaskInfo>): (names: seq<string>)
    ensures |names| == |all| && forall i :: 0 <= i < |all| ==> names[i] == all[i].name
  {
    seq(|all|, i requires 0 <= i < |all| => all[i].name)
  }

  /** A dependency is satisfied when the first task with that name (ignoring
      case) exists and is completed; a dangling name never is. */
  predicate DependencyDone(all: seq<TaskInfo>, dep: string) {
    match FindByName(Names(all), dep)
    case None => false
    case Some(i) => all[i].IsCompleted()
  }

  /** can_schedule: every dependency done. */
  function Ready(all: seq<TaskInfo>, deps: seq<string>): (r: bool)
    ensures r <==> forall k :: 0 <= k < |deps| ==> DependencyDone(all, deps[k])
  {
    if deps == [] then true
    else DependencyDone(all, deps[0]) && Ready(all, deps[1..])
  }

  /** A task the scheduler does not skip: not overdue (weekly plan only), not
      completed, and every dependency done. */
  predicate Eligible(all: seq<TaskInfo>, i: nat, today: int, skipOverdue: bool)
    requires i < |all|
  {
    (!skipOverdue || all[i].due >= today) && !all[i].IsCompleted() && Ready(all, all[i].dependencies)
  }

  /** Slots a task asks for: estimated - completed when eligible and
      positive, otherwise none. */
  function Want(all: seq<TaskInfo>, i: nat, today: int, skipOverdue: bool): nat
    requires i < |all|
  {
    if Eligible(all, i, today, skipOverdue) && all[i].estimated - all[i].completed > 0
    then all[i].estimated - all[i].completed
    else 0
  }

  // ------------------------------------------------------------- greedy

  function Min(a: int, b: int): int {
    if a <= b then a else b
  }

  function Repeat(x: nat, n: nat): (r: seq<nat>)
    ensures |r| == n && forall k :: 0 <= k < n ==> r[k] == x
  {
    seq(n, _ => x)
  }

  lemma {:induction false} RepeatMultiset(x: nat, n: nat)
    ensures multiset(Repeat(x, n))[x] == n
    ensures forall y :: y != x ==> multiset(Repeat(x, n))[y] == 0
  {
    if n > 0 {
      RepeatMultiset(x, n - 1);
      assert Repeat(x, n) == Repeat(x, n - 1) + [x];
    } else {
      assert Repeat(x, 0) == [];
    }
  }

  /** The first-fit pass over the visiting order: with the cursor at c, task
      i takes min(Want(i), n - c) consecutive slots. owner[k] is the task of
      slot k; slots are handed out strictly in timeline order. */
  function Greedy(all: seq<TaskInfo>, order: seq<nat>, n: nat, today: int, skipOverdue: bool): (owner: seq<nat>)
    requires forall k :: 0 <= k < |order| ==> order[k] < |all|
    ensures |owner| <= n
    ensures forall k :: 0 <= k < |owner| ==> owner[k] < |all|
  {
    if order == [] then []
    else
      var pre := order[..|order| - 1];
      var prev := Greedy(all, pre, n, today, skipOverdue);
      var i := order[|order| - 1];
      prev + Repeat(i, Min(Want(all, i, today, skipOverdue), n - |prev|))
  }

  /** Every slot goes to a task of the visiting order. */
  lemma {:induction false} GreedyOwners(all: seq<TaskInfo>, order: seq<nat>, n: nat, today: int, skipOverdue: bool)
    requires forall k :: 0 <= k < |order| ==> order[k] < |all|
    ensures forall k :: 0 <= k < |Greedy(all, order, n, today, skipOverdue)| ==> Greedy(all, order, n, today, skipOverdue)[k] in order
  {
    if order != [] {
      var pre := order[..|order| - 1];
      var prev := Greedy(all, pre, n, today, skipOverdue);
      GreedyOwners(all, pre, n, today, skipOverdue);
      var i := order[|order| - 1];
      var r := prev + Repeat(i, Min(Want(all, i, today, skipOverdue), n - |prev|));
      assert Greedy(all, order, n, today, skipOverdue) == r;
      forall k | 0 <= k < |r| ensures r[k] in order {
        if k < |prev| {
          assert prev[k] in pre;
        }
      }
    }
  }

  predicate InOrder(all: seq<TaskInfo>, order: seq<nat>) {
    (forall k :: 0 <= k < |order| ==> order[k] < |all|) && Distinct(order)
  }

  lemma PrefixInOrder(all: seq<TaskInfo>, order: seq<nat>, p: nat)
    requires InOrder(all, order) && p <= |order|
    ensures InOrder(all, order[..p])
  {
  }

  /** No task gets more slots than it asks for, so an ineligible task (one
      completed, blocked by a dependency, or skipped as overdue) gets none and
      every other task at most estimated - completed. */
  lemma {:induction false} GreedyAtMostWant(all: seq<TaskInfo>, order: seq<nat>, n: nat, today: int, skip: bool, i: nat)
    requires InOrder(all, order) && i < |all|
    ensures multiset(Greedy(all, order, n, today, skip))[i] <= Want(all, i, today, skip)
    ensures i !in order ==> multiset(Greedy(all, order, n, today, skip))[i] == 0
  {
    if order != [] {
      var pre := order[..|order| - 1];
      var last := order[|order| - 1];
      PrefixInOrder(all, order, |order| - 1);
      GreedyAtMostWant(all, pre, n, today, skip, i);
      var prev := Greedy(all, pre, n, today, skip);
      var take := Min(Want(all, last, today, skip), n - |prev|);
      RepeatMultiset(last, take);
      assert Greedy(all, order, n, today, skip) == prev + Repeat(last, take);
      var before: multiset<nat> := multiset(prev);
      var added: multiset<nat> := multiset(Repeat(last, take));
      assert multiset(prev + Repeat(last, take)) == before + added;
      if i == last {
        assert i !in pre;
        assert before[i] == 0;
      } else {
        assert added[i] == 0;
        assert i !in order ==> i !in pre;
      }
    }
  }

  /** First fit leaves no slot idle while work remains: if any slot is left
      over, every task in the order got everything it asked for. */
  lemma {:induction false} GreedyFull(all: seq<TaskInfo>, order: seq<nat>, n: nat, today: int, skip: bool)
    requires InOrder(all, order)
    requires |Greedy(all, order, n, today, skip)| < n
    ensures forall k :: 0 <= k < |order| ==>
      multiset(Greedy(all, order, n, today, skip))[order[k]] == Want(all, order[k], today, skip)
  {
    if order != [] {
      var pre := order[..|order| - 1];
      var last := order[|order| - 1];
      PrefixInOrder(all, order, |order| - 1);
      var prev := Greedy(all, pre, n, today, skip);
      var take := Min(Want(all, last, today, skip), n - |prev|);
      var g := prev + Repeat(last, take);
      assert Greedy(all, order, n, today, skip) == g;
      GreedyFull(all, pre, n, today, skip);
      GreedyAtMostWant(all, pre, n, today, skip, last);
      RepeatMultiset(last, take);
      forall k | 0 <= k < |order| ensures multiset(g)[order[k]] == Want(all, order[k], today, skip) {
        if k < |order| - 1 {
          assert order[k] == pre[k];
          assert order[k] != last;
        }
      }
    }
  }

  /** Each value of g occupies one contiguous run. */
  predicate Contiguous(g: seq<nat>) {
    forall a, b, c :: 0 <= a < c < b < |g| && g[a] == g[b] ==> g[c] == g[a]
  }

  lemma ContiguousAppend(prev: seq<nat>, x: nat, k: nat)
    requires Contiguous(prev) && x !in prev
    ensures Contiguous(prev + Repeat(x, k))
  {
    var g := prev + Repeat(x, k);
    forall a, b, c | 0 <= a < c < b < |g| && g[a] == g[b] ensures g[c] == g[a] {
      if b < |prev| {
        assert g[a] == prev[a] && g[b] == prev[b] && g[c] == prev[c];
      } else if a >= |prev| {
        assert g[a] == x && g[c] == x;
      }
    }
  }

  /** The owners of a pass all come from the order, so the last task of a
      repeat-free order owns nothing before its own turn. */
  lemma LastNotOwnedBefore(all: seq<TaskInfo>, order: seq<nat>, n: nat, today: int, skip: bool)
    requires InOrder(all, order) && order != []
    ensures order[|order| - 1] !in Greedy(all, order[..|order| - 1], n, today, skip)
  {
    var pre := order[..|order| - 1];
    var prev := Greedy(all, pre, n, today, skip);
    GreedyOwners(all, pre, n, today, skip);
    LastNotEarlier(order);
    forall k | 0 <= k < |prev| ensures prev[k] != order[|order| - 1] {
      assert prev[k] in pre;
    }
  }

  /** Each task's slots are one contiguous run. */
  lemma {:induction false} GreedyContiguous(all: seq<TaskInfo>, order: seq<nat>, n: nat, today: int, skip: bool)
    requires InOrder(all, order)
    ensures Contiguous(Greedy(all, order, n, today, skip))
  {
    if order != [] {
      var pre := order[..|order| - 1];
      var last := order[|order| - 1];
      PrefixInOrder(all, order, |order| - 1);
      GreedyContiguous(all, pre, n, today, skip);
      var prev := Greedy(all, pre, n, today, skip);
      var take := Min(Want(all, last, today, skip), n - |prev|);
      LastNotOwnedBefore(all, order, n, today, skip);
      ContiguousAppend(prev, last, take);
      assert Greedy(all, order, n, today, skip) == prev + Repeat(last, take);
    }
  }

  /** Position of x in the order. */
  function PosIn(order: seq<nat>, x: nat): (p: nat)
    requires x in order
    ensures p < |order| && order[p] == x && x !in order[..p]
  {
    if order[0] == x then 0 else 1 + PosIn(order[1..], x)
  }

  lemma PosInPrefix(order: seq<nat>, m: nat, x: nat)
    requires m <= |order| && x in order[..m]
    ensures PosIn(order[..m], x) == PosIn(order, x)
  {
    var p := PosIn(order[..m], x);
    assert order[..m][..p] == order[..p];
    PosInUnique(order, x, p);
  }

  /** The position of x is the only index holding x with no x before it. */
  lemma {:induction false} PosInUnique(order: seq<nat>, x: nat, p: nat)
    requires p < |order| && order[p] == x && x !in order[..p]
    ensures PosIn(order, x) == p
  {
    if p > 0 {
      assert order[..p][0] == order[0];
      assert order[1..][..p - 1] == order[..p][1..];
      PosInUnique(order[1..], x, p - 1);
    }
  }

  /** In an order without repeats the last task is not among the earlier ones. */
  lemma LastNotEarlier(order: seq<nat>)
    requires Distinct(order) && order != []
    ensures order[|order| - 1] !in order[..|order| - 1]
  {
  }

  /** Along g, positions in the order never decrease. */
  predicate FollowsOrder(order: seq<nat>, g: seq<nat>) {
    forall a, b :: 0 <= a < b < |g| && g[a] in order && g[b] in order ==> PosIn(order, g[a]) <= PosIn(order, g[b])
  }

  lemma FollowsAppend(order: seq<nat>, prev: seq<nat>, k: nat)
    requires Distinct(order) && order != []
    requires forall j :: 0 <= j < |prev| ==> prev[j] in order[..|order| - 1]
    requires FollowsOrder(order[..|order| - 1], prev)
    ensures FollowsOrder(order, prev + Repeat(order[|order| - 1], k))
  {
    var m := |order| - 1;
    var last := order[m];
    var g := prev + Repeat(last, k);
    LastNotEarlier(order);
    PosInUnique(order, last, m);
    forall a, b | 0 <= a < b < |g| && g[a] in order && g[b] in order
      ensures PosIn(order, g[a]) <= PosIn(order, g[b])
    {
      if a < |prev| {
        assert g[a] == prev[a];
        PosInPrefix(order, m, prev[a]);
        if b < |prev| {
          assert g[b] == prev[b];
          PosInPrefix(order, m, prev[b]);
        } else {
          assert g[b] == last;
        }
      } else {
        assert g[a] == last && g[b] == last;
      }
    }
  }

  /** Slots go to tasks in visiting order: along the timeline, the owners'
      positions in the order never decrease. */
  lemma {:induction false} GreedyFollowsOrder(all: seq<TaskInfo>, order: seq<nat>, n: nat, today: int, skip: bool)
    requires InOrder(all, order)
    ensures FollowsOrder(order, Greedy(all, order, n, today, skip))
  {
    if order != [] {
      var m := |order| - 1;
      var pre := order[..m];
      PrefixInOrder(all, order, m);
      GreedyFollowsOrder(all, pre, n, today, skip);
      var prev := Greedy(all, pre, n, today, skip);
      var take := Min(Want(all, order[m], today, skip), n - |prev|);
      GreedyOwners(all, pre, n, today, skip);
      FollowsAppend(order, prev, take);
      assert Greedy(all, order, n, today, skip) == prev + Repeat(order[m], take);
    }
  }

  /** Once the cursor has reached the end of the timeline, later tasks add
      nothing, so stopping the pass early gives the same plan. */
  lemma {:induction false} GreedyExhausted(all: seq<TaskInfo>, order: seq<nat>, p: nat, n: nat, today: int, skip: bool)
    requires forall k :: 0 <= k < |order| ==> order[k] < |all|
    requires p <= |order| && |Greedy(all, order[..p], n, today, skip)| == n
    ensures Greedy(all, order, n, today, skip) == Greedy(all, order[..p], n, today, skip)
    decreases |order| - p
  {
    if p == |order| {
      assert order[..p] == order;
    } else {
      var q := |order| - 1;
      var pre := order[..q];
      var g := Greedy(all, order[..p], n, today, skip);
      if p < q {
        assert pre[..p] == order[..p];
        GreedyExhausted(all, pre, p, n, today, skip);
        assert Greedy(all, pre, n, today, skip) == g;
      } else {
        assert pre == order[..p];
      }
      GreedyFrozen(all, order, n, today, skip);
      assert Greedy(all, order, n, today, skip) == Greedy(all, pre, n, today, skip);
    }
  }

  /** A pass whose cursor is already at the end gives the last task nothing. */
  lemma GreedyFrozen(all: seq<TaskInfo>, order: seq<nat>, n: nat, today: int, skip: bool)
    requires forall k :: 0 <= k < |order| ==> order[k] < |all|
    requires order != [] && |Greedy(all, order[..|order| - 1], n, today, skip)| == n
    ensures Greedy(all, order, n, today, skip) == Greedy(all, order[..|order| - 1], n, today, skip)
  {
    assert Repeat(order[|order| - 1], 0) == [];
  }

  /** The cut-off the scheduler's `break` relies on, for a pass known so far. */
  lemma StopEarly(all: seq<TaskInfo>, order: seq<nat>, p: nat, n: nat, today: int, skip: bool, owner: seq<nat>)
    requires forall k :: 0 <= k < |order| ==> order[k] < |all|
    requires p <= |order| && owner == Greedy(all, order[..p], n, today, skip) && |owner| == n
    ensures owner == Greedy(all, order, n, today, skip)
  {
    GreedyExhausted(all, order, p, n, today, skip);
  }

  /** The next step of the pass, as the loops in the scheduler take it. */
  lemma GreedyStep(all: seq<TaskInfo>, order: seq<nat>, p: nat, n: nat, today: int, skip: bool)
    requires forall k :: 0 <= k < |order| ==> order[k] < |all|
    requires p < |order|
    ensures Greedy(all, order[..p + 1], n, today, skip)
         == Greedy(all, order[..p], n, today, skip)
            + Repeat(order[p], Min(Want(all, order[p], today, skip), n - |Greedy(all, order[..p], n, today, skip)|))
  {
    assert order[..p + 1][..p] == order[..p];
  }

  /** Visiting a sorted order, the pass hands out slots in that order: any
      two different owners along the timeline appear in sorted order. */
  lemma GreedyDescending(all: seq<TaskInfo>, keys: seq<real>, order: seq<nat>, n: nat, today: int, skip: bool)
    requires InOrder(all, order) && SortedBy(keys, order)
    ensures var g := Greedy(all, order, n, today, skip);
      forall a, b :: 0 <= a < b < |g| && g[a] != g[b] ==> g[a] < |keys| && g[b] < |keys| && Precedes(keys, g[a], g[b])
  {
    GreedyFollowsOrder(all, order, n, today, skip);
    GreedyOwners(all, order, n, today, skip);
    var g := Greedy(all, order, n, today, skip);
    forall a, b | 0 <= a < b < |g| && g[a] != g[b]
      ensures g[a] < |keys| && g[b] < |keys| && Precedes(keys, g[a], g[b])
    {
      assert g[a] in order && g[b] in order;
      var pa := PosIn(order, g[a]);
      var pb := PosIn(order, g[b]);
      assert pa <= pb;
      assert pa != pb;
    }
  }

  // ------------------------------------------------------------ entries

  function MakeEntry(t: TaskInfo, s: Slot, score: real): Entry {
    Entry(t.name, s.start, s.end, PriorityLevel(score), Lower(t.category))
  }

  /** The schedule dictionaries: entry k occupies timeline slot k and belongs
      to task owner[k], labelled with that task's tier and lower-cased
      category. */
  function Entries(all: seq<TaskInfo>, owner: seq<nat>, timeline: seq<Slot>, keys: seq<real>): (es: seq<Entry>)
    ensures |es| == |owner|
  {
    seq(|owner|, k requires 0 <= k < |owner| => EntryAt(all, owner[k], timeline, k, keys))
  }

  /** Slot k given to task i. A pass only ever gives a slot of the timeline
      to a task of the list, so the last case does not arise in any plan. */
  function EntryAt(all: seq<TaskInfo>, i: nat, timeline: seq<Slot>, k: nat, keys: seq<real>): Entry {
    if i < |all| && i < |keys| && k < |timeline| then MakeEntry(all[i], timeline[k], keys[i])
    else Entry("", 0.0, 0.0, Low, "")
  }

  lemma EntriesSnoc(all: seq<TaskInfo>, owner: seq<nat>, i: nat, timeline: seq<Slot>, keys: seq<real>)
    requires |owner| < |timeline| && |keys| == |all| && i < |all|
    ensures Entries(all, owner + [i], timeline, keys)
         == Entries(all, owner, timeline, keys) + [MakeEntry(all[i], timeline[|owner|], keys[i])]
  {
  }

  // ------------------------------------------------------- daily plan

  function DailyOrder(all: seq<TaskInfo>, today: int): seq<nat> {
    StableOrder(ScoresOf(all, today, DefaultWeights))
  }

  function DailyOwners(all: seq<TaskInfo>, windows: seq<Window>, today: int): seq<nat> {
    Greedy(all, DailyOrder(all, today), |Timeline(windows)|, today, false)
  }

  /** generate_daily_schedule. */
  function DailyPlan(all: seq<TaskInfo>, windows: seq<Window>, today: int): seq<Entry> {
    Entries(all, DailyOwners(all, windows, today), Timeline(windows), ScoresOf(all, today, DefaultWeights))
  }

  /** The daily plan over a given timeline of the windows. */
  lemma DailyPass(all: seq<TaskInfo>, windows: seq<Window>, today: int, timeline: seq<Slot>)
    requires timeline == Timeline(windows)
    ensures var keys := ScoresOf(all, today, DefaultWeights);
      DailyPlan(all, windows, today) == Entries(all, Greedy(all, StableOrder(keys), |timeline|, today, false), timeline, keys)
  {
  }

  /** The daily plan's entries take timeline slots strictly in order, one
      each: entry k is slot k, so there are never more entries than slots and
      entry k names the task that owns slot k. */
  lemma DailySlots(all: seq<TaskInfo>, windows: seq<Window>, today: int)
    ensures var es := DailyPlan(all, windows, today);
      var tl := Timeline(windows);
      var owner := DailyOwners(all, windows, today);
      |es| <= |tl| &&
      forall k :: 0 <= k < |es| ==>
        es[k].start == tl[k].start && es[k].end == tl[k].end && es[k].task == all[owner[k]].name
  {
  }

  /** With ordered windows the daily plan never overlaps itself and stays
      inside the windows. */
  lemma DailyNoOverlap(all: seq<TaskInfo>, windows: seq<Window>, today: int)
    requires OrderedWindows(windows)
    ensures var es := DailyPlan(all, windows, today);
      (forall a, b :: 0 <= a < b < |es| ==> es[a].end <= es[b].start) &&
      (forall k :: 0 <= k < |es| ==>
         exists i :: 0 <= i < |windows| && windows[i].start <= es[k].start && es[k].end <= windows[i].end)
  {
    TimelineOrdered(windows);
    TimelineInsideWindows(windows);
    var es := DailyPlan(all, windows, today);
    var tl := Timeline(windows);
    forall k | 0 <= k < |es|
      ensures exists i :: 0 <= i < |windows| && windows[i].start <= es[k].start && es[k].end <= windows[i].end
    {
      var i :| 0 <= i < |windows| && InWindow(tl[k], windows[i]);
    }
  }

  lemma DailyOrderInOrder(all: seq<TaskInfo>, today: int)
    ensures InOrder(all, DailyOrder(all, today))
  {
    StableOrderSorted(ScoresOf(all, today, DefaultWeights));
  }

  /** Per task, the daily plan holds at most estimated - completed entries, in
      one contiguous run; completed and blocked tasks get none; when slots
      are left over, every task got all it asked for. */
  lemma DailyPerTask(all: seq<TaskInfo>, windows: seq<Window>, today: int, i: nat)
    requires i < |all|
    ensures var owner := DailyOwners(all, windows, today);
      multiset(owner)[i] <= Want(all, i, today, false) &&
      (all[i].IsCompleted() || !Ready(all, all[i].dependencies) ==> i !in owner) &&
      (|owner| < |Timeline(windows)| ==> multiset(owner)[i] == Want(all, i, today, false)) &&
      (forall a, b, c :: 0 <= a < c < b < |owner| && owner[a] == i && owner[b] == i ==> owner[c] == i)
  {
    var order := DailyOrder(all, today);
    var n := |Timeline(windows)|;
    DailyOrderInOrder(all, today);
    GreedyAtMostWant(all, order, n, today, false, i);
    GreedyContiguous(all, order, n, today, false);
    if |DailyOwners(all, windows, today)| < n {
      GreedyFull(all, order, n, today, false);
      StableOrderSorted(ScoresOf(all, today, DefaultWeights));
      assert i in order;
      var k := PosIn(order, i);
    }
  }

  /** Along the timeline the owners' scores never increase, and among equal
      scores the earlier task comes first. */
  lemma DailyDescending(all: seq<TaskInfo>, windows: seq<Window>, today: int)
    ensures var owner := DailyOwners(all, windows, today);
      var keys := ScoresOf(all, today, DefaultWeights);
      forall a, b :: 0 <= a < b < |owner| && owner[a] != owner[b] ==> Precedes(keys, owner[a], owner[b])
  {
    var keys := ScoresOf(all, today, DefaultWeights);
    var owner := DailyOwners(all, windows, today);
    DailyOrderInOrder(all, today);
    StableOrderSorted(keys);
    GreedyDescending(all, keys, DailyOrder(all, today), |Timeline(windows)|, today, false);
    assert owner == Greedy(all, DailyOrder(all, today), |Timeline(windows)|, today, false);
    assert forall a, b :: 0 <= a < b < |owner| && owner[a] != owner[b] ==> Precedes(keys, owner[a], owner[b]);
  }

  // ------------------------------------------------------ weekly plan

  /** The scores of day idx: each base score decayed by decay * idx. */
  function DayKeys(all: seq<TaskInfo>, today: int, decay: real, idx: nat): (keys: seq<real>)
    ensures |keys| == |all|
  {
    var base := ScoresOf(all, today, DefaultWeights);
    seq(|all|, i requires 0 <= i < |all| => Decayed(base[i], decay, idx))
  }

  function DayOrder(all: seq<TaskInfo>, today: int, decay: real, idx: nat): seq<nat> {
    StableOrder(DayKeys(all, today, decay, idx))
  }

  function DayOwners(all: seq<TaskInfo>, windows: seq<Window>, today: int, decay: real, idx: nat): seq<nat> {
    Greedy(all, DayOrder(all, today, decay, idx), |Timeline(windows)|, today, true)
  }

  /** One day of generate_weekly_schedule: the daily pass with decayed scores
      and overdue tasks skipped. Every day starts from the same stored
      completed counts. */
  function DayPlan(all: seq<TaskInfo>, windows: seq<Window>, today: int, decay: real, idx: nat): seq<Entry> {
    Entries(all, DayOwners(all, windows, today, decay, idx), Timeline(windows), DayKeys(all, today, decay, idx))
  }

  function WindowsFor(days: map<int, seq<Window>>, d: int): seq<Window> {
    if d in days then days[d] else []
  }

  /** The plan of the day at offset j from today, for every offset. */
  function DayPlans(all: seq<TaskInfo>, days: map<int, seq<Window>>, today: int, decay: real): nat -> seq<Entry> {
    (j: nat) => DayPlan(all, WindowsFor(days, today + j), today, decay, j)
  }

  lemma DayPlanAt(all: seq<TaskInfo>, days: map<int, seq<Window>>, today: int, decay: real, j: nat)
    ensures DayPlans(all, days, today, decay)(j) == DayPlan(all, WindowsFor(days, today + j), today, decay, j)
  {
  }

  /** Day today + j mapped to plan(j) for j < k, added one day at a time. */
  function WeekMap(today: int, plan: nat -> seq<Entry>, k: nat): map<int, seq<Entry>> {
    if k == 0 then map[]
    else WeekMap(today, plan, k - 1)[today + k - 1 := plan(k - 1)]
  }

  lemma {:induction false} WeekMapDays(today: int, plan: nat -> seq<Entry>, k: nat)
    ensures forall d :: d in WeekMap(today, plan, k) <==> today <= d < today + k
    ensures forall j: nat :: j < k ==> WeekMap(today, plan, k)[today + j] == plan(j)
  {
    if k > 0 {
      WeekMapDays(today, plan, k - 1);
    }
  }

  lemma WeekMapStep(today: int, plan: nat -> seq<Entry>, k: nat, w: map<int, seq<Entry>>, x: seq<Entry>)
    requires w == WeekMap(today, plan, k) && x == plan(k)
    ensures w[today + k := x] == WeekMap(today, plan, k + 1)
  {
  }

  /** generate_weekly_schedule: the seven days today .. today + 6. */
  function WeeklyPlan(all: seq<TaskInfo>, days: map<int, seq<Window>>, today: int, decay: real): map<int, seq<Entry>> {
    WeekMap(today, DayPlans(all, days, today, decay), 7)
  }

  /** The week has exactly the keys today .. today + 6, and day today + j
      holds the plan of offset j. */
  lemma WeeklyDays(all: seq<TaskInfo>, days: map<int, seq<Window>>, today: int, decay: real)
    ensures forall d :: d in WeeklyPlan(all, days, today, decay) <==> today <= d < today + 7
    ensures forall j: nat :: j < 7 ==> WeeklyPlan(all, days, today, decay)[today + j] == DayPlans(all, days, today, decay)(j)
  {
    WeekMapDays(today, DayPlans(all, days, today, decay), 7);
  }

  /** A day with no free windows, in particular one missing from the
      availability map, gets an empty schedule. */
  lemma EmptyDay(all: seq<TaskInfo>, days: map<int, seq<Window>>, today: int, decay: real, j: nat)
    requires today + j !in days
    ensures DayPlans(all, days, today, decay)(j) == []
  {
    assert WindowsFor(days, today + j) == [];
    assert |DayOwners(all, [], today, decay, j)| == 0;
    assert |DayPlan(all, [], today, decay, j)| == 0;
  }

  lemma DayOrderInOrder(all: seq<TaskInfo>, today: int, decay: real, idx: nat)
    ensures InOrder(all, DayOrder(all, today, decay, idx))
  {
    StableOrderSorted(DayKeys(all, today, decay, idx));
  }

  /** On every day a task gets at most estimated - completed slots, counted
      from the stored completed count: the week does not track what earlier
      days allotted, so on a day with slots left over every task that is not
      overdue gets its whole remainder again, in one contiguous run. An
      overdue, completed or blocked task gets none. */
  lemma DayPerTask(all: seq<TaskInfo>, windows: seq<Window>, today: int, decay: real, idx: nat, i: nat)
    requires i < |all|
    ensures var owner := DayOwners(all, windows, today, decay, idx);
      multiset(owner)[i] <= Want(all, i, today, true) &&
      (all[i].due < today || all[i].IsCompleted() || !Ready(all, all[i].dependencies) ==> i !in owner) &&
      (all[i].estimated - all[i].completed <= 0 ==> i !in owner) &&
      (|owner| < |Timeline(windows)| ==> multiset(owner)[i] == Want(all, i, today, true)) &&
      (forall a, b, c :: 0 <= a < c < b < |owner| && owner[a] == i && owner[b] == i ==> owner[c] == i)
  {
    var order := DayOrder(all, today, decay, idx);
    var n := |Timeline(windows)|;
    DayOrderInOrder(all, today, decay, idx);
    GreedyAtMostWant(all, order, n, today, true, i);
    GreedyContiguous(all, order, n, today, true);
    if |DayOwners(all, windows, today, decay, idx)| < n {
      GreedyFull(all, order, n, today, true);
      StableOrderSorted(DayKeys(all, today, decay, idx));
      assert i in order;
      var k := PosIn(order, i);
    }
  }

  /** Nothing carries over between days, whatever the decay: on any two days
      that leave slots over, a task gets the same number of slots. */
  lemma NoCarryOver(all: seq<TaskInfo>, w1: seq<Window>, w2: seq<Window>, today: int, decay: real,
                    idx1: nat, idx2: nat, i: nat)
    requires i < |all|
    requires |DayOwners(all, w1, today, decay, idx1)| < |Timeline(w1)|
    requires |DayOwners(all, w2, today, decay, idx2)| < |Timeline(w2)|
    ensures multiset(DayOwners(all, w1, today, decay, idx1))[i] == multiset(DayOwners(all, w2, today, decay, idx2))[i]
  {
    DayPerTask(all, w1, today, decay, idx1, i);
    DayPerTask(all, w2, today, decay, idx2, i);
  }

  /** Nothing carries over between days: every day plans from the same
      stored session counts. The equality needs the decay to be 0, since
      with a positive decay day idx uses different scores and so may visit
      the tasks in a different order. */
  lemma SameWindowsSameDay(all: seq<TaskInfo>, windows: seq<Window>, today: int, i1: nat, i2: nat)
    ensures DayPlan(all, windows, today, 0.0, i1) == DayPlan(all, windows, today, 0.0, i2)
  {
    assert DayKeys(all, today, 0.0, i1) == DayKeys(all, today, 0.0, i2);
  }
}
