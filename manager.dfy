/** TaskManager of task.py: the task list and the session log held in memory,
    the operations that change them, and the two schedulers, each proved equal
    to the function that defines it in Schedule or Summary. */
module Manager {
  import opened Text
  import opened Tasks
  import opened Priority
  import opened Schedule
  import opened Summary

  /** The outcome of add_task: success, or the reason for refusing. */
  datatype AddResult = Added | InvalidDate | PastDue | Duplicate

  /** The snapshots of a list of tasks, in order. */
  function ViewOf(ts: seq<Task>): (v: seq<TaskInfo>)
    reads ts`completed, ts`status, ts`endDate
    ensures |v| == |ts| && forall i :: 0 <= i < |ts| ==> v[i] == ts[i].Info()
  {
    if ts == [] then [] else ViewOf(ts[..|ts| - 1]) + [ts[|ts| - 1].Info()]
  }

  /** The stored priority scores of a list of tasks, in order. */
  function ScoresOfTasks(ts: seq<Task>): (v: seq<real>)
    reads ts`priorityScore
    ensures |v| == |ts| && forall i :: 0 <= i < |ts| ==> v[i] == ts[i].priorityScore
  {
    if ts == [] then [] else ScoresOfTasks(ts[..|ts| - 1]) + [ts[|ts| - 1].priorityScore]
  }

  class TaskManager {
    var tasks: seq<Task>
    /** The rows of count_pomodoro.csv. */
    var log: seq<LogRow>

    /** No two tasks share a name ignoring case, as add_task guarantees. */
    predicate Valid()
      reads this`tasks
    {
      forall i, j :: 0 <= i < j < |tasks| ==> Lower(tasks[i].name) != Lower(tasks[j].name)
    }

    /** A manager with no stored tasks over an existing session log. */
    constructor (log: seq<LogRow>)
      ensures tasks == [] && this.log == log && Valid()
    {
      tasks := [];
      this.log := log;
    }

    function TaskNames(): (names: seq<string>)
      reads this`tasks
      ensures |names| == |tasks| && forall i :: 0 <= i < |tasks| ==> names[i] == tasks[i].name
    {
      var ts := tasks;
      seq(|ts|, i requires 0 <= i < |ts| => ts[i].name)
    }

    function View(): seq<TaskInfo>
      reads this`tasks, tasks`completed, tasks`status, tasks`endDate
    {
      ViewOf(tasks)
    }

    function Scores(): seq<real>
      reads this`tasks, tasks`priorityScore
    {
      ScoresOfTasks(tasks)
    }

    lemma NamesOfView()
      ensures Names(View()) == TaskNames()
    {
    }

    /** Different names ignoring case mean different objects. */
    lemma Distinct(i: nat, j: nat)
      requires Valid() && i < |tasks| && j < |tasks| && i != j
      ensures tasks[i] != tasks[j]
    {
      if i < j {
        assert Lower(tasks[i].name) != Lower(tasks[j].name);
      } else {
        assert Lower(tasks[j].name) != Lower(tasks[i].name);
      }
    }

    /** get_task_by_name: the first task whose name equals name ignoring case. */
    method GetTaskByName(name: string) returns (r: Option<Task>)
      ensures r.None? <==> FindByName(TaskNames(), name).None?
      ensures r.Some? ==> r.value == tasks[FindByName(TaskNames(), name).value]
    {
      for i := 0 to |tasks|
        invariant forall j :: 0 <= j < i ==> Lower(tasks[j].name) != Lower(name)
      {
        if Lower(tasks[i].name) == Lower(name) {
          assert Lower(TaskNames()[i]) == Lower(name);
          assert FindByName(TaskNames(), name) == Some(i);
          return Some(tasks[i]);
        }
      }
      return None;
    }

    /** can_schedule: every dependency names a task (ignoring case) that is
        completed. */
    method CanSchedule(t: Task) returns (ok: bool)
      ensures ok == Ready(View(), t.dependencies)
    {
      ghost var all := View();
      var deps := t.dependencies;
      for k := 0 to |deps|
        invariant View() == all
        invariant forall j :: 0 <= j < k ==> DependencyDone(all, deps[j])
      {
        var done := DependencyMet(deps[k], all);
        if !done {
          return false;
        }
      }
      return true;
    }

    /** One dependency of can_schedule: it names a stored task, and the first
        such task is completed. */
    method DependencyMet(dep: string, ghost all: seq<TaskInfo>) returns (done: bool)
      requires all == View()
      ensures done == DependencyDone(all, dep)
      ensures all == View()
    {
      var found := GetTaskByName(dep);
      NamesOfView();
      done := found.Some? && found.value.IsCompleted();
    }

    /** calculate_priorities: every task's score from its due date, category
        and estimate; `weights or default` picks the default weights when none
        are given. Nothing but the scores changes. */
    method CalculatePriorities(weights: Option<Weights>, today: int)
      modifies tasks`priorityScore
      ensures Scores() == ScoresOf(View(), today, weights.GetOr(DefaultWeights))
      ensures View() == old(View())
    {
      var w := weights.GetOr(DefaultWeights);
      for i := 0 to |tasks|
        invariant forall k :: 0 <= k < i ==>
          tasks[k].priorityScore == Score(tasks[k].due, tasks[k].category, tasks[k].estimated, today, w)
      {
        var t := tasks[i];
        t.priorityScore := Score(t.due, t.category, t.estimated, today, w);
      }
    }

    /** add_task: an unreadable or past due date is refused first, then a name
        already present ignoring case; otherwise one new task is appended, not
        started, with no sessions done and today as its start date. */
    method AddTask(name: string, category: string, estimated: int, due: Option<int>,
                   dependencies: seq<string>, today: int) returns (res: AddResult)
      requires Valid()
      modifies this`tasks
      ensures Valid()
      ensures due.None? ==> res == InvalidDate
      ensures due.Some? && due.value < today ==> res == PastDue
      ensures due.Some? && due.value >= today && FindByName(old(TaskNames()), name).Some? ==> res == Duplicate
      ensures res != Added ==> tasks == old(tasks)
      ensures res == Added <==> due.Some? && due.value >= today && FindByName(old(TaskNames()), name).None?
      ensures res == Added ==>
        |tasks| == |old(tasks)| + 1 && tasks[..|old(tasks)|] == old(tasks) && fresh(tasks[|tasks| - 1]) &&
        View() == old(View()) + [TaskInfo(name, category, estimated, 0, due.value, NotStarted, today, None, dependencies)] &&
        tasks[|tasks| - 1].priorityScore == 0.0
    {
      if due.None? {
        return InvalidDate;
      }
      if due.value < today {
        return PastDue;
      }
      ghost var before := View();
      var existing := GetTaskByName(name);
      if existing.Some? {
        return Duplicate;
      }
      var t := new Task(name, category, estimated, due.value, 0, NotStarted, None, None, dependencies, today);
      assert View() == before;
      Append(t);
      assert View() == before + [t.Info()];
      return Added;
    }

    /** tasks.append(t) for a task whose name is new ignoring case. */
    method Append(t: Task)
      requires Valid() && forall i :: 0 <= i < |tasks| ==> Lower(tasks[i].name) != Lower(t.name)
      modifies this`tasks
      ensures Valid() && tasks == old(tasks) + [t]
      ensures View() == old(View()) + [t.Info()]
    {
      ghost var before := tasks;
      tasks := tasks + [t];
      assert tasks[..|before|] == before;
    }

    /** delete_task: the task get_task_by_name finds is removed and the rest
        keep their order; an unknown name changes nothing. */
    method DeleteTask(name: string) returns (ok: bool)
      requires Valid()
      modifies this`tasks
      ensures Valid()
      ensures ok <==> FindByName(old(TaskNames()), name).Some?
      ensures ok ==>
        var i := FindByName(old(TaskNames()), name).value;
        tasks == old(tasks[..i] + tasks[i + 1..])
      ensures !ok ==> tasks == old(tasks)
    {
      var found := GetTaskByName(name);
      if found.None? {
        return false;
      }
      var t := found.value;
      ghost var i := FindByName(TaskNames(), name).value;
      // list.remove: the first element that is this very object
      forall j | 0 <= j < i ensures tasks[j] != t {
        Distinct(j, i);
      }
      var k := 0;
      while tasks[k] != t
        invariant 0 <= k <= i
        decreases i - k
      {
        k := k + 1;
      }
      RemoveAt(k);
      return true;
    }

    /** The list without its element at position k. */
    method RemoveAt(k: nat)
      requires Valid() && k < |tasks|
      modifies this`tasks
      ensures Valid() && tasks == old(tasks[..k] + tasks[k + 1..])
    {
      ghost var before := tasks;
      tasks := tasks[..k] + tasks[k + 1..];
      assert forall a, b :: 0 <= a < b < |tasks| ==>
        tasks[a] == before[if a < k then a else a + 1] && tasks[b] == before[if b < k then b else b + 1];
    }

    /** log_pomodoro without the file writes: a known task gets one more
        session and one row (today, lower-cased category, 1) is appended to
        the log; nothing else changes. An unknown name changes nothing. */
    method LogPomodoro(name: string, today: int) returns (ok: bool)
      requires Valid()
      modifies this`log, tasks`completed, tasks`status, tasks`endDate
      ensures tasks == old(tasks) && Valid()
      ensures ok <==> FindByName(TaskNames(), name).Some?
      ensures !ok ==> View() == old(View()) && log == old(log)
      ensures ok ==>
        var i := FindByName(TaskNames(), name).value;
        View() == old(View())[i := AfterPomodoro(old(View())[i], today)] &&
        log == old(log) + [LogRow(Some(today), Some(Lower(tasks[i].category)), Some(ShowInt(1)))]
    {
      ghost var before := View();
      var found := GetTaskByName(name);
      if found.None? {
        return false;
      }
      var t := found.value;
      ghost var i := FindByName(TaskNames(), name).value;
      SessionOn(t, i, today);
      assert View() == before[i := AfterPomodoro(before[i], today)];
      log := log + [LogRow(Some(today), Some(Lower(t.category)), Some(ShowInt(1)))];
      return true;
    }

    /** t.add_pomodoro() on the task at position i; no other task changes,
        as no other task is the same object. */
    method SessionOn(t: Task, ghost i: nat, today: int)
      requires Valid() && i < |tasks| && tasks[i] == t
      modifies t`completed, t`status, t`endDate
      ensures View() == old(View())[i := AfterPomodoro(old(View())[i], today)]
    {
      t.AddPomodoro(today);
      forall k | 0 <= k < |tasks| && k != i ensures tasks[k] != t {
        Distinct(k, i);
      }
    }

    /** get_todays_pomodoro_count over the log: the sessions recorded today,
        rows with an unreadable count adding nothing. */
    method TodaysPomodoroCount(today: int) returns (total: int)
      ensures total == DayTotal(log, today)
    {
      total := 0;
      for i := 0 to |log|
        invariant total == DayTotal(log[..i], today)
      {
        assert log[..i + 1][..i] == log[..i];
        var row := log[i];
        if row.date == Some(today) {
          match row.pomodoros
          case None =>
          case Some(s) =>
            var n := ParseInt(s);
            if n.Some? {
              total := total + n.value;
            }
        }
      }
      assert log[..|log|] == log;
    }

    /** weekly_summary over the log: per-day and per-category sums for the
        seven days ending today, their total and the focus minutes. */
    method WeeklySummary(today: int) returns (s: WeekSummary)
      ensures s == SummaryOf(log, today)
    {
      var start := today - 6;
      var perDay, byCategory := TallyLog(today);
      var total := 0;
      for k := 0 to 7
        invariant total == SumDays(log, start, k)
      {
        total := total + perDay[start + k];
      }
      s := WeekSummary(start, today, total, total * 25, perDay, byCategory);
    }

    /** The loop over the log rows: a row without a readable date, or dated
        outside the week, is skipped; any other row adds its count to its day
        and to its category, an unknown category counting as "other". */
    method TallyLog(today: int) returns (perDay: map<int, int>, byCategory: map<string, int>)
      ensures perDay == map d | today - 6 <= d <= today :: DayTotal(log, d)
      ensures byCategory == map c | c in Categories :: CategoryTotal(log, today, c)
    {
      perDay := ZeroDays(today - 6, 7);
      byCategory := map c | c in Categories :: 0;
      for i := 0 to |log|
        invariant Tallied(log[..i], today, perDay, byCategory)
      {
        assert log[..i + 1] == log[..i] + [log[i]];
        perDay, byCategory := TallyRow(log[..i], log[i], today, perDay, byCategory);
      }
      assert log[..|log|] == log;
    }

    /** One row of the loop over the log. */
    static method TallyRow(done: seq<LogRow>, row: LogRow, today: int, perDay: map<int, int>, byCategory: map<string, int>)
      returns (perDay': map<int, int>, byCategory': map<string, int>)
      requires Tallied(done, today, perDay, byCategory)
      ensures Tallied(done + [row], today, perDay', byCategory')
    {
      TallyDay(done, row, today, perDay);
      TallyCategory(done, row, today, byCategory);
      perDay', byCategory' := perDay, byCategory;
      if row.date.None? {
        return;
      }
      var d := row.date.value;
      if d > today {
        return;
      }
      if d < today - 6 {
        return;
      }
      var category := CategoryOf(row);
      var n := CountOf(row);
      perDay' := perDay[d := perDay[d] + n];
      byCategory' := byCategory[category := byCategory[category] + n];
    }

    /** The per_day dictionary before any row: the days start .. start + k - 1,
        each at 0. */
    static method ZeroDays(start: int, k: nat) returns (perDay: map<int, int>)
      ensures forall d :: d in perDay <==> start <= d < start + k
      ensures forall d :: d in perDay ==> perDay[d] == 0
    {
      perDay := map[];
      for j := 0 to k
        invariant forall d :: d in perDay <==> start <= d < start + j
        invariant forall d :: d in perDay ==> perDay[d] == 0
      {
        perDay := perDay[start + j := 0];
      }
    }

    /** The first-fit pass both schedulers run over a visiting order and a
        timeline, with overdue tasks skipped when skipOverdue is set. */
    method AssignSlots(order: seq<nat>, timeline: seq<Slot>, today: int, skipOverdue: bool,
                       ghost all: seq<TaskInfo>, ghost keys: seq<real>)
      returns (schedule: seq<Entry>)
      requires all == View() && keys == Scores()
      requires forall k :: 0 <= k < |order| ==> order[k] < |tasks|
      ensures schedule == Entries(all, Greedy(all, order, |timeline|, today, skipOverdue), timeline, keys)
    {
      ghost var owner: seq<nat> := [];
      schedule := [];
      var slot := 0;
      for p := 0 to |order|
        invariant View() == all && Scores() == keys
        invariant owner == Greedy(all, order[..p], |timeline|, today, skipOverdue)
        invariant slot == |owner| && schedule == Entries(all, owner, timeline, keys)
      {
        var filled;
        schedule, slot, owner, filled := PassStep(order, p, timeline, today, skipOverdue, slot, owner, schedule, all, keys);
        if filled && slot >= |timeline| {
          StopEarly(all, order, p + 1, |timeline|, today, skipOverdue, owner);
          break;
        }
      }
      assert order[..|order|] == order;
    }

    /** The pass after visiting order[p], from the pass over order[..p]. */
    method PassStep(order: seq<nat>, p: nat, timeline: seq<Slot>, today: int, skipOverdue: bool, slot: nat,
                    ghost owner: seq<nat>, schedule: seq<Entry>, ghost all: seq<TaskInfo>, ghost keys: seq<real>)
      returns (schedule': seq<Entry>, slot': nat, ghost owner': seq<nat>, filled: bool)
      requires all == View() && keys == Scores()
      requires forall k :: 0 <= k < |order| ==> order[k] < |tasks|
      requires p < |order| && owner == Greedy(all, order[..p], |timeline|, today, skipOverdue)
      requires slot == |owner| && schedule == Entries(all, owner, timeline, keys)
      ensures owner' == Greedy(all, order[..p + 1], |timeline|, today, skipOverdue)
      ensures slot' == |owner'| && schedule' == Entries(all, owner', timeline, keys)
    {
      GreedyStep(all, order, p, |timeline|, today, skipOverdue);
      schedule', slot', owner', filled := VisitTask(order[p], timeline, today, skipOverdue, slot, owner, schedule, all, keys);
    }

    /** One iteration of the pass over task i: the `continue` checks in
        source order (overdue when skipping, completed, blocked, nothing
        remaining), then the slots it takes; filled says it was not skipped. */
    method VisitTask(i: nat, timeline: seq<Slot>, today: int, skipOverdue: bool, slot: nat,
                     ghost owner: seq<nat>, schedule: seq<Entry>, ghost all: seq<TaskInfo>, ghost keys: seq<real>)
      returns (schedule': seq<Entry>, slot': nat, ghost owner': seq<nat>, filled: bool)
      requires all == View() && keys == Scores()
      requires i < |tasks| && slot == |owner| <= |timeline|
      requires forall k :: 0 <= k < |owner| ==> owner[k] < |tasks|
      requires schedule == Entries(all, owner, timeline, keys)
      ensures owner' == owner + Repeat(i, Min(Want(all, i, today, skipOverdue), |timeline| - slot))
      ensures slot' == |owner'| && schedule' == Entries(all, owner', timeline, keys)
    {
      var t := tasks[i];
      assert all[i] == t.Info();
      assert owner + Repeat(i, 0) == owner;
      schedule', slot', owner', filled := schedule, slot, owner, false;
      if skipOverdue && t.due < today {
        return;
      }
      if t.IsCompleted() {
        return;
      }
      var ready := CanSchedule(t);
      if !ready {
        return;
      }
      var remaining := t.estimated - t.completed;
      if remaining <= 0 {
        return;
      }
      schedule', slot', owner' := TakeSlots(i, timeline, remaining, slot, owner, schedule, all, keys);
      filled := true;
    }

    /** The inner loop of the pass: task i takes consecutive slots from the
        cursor until its remaining count is used up or the timeline ends. */
    method TakeSlots(i: nat, timeline: seq<Slot>, remaining: int, slot: nat,
                     ghost owner: seq<nat>, schedule: seq<Entry>, ghost all: seq<TaskInfo>, ghost keys: seq<real>)
      returns (schedule': seq<Entry>, slot': nat, ghost owner': seq<nat>)
      requires all == View() && keys == Scores()
      requires i < |tasks| && slot == |owner| <= |timeline| && remaining > 0
      requires forall k :: 0 <= k < |owner| ==> owner[k] < |tasks|
      requires schedule == Entries(all, owner, timeline, keys)
      ensures owner' == owner + Repeat(i, Min(remaining, |timeline| - slot)) && slot' == |owner'|
      ensures schedule' == Entries(all, owner', timeline, keys)
    {
      var t := tasks[i];
      assert all[i] == t.Info() && keys[i] == t.priorityScore;
      var left := remaining;
      schedule', slot', owner' := schedule, slot, owner;
      while left > 0 && slot' < |timeline|
        invariant slot <= slot' <= |timeline|
        invariant left == remaining - (slot' - slot)
        invariant owner' == owner + Repeat(i, slot' - slot) && slot' == |owner'|
        invariant schedule' == Entries(all, owner', timeline, keys)
        decreases left
      {
        EntriesSnoc(all, owner', i, timeline, keys);
        schedule' := schedule' + [Entry(t.name, timeline[slot'].start, timeline[slot'].end,
                                        PriorityLevel(t.priorityScore), Lower(t.category))];
        owner' := owner' + [i];
        slot' := slot' + 1;
        left := left - 1;
        assert Repeat(i, slot' - slot) == Repeat(i, slot' - 1 - slot) + [i];
      }
    }

    /** generate_daily_schedule: scores are recalculated, tasks visited by
        score (stable, highest first), slots handed out first-fit. */
    method GenerateDailySchedule(windows: seq<Window>, today: int) returns (schedule: seq<Entry>)
      modifies tasks`priorityScore
      ensures schedule == DailyPlan(View(), windows, today)
      ensures View() == old(View())
      ensures Scores() == ScoresOf(View(), today, DefaultWeights)
    {
      CalculatePriorities(None, today);
      ghost var all := View();
      ghost var keys := Scores();
      var order := StableOrder(Scores());
      var timeline := BuildTimeline(windows);
      schedule := AssignSlots(order, timeline, today, false, all, keys);
      DailyPass(all, windows, today, timeline);
    }

    /** generate_weekly_schedule: for each of the seven days from today, the
        daily pass with every base score decayed by decay * idx and overdue
        tasks skipped; the base scores are restored at the end. */
    method GenerateWeeklySchedule(days: map<int, seq<Window>>, today: int, decay: real)
      returns (weekly: map<int, seq<Entry>>)
      requires Valid()
      modifies tasks`priorityScore
      ensures weekly == WeeklyPlan(View(), days, today, decay)
      ensures View() == old(View())
      ensures Scores() == ScoresOf(View(), today, DefaultWeights)
    {
      CalculatePriorities(None, today);
      ghost var baseKeys := Scores();
      var base := BaseScores();
      weekly := PlanWeek(days, base, baseKeys, today, decay);
      RestoreScores(base, baseKeys);
    }

    /** The seven-day loop of generate_weekly_schedule. */
    method PlanWeek(days: map<int, seq<Window>>, base: map<string, real>, ghost baseKeys: seq<real>,
                    today: int, decay: real)
      returns (weekly: map<int, seq<Entry>>)
      requires baseKeys == ScoresOf(View(), today, DefaultWeights)
      requires forall k :: 0 <= k < |tasks| ==> tasks[k].name in base && base[tasks[k].name] == baseKeys[k]
      modifies tasks`priorityScore
      ensures View() == old(View())
      ensures |Scores()| == |tasks|
      ensures weekly == WeeklyPlan(View(), days, today, decay)
    {
      ghost var all := View();
      weekly := map[];
      for idx := 0 to 7
        invariant View() == all
        invariant forall k :: 0 <= k < |tasks| ==> tasks[k].name in base && base[tasks[k].name] == baseKeys[k]
        invariant weekly == WeekMap(today, DayPlans(all, days, today, decay), idx)
      {
        var daySchedule := DaySchedule(days, base, baseKeys, today, decay, idx, all);
        WeekMapStep(today, DayPlans(all, days, today, decay), idx, weekly, daySchedule);
        weekly := weekly[today + idx := daySchedule];
      }
    }

    /** One pass of the weekly loop: scores decayed for day idx, then the
        daily pass over that day's windows with overdue tasks skipped. */
    method DaySchedule(days: map<int, seq<Window>>, base: map<string, real>, ghost baseKeys: seq<real>,
                       today: int, decay: real, idx: nat, ghost all: seq<TaskInfo>)
      returns (daySchedule: seq<Entry>)
      requires all == View() && baseKeys == ScoresOf(all, today, DefaultWeights)
      requires forall k :: 0 <= k < |tasks| ==> tasks[k].name in base && base[tasks[k].name] == baseKeys[k]
      modifies tasks`priorityScore
      ensures View() == old(View())
      ensures daySchedule == DayPlans(all, days, today, decay)(idx)
    {
      DecayScores(base, baseKeys, today, decay, idx);
      var timeline := BuildTimeline(WindowsFor(days, today + idx));
      ghost var keys := Scores();
      var order := StableOrder(Scores());
      daySchedule := AssignSlots(order, timeline, today, true, all, keys);
      DayPlanAt(all, days, today, decay, idx);
    }

    /** base_scores: each task's name mapped to its current score. */
    method BaseScores() returns (base: map<string, real>)
      requires Valid()
      ensures forall k :: 0 <= k < |tasks| ==> tasks[k].name in base && base[tasks[k].name] == Scores()[k]
    {
      base := map[];
      for i := 0 to |tasks|
        invariant forall k :: 0 <= k < i ==> tasks[k].name in base && base[tasks[k].name] == Scores()[k]
      {
        forall k | 0 <= k < i ensures tasks[k].name != tasks[i].name {
          assert Lower(tasks[k].name) != Lower(tasks[i].name);
        }
        base := base[tasks[i].name := tasks[i].priorityScore];
      }
    }

    /** The scores of day idx: max(0, base * (1 - decay * idx)). The source's
        default of 0 for a name missing from base is unreachable, since base
        holds every task's name. */
    method DecayScores(base: map<string, real>, ghost baseKeys: seq<real>, today: int, decay: real, idx: nat)
      requires baseKeys == ScoresOf(View(), today, DefaultWeights)
      requires forall k :: 0 <= k < |tasks| ==> tasks[k].name in base && base[tasks[k].name] == baseKeys[k]
      modifies tasks`priorityScore
      ensures View() == old(View())
      ensures Scores() == DayKeys(View(), today, decay, idx)
    {
      for k := 0 to |tasks|
        invariant forall j :: 0 <= j < k ==> tasks[j].priorityScore == Decayed(baseKeys[j], decay, idx)
      {
        var t := tasks[k];
        t.priorityScore := Decayed(base[t.name], decay, idx);
      }
      assert |Scores()| == |tasks|;
    }

    /** The closing loop: every score back to base_scores.get(name, score). */
    method RestoreScores(base: map<string, real>, ghost baseKeys: seq<real>)
      requires |baseKeys| == |tasks|
      requires forall k :: 0 <= k < |tasks| ==> tasks[k].name in base && base[tasks[k].name] == baseKeys[k]
      modifies tasks`priorityScore
      ensures View() == old(View())
      ensures Scores() == baseKeys
    {
      for k := 0 to |tasks|
        invariant forall j :: 0 <= j < k ==> tasks[j].priorityScore == baseKeys[j]
      {
        var t := tasks[k];
        t.priorityScore := base[t.name];
      }
    }
  }
}
