# Pomodoro task planner — a Dafny model of its core

The planner keeps a list of study tasks. Each task has:

- a name and a category;
- an estimate of 25-minute sessions ("pomodoros") and a count of those done;
- a status ("not started", "in progress", "completed"), plus start, due and end dates;
- the names of the tasks it depends on.

It also keeps a session log of rows (date, category, count).

This project models the planner's engine:

- **The task lifecycle.** A session raises the count by one and may complete the task. `add_task` refuses past due dates and duplicate names (ignoring case). `delete_task` removes the task named. `log_pomodoro` records a session on a task and appends one log row.
- **The `tasks.csv` row of a task.** This includes the comma-joined dependency field and its round trip.
- **The priority calculator.** The score is a weighted sum of urgency (days to the due date), importance (a fixed table by category) and effort (the estimate), and it maps to three levels.
- **The dependency gate.** A task can be scheduled only when every dependency names a completed task.
- **Two greedy schedulers.**
  - Availability windows are cut into half-hour slots.
  - Tasks are visited in descending score, with equal scores kept in list order.
  - A cursor hands each eligible task up to `estimated - completed` consecutive slots, first come, first served.
  - The weekly plan does this for seven days, with scores decayed per day. It skips overdue tasks and restores the stored scores at the end.
- **The weekly summary of the session log.** It counts per day and per category over the seven days ending today.
- **The availability parser.** It reads text such as `"9-12, 15-20"` as unavailable hours, clips them to the 9–22 working day, sorts them and sweeps a cursor to produce the free windows. It does this for one day and for the seven days from today.
- **The arithmetic of the weekly dashboard.** This covers the chart values, their running total, and the N/P/Q page cursor over three pages.

## Modelling decisions

**Modules:**

- `Text`: the string operations Python supplies. These are ASCII `lower`, `strip`, `split`, `join` and `int()`.
- `Tasks`: the `Task` class, its row, and lookup by name.
- `Priority`: scores and levels.
- `Schedule`: the scheduling rules as functions.
- `Summary`: the log aggregation.
- `Manager`: the `TaskManager` class, whose methods carry out those rules and are proved equal to them.
- `Availability`: the free-window parser.
- `Charts`: the dashboard arithmetic.

**State:**

- `Task` is a class. Its session count, status, end date and score are mutable fields; everything else is `const`.
- `TaskManager` holds `tasks: seq<Task>` and `log: seq<LogRow>`. The log is the in-memory form of `count_pomodoro.csv`.

**Inputs:**

- Dates are integer day numbers, and "today" is a parameter.
- The lines typed at `input()` are parameters: one string per day, or the list of commands.

**Arithmetic:**

- Scores, weights, decay and slot times are exact reals.
- Python's `%` with a positive divisor agrees with Dafny's, so page 0 moves back to page 2.

**A plan as a value:**

- `owner[k]` is the index of the task that receives timeline slot `k`.
- `Schedule.Greedy` is the first-fit pass, written as a fold over the visiting order.
- `Schedule.StableOrder` is the stable descending order.
- The methods `Manager.TaskManager.GenerateDailySchedule` and `GenerateWeeklySchedule` run the loops and are proved to return `DailyPlan` and `WeeklyPlan`.

**Free windows as a value:**

- `Availability.Answers(raw, w)` says that `w` is a list of sorted, disjoint, non-touching windows inside 9–22.
- It also says they cover an hour `h` exactly when no accepted interval of `raw` covers `h`.
- `AnswerUnique` shows that at most one list meets this, so the contract determines the result.

**The manager's invariant:** `Manager.TaskManager.Valid()` requires that no two tasks share a name, ignoring case.

- `add_task` maintains it. The constructor establishes it, and every method keeps it.
- The operations that look a task up by name require it.
- Loading `tasks.csv` is the only way the source could break it, and loading is not modelled.

**Two behaviours of the code worth knowing:**

- The urgency of an overdue task is not capped. `max(0, 10 - days)` gives `10 + d` for a task overdue by `d` days (see `Priority.UrgencyOverdue`).
- `add_task` does not check the estimate; only the interactive menu does. `Manager.TaskManager.AddTask` accepts any estimate.

## Model

| member | source | states |
|---|---|---|
| Text.Trim | task.py:47 | the result is the input with the leading and trailing whitespace of one set removed, and is empty only when the input is all such whitespace. `Strip` (str.strip()) uses space, tab, line feed, vertical tab, form feed, carriage return and 0x1C..0x1F; `ParseInt` (int()) uses the first six only |
| Text.StripTwice | task.py:47 | stripping twice is stripping once |
| Text.SeparatorsOnlyStripped | visualization.py:19-20 | 0x1C..0x1F are whitespace to str.strip() but not to int(): "\x1f9" strips to "9" and "12\x1c" to "12", while int("12\x1c") is a ValueError |
| Text.Split | task.py:47 | the pieces contain no separator and joining them with the separator gives the input back |
| Text.SplitJoin | task.py:41 | splitting a join of separator-free parts recovers the parts |
| Text.FieldsJoin | task.py:46-47 | reading back a comma-joined list of non-empty, comma-free, stripped names gives the same list |
| Text.FieldsNormal | task.py:46-47 | a dependency list read once is a fixed point of writing and reading again |
| Text.LowerIdempotent | task.py:133 | lower-casing twice equals lower-casing once |
| Text.ParseInt | task.py:379 | int() succeeds exactly when the text, once the whitespace int() skips is trimmed (not 0x1C..0x1F), is an optional sign followed by at least one digit |
| Text.ParseIntStrip | visualization.py:19-20 | whenever int(s) succeeds, int(s.strip()) gives the same value; the converse fails (see SeparatorsOnlyStripped) |
| Text.ParseShowInt | task.py:379 | int() reads back every integer written in decimal, including the count 1 that log_pomodoro writes |
| Tasks.Task.constructor | task.py:6-16 | the new task holds the given fields, a missing start date becomes today, and the score is 0 |
| Tasks.Task.IsCompleted | task.py:28-29 | a task is completed iff its status is "completed"; by AddPomodoro's contract this holds after a session exactly when the count reaches the estimate |
| Tasks.Task.MarkCompleted | task.py:18-20 | the status becomes completed and the end date becomes today |
| Tasks.Task.AddPomodoro | task.py:22-26 | the count rises by exactly one; the task is completed (end date today) iff the count reaches the estimate, otherwise it is in progress with its end date unchanged |
| Tasks.AfterPomodoro | task.py:22-26 | the same rule on task values, and no other field changes |
| Tasks.PomodoroFinishes | task.py:25-26 | the last missing session completes a task, a task already at its estimate stays completed, and a task still short is in progress |
| Tasks.Task.FromDict | task.py:44-60 | the task read from a row has the row's fields and its dependencies are the non-empty stripped comma pieces |
| Tasks.Task.ToDict | task.py:31-42 | the row of the task's current state; RowRoundTrip shows from_dict reads it back to the same task |
| Tasks.RowOf | task.py:31-42 | to_dict on task values, dependencies comma-joined; RowRoundTrip is its partner |
| Tasks.InfoOfRow | task.py:44-60 | from_dict on task values, dependencies split, stripped and emptied pieces dropped, a missing start date becoming today; RowRoundTrip and ReadDependenciesSafe are its partners |
| Tasks.RowRoundTrip | task.py:31-60 | from_dict(to_dict(t)) == t whenever each dependency name is non-empty, comma-free and stripped |
| Tasks.ReadDependenciesSafe | task.py:46-47 | every dependency list read from a row is safe, so every later save and load is exact |
| Tasks.CommaInNameSplits | task.py:41 | a dependency name containing a comma comes back as two names |
| Tasks.FindByName | task.py:131-135 | the first position whose name equals the key ignoring case; None iff no name does |
| Priority.Urgency | task.py:200-201 | the urgency term is never negative |
| Priority.Importance | task.py:205-206 | the importance is always one of 10, 8, 4, 2 or 5; ImportanceIgnoresCase is its partner |
| Priority.Score | task.py:210-214 | the weighted sum calculate_priorities stores; DefaultScore states its properties with the default weights |
| Priority.UrgencyOverdue | task.py:200-201 | overdue by d days gives 10 + d, due in ten or more days gives 0, otherwise 0..10 |
| Priority.ImportanceIgnoresCase | task.py:205-206 | the importance of a category equals that of its lower-cased form and is one of 10, 8, 4, 2, 5 |
| Priority.StudyIsDefault | task.py:205-206 | "study" falls back to 5, and "Exam" scores 10 |
| Priority.DefaultScore | task.py:194-214 | with the default weights a later due date never raises the score, and a non-negative estimate scores at least 0.8 |
| Priority.LevelMonotone | task.py:181-190 | a higher score never gets a lower level (thresholds 7 and 4) |
| Priority.PriorityLevel | task.py:181-190 | the level is High iff the score is at least 7, Medium iff it lies in [4, 7), Low iff it is below 4 |
| Priority.Decayed | task.py:293 | the decayed score is never negative |
| Priority.DecayExample | task.py:293 | base 10, decay 0.1 gives 7 on day 3 |
| Priority.DecayKeepsOrder | task.py:293 | while the decay factor lies in 0..1, decay keeps the order of two scores and never raises a non-negative score |
| Summary.CategoryOf | task.py:376-384 | the category counted is one of the five keys, and anything except "other" is the stripped, lower-cased category of the row |
| Summary.CategoryOfKnown | task.py:383-384 | each of the five keys is counted under itself |
| Summary.UnknownIsOther | task.py:383-384 | an unknown category is counted as "other" |
| Summary.CountOf | task.py:378-381 | the count column read with int(), an unreadable or missing count counting 0; CountOfWritten is its partner |
| Summary.CountOfWritten | task.py:378-381 | a count written in decimal reads back as itself, and a missing or unreadable count (such as "one", or "12\x1c", which int() rejects) adds nothing |
| Summary.TallyDay | task.py:364-386 | one more row adds its count to its own day when it is dated in the week and changes nothing otherwise |
| Summary.TallyCategory | task.py:364-387 | one more row adds its count to its own category when it is dated in the week and changes nothing otherwise |
| Summary.SumDaysIsWeekTotal | task.py:392 | the sum of the seven per-day counts is the count of every row dated in the week |
| Summary.SumCategoriesIsWeekTotal | task.py:352-387 | the five category counts add up to the same week total |
| Summary.SummaryConsistent | task.py:346-401 | the window is today-6..today, per_day has exactly those keys and by_category exactly the five keys, total = sum of per_day = sum of by_category, and focus_minutes = 25 total |
| Summary.SummaryOf | task.py:346-401 | the summary weekly_summary returns, as a value; SummaryConsistent states its invariants and OutsideRowsIgnored its window |
| Summary.OutsideRowsIgnored | task.py:365-374 | a row with no readable date, or dated outside the week, changes nothing in the summary |
| Schedule.SlotCount | task.py:236-239 | the window holds the largest number of half-hour slots that fit in it; a remainder under half an hour is dropped |
| Schedule.WholeHourSlots | task.py:235-239 | a window of whole hours lo..hi holds 2(hi - lo) slots |
| Schedule.TimelineInsideWindows | task.py:234-239 | every slot lasts half an hour and lies inside one of the windows |
| Schedule.TimelineOrdered | task.py:234-239 | for windows in order, the slots are in order and never overlap |
| Schedule.BuildTimeline | task.py:234-239 | the nested while loops produce exactly Timeline(windows) |
| Schedule.Timeline | task.py:234-239 | the in-order concatenation of each window's half-hour slots; TimelineInsideWindows and TimelineOrdered are its partners |
| Schedule.InsertAdds | task.py:232 | inserting into the order is a permutation step |
| Schedule.InsertSorted | task.py:232 | inserting a new index into a sorted order keeps it sorted |
| Schedule.SortPrefixSorted | task.py:232 | sorting the first n indices gives exactly those indices, in descending score with ties in list order |
| Schedule.StableOrderSorted | task.py:232 | the visiting order is a permutation of all task indices, in descending score with stable ties |
| Schedule.StableOrder | task.py:232 | every position of the order names a task, and there is one per task; StableOrderSorted states that it is the stable descending order |
| Schedule.Ready | task.py:216-222 | a task can be scheduled iff each dependency names a task (ignoring case) whose first match is completed |
| Schedule.Eligible | task.py:244-247 | a task is visited unless it is completed or blocked by a dependency (and, in the weekly plan, unless it is overdue); DailyPerTask and DayPerTask are its partners |
| Schedule.Want | task.py:249-251 | an eligible task asks for estimated - completed slots when that is positive, otherwise none; GreedyAtMostWant and GreedyFull are its partners |
| Schedule.Greedy | task.py:241-266 | the first-fit pass never uses more slots than the timeline has and only assigns known tasks |
| Schedule.GreedyOwners | task.py:243-263 | every slot goes to a task of the visiting order |
| Schedule.GreedyAtMostWant | task.py:249-263 | a task gets at most estimated - completed slots, and none unless it is eligible and visited |
| Schedule.GreedyFull | task.py:253-266 | when slots are left over, every visited task got all it wanted |
| Schedule.GreedyContiguous | task.py:253-263 | each task's slots are consecutive |
| Schedule.GreedyFollowsOrder | task.py:243-263 | slots are handed out in visiting order: a later task never gets an earlier slot |
| Schedule.GreedyExhausted | task.py:265-266 | once the timeline is full, the tasks that come after change nothing, as the break does |
| Schedule.GreedyStep | task.py:243-263 | visiting one more task appends min(want, slots left) copies of it |
| Schedule.GreedyDescending | task.py:232-263 | across different tasks, earlier slots go to higher scores, or to earlier tasks on a tie |
| Schedule.DailySlots | task.py:253-262 | the daily plan has at most one entry per slot, and entry k takes slot k of the timeline together with its owner's name |
| Schedule.DailyNoOverlap | task.py:224-262 | for windows in order, entries never overlap and each lies inside one window |
| Schedule.DailyPerTask | task.py:243-263 | per task: at most estimated - completed entries, none when it is completed or blocked by a dependency, all it wants when slots remain, and consecutive |
| Schedule.DailyDescending | task.py:232-263 | across different tasks the plan follows descending score with stable ties |
| Schedule.DailyPlan | task.py:224-268 | the daily schedule as a value; DailySlots, DailyNoOverlap, DailyPerTask and DailyDescending state its properties |
| Schedule.DayPlan | task.py:292-338 | the plan of day idx as a value; DayPerTask and SameWindowsSameDay state its properties |
| Schedule.WeeklyPlan | task.py:270-343 | the weekly schedule as a value; WeeklyDays and EmptyDay state its keys and days |
| Schedule.WeekMapDays | task.py:279-282 | the map filled over k days has exactly the keys today..today+k-1 |
| Schedule.WeeklyDays | task.py:278-338 | the weekly plan has exactly the keys today..today+6, and day j is the plan for day j |
| Schedule.EmptyDay | task.py:282 | a day missing from the input has no windows and an empty plan |
| Schedule.DayPerTask | task.py:306-336 | on each day an overdue, completed or blocked task gets no entry, a task with nothing remaining gets none, none gets more than estimated - completed, each task's entries are one run, and on a day with slots left over every task not overdue gets exactly its whole estimated - completed |
| Schedule.NoCarryOver | task.py:319-333 | whatever the decay, two days that both leave slots over give a task the same number of slots: no day subtracts what an earlier day allotted |
| Schedule.SameWindowsSameDay | task.py:319-321 | with the decay set to 0, two days with the same windows get the same plan: every day plans from the same stored session counts and nothing carries over (with a positive decay the scores, and so the order, differ by day) |
| Manager.TaskManager.constructor | task.py:67-69 | an empty task list over the given session log, which satisfies the invariant |
| Manager.TaskManager.GetTaskByName | task.py:131-135 | returns the first task whose name equals the query ignoring case, else None |
| Manager.TaskManager.CanSchedule | task.py:216-222 | the loop answers exactly Ready(tasks, dependencies) |
| Manager.TaskManager.DependencyMet | task.py:219-221 | one dependency is met iff the task it names exists and is completed; the lookup changes no task |
| Manager.TaskManager.CalculatePriorities | task.py:193-214 | every task's score becomes Score of its own due date, category and estimate, and nothing else changes; so calling it twice with the same today gives the same scores |
| Manager.TaskManager.AddTask | task.py:91-108 | a missing date, a past due date or a duplicate name (ignoring case) is refused and leaves the list unchanged; otherwise exactly one fresh task is appended at the end, not started, with 0 sessions and start date today |
| Manager.TaskManager.Append | task.py:105 | the task is appended at the end and the invariant is kept |
| Manager.TaskManager.DeleteTask | task.py:111-129 | the task get_task_by_name finds is removed and the rest keep their order; an unknown name returns false and changes nothing |
| Manager.TaskManager.RemoveAt | task.py:117 | the list loses exactly its element at position k |
| Manager.TaskManager.LogPomodoro | task.py:157-178 | a known name gives that task one more session and appends one row (today, lower-cased category, 1); no other task changes; an unknown name returns false and changes nothing |
| Manager.TaskManager.SessionOn | task.py:162 | add_pomodoro on the found task changes that task and no other |
| Manager.TaskManager.TodaysPomodoroCount | task.py:140-154 | the sum of the counts of the log rows dated today |
| Manager.TaskManager.WeeklySummary | task.py:346-401 | the summary returned is SummaryOf(log, today) |
| Manager.TaskManager.TallyLog | task.py:360-387 | per_day holds each day's total for exactly the seven days, and by_category each of the five categories' week total |
| Manager.TaskManager.TallyRow | task.py:364-387 | one row of the loop keeps the tallies equal to those of the rows read so far |
| Manager.TaskManager.ZeroDays | task.py:350 | the seven days of the window, each at 0 |
| Manager.TaskManager.AssignSlots | task.py:241-266 | the cursor loop returns exactly the entries of Greedy over the visiting order and the timeline |
| Manager.TaskManager.PassStep | task.py:243-266 | one visit of the pass extends the plan for order[..p] to the plan for order[..p+1] |
| Manager.TaskManager.VisitTask | task.py:244-263 | the continue checks and the inner loop give task i min(want, slots left) more slots |
| Manager.TaskManager.TakeSlots | task.py:253-263 | the inner loop gives task i min(remaining, slots left) consecutive slots and advances the cursor by as many |
| Manager.TaskManager.GenerateDailySchedule | task.py:224-268 | the schedule is DailyPlan of the tasks and windows; the scores are left as calculate_priorities sets them and nothing else changes |
| Manager.TaskManager.BaseScores | task.py:276 | base_scores maps each task's name to its current score |
| Manager.TaskManager.DecayScores | task.py:292-293 | each task's score becomes max(0, base (1 - decay idx)) for day idx |
| Manager.TaskManager.DaySchedule | task.py:292-338 | one day of the loop yields the plan of that day |
| Manager.TaskManager.PlanWeek | task.py:285-338 | the seven-day loop yields WeeklyPlan |
| Manager.TaskManager.RestoreScores | task.py:340-341 | every score is back to its base score |
| Manager.TaskManager.GenerateWeeklySchedule | task.py:270-343 | the result is WeeklyPlan of the tasks and days; on return every score equals its base score; no task state changes |
| Availability.ParsePart | visualization.py:13-20 | a part is accepted iff it has a dash and both sides of its first dash, each stripped, are integers, and then it is exactly that pair; any other part is skipped |
| Availability.StripBeforeInt | visualization.py:18-20 | "9-12\x1c" is accepted as (9, 12): the strip before int() removes the separator that int() alone would reject |
| Availability.ParsePrinted | visualization.py:17-20 | a pair written as "a-b" (a natural, b any integer) parses back to (a, b) |
| Availability.ParsesPair | visualization.py:17-20 | "9-12" parses to 9..12 |
| Availability.SplitAtFirstDash | visualization.py:18-20 | "8-10-12" is split at its first dash, and "10-12" is not an integer, so the part is skipped |
| Availability.Parts | visualization.py:8-12 | every part is non-empty, has no surrounding whitespace and holds no comma |
| Availability.Requested | visualization.py:12-28 | at most one interval per part, and exactly one per part when every part parses; RequestedAppend and SkippedPart state that it keeps the parsable parts in order |
| Availability.Clip | visualization.py:22-26 | a kept interval lies inside 9..22 and covers exactly the hours of the day that the typed one covers; a dropped one covers no hour of the day |
| Availability.ClipAllWithin | visualization.py:22-26 | every kept interval lies inside 9..22 |
| Availability.ClipAllCovers | visualization.py:22-26 | within the day, the kept intervals cover exactly the hours the typed intervals cover |
| Availability.KeptCovers | visualization.py:12-28 | within the day, the unavailable list covers exactly the hours of the parsable parts |
| Availability.RequestedAppend | visualization.py:12 | each part is parsed on its own: the parts of a concatenation are the parts of each half |
| Availability.SkippedPart | visualization.py:13-28 | a part with no dash or non-integer ends is skipped and the other parts are still read |
| Availability.InsertPermutes | visualization.py:31 | insertion keeps the multiset of intervals |
| Availability.InsertSorts | visualization.py:31 | insertion into a sorted list keeps it sorted by (start, end) |
| Availability.SortSpansCorrect | visualization.py:31 | the sort is a permutation, sorted by (start, end) |
| Availability.SortSpans | visualization.py:31 | list.sort on the intervals; SortSpansCorrect states that it is a sorted permutation |
| Availability.SortKeepsCover | visualization.py:31 | sorting does not change which hours are covered |
| Availability.SortKeepsWithin | visualization.py:31 | sorting keeps every interval inside the day |
| Availability.GapFree | visualization.py:36-37 | appending the gap before the next interval keeps the windows sorted, disjoint and non-touching, and adds exactly the hours of the gap |
| Availability.SweepStep | visualization.py:35-38 | one step of the sweep keeps its invariant: the windows so far are the complement of the intervals so far, up to the cursor |
| Availability.SweepEnd | visualization.py:40-41 | the final window from the cursor to 22 completes the complement, and no intervals leave only 9..22 |
| Availability.Sweep | visualization.py:33-41 | the free windows are sorted, disjoint, non-touching and inside 9..22, and cover an hour exactly when no unavailable interval does |
| Availability.KeptStep | visualization.py:17-26 | one part adds its clipped interval, or nothing |
| Availability.CollectUnavailable | visualization.py:10-28 | the parse loop returns exactly the kept intervals of the parts |
| Availability.DailyAvailability | visualization.py:6-43 | the windows returned answer the typed text (free windows forming the complement of the accepted intervals), and they are exactly 9..22 when nothing is kept |
| Availability.Answers | visualization.py:33-43 | the windows are sorted, disjoint, non-touching and inside 9..22 and cover an hour exactly when no parsable part does; AnswerUnique states that it fixes the windows |
| Availability.WeekStep | visualization.py:56-91 | filling one more day keeps the week map correct for the days so far |
| Availability.WeeklyAvailability | visualization.py:47-93 | the keys are exactly today..today+6, and each day's windows answer that day's text by the same rule |
| Availability.FreeWindowsUniqueFrom | visualization.py:33-41 | two lists of sorted, disjoint, non-touching windows that cover the same hours are equal |
| Availability.AnswerUnique | visualization.py:6-43 | at most one list of windows answers a given text |
| Availability.NothingTypedWholeDay | visualization.py:11-41 | empty or wholly invalid text yields exactly [9..22] |
| Charts.Cumulative | visualization.py:111-115 | cumulative[i] is the sum of values[0..i] |
| Charts.RunningTotal | visualization.py:111-115 | on the list Cumulative returns, the first point is the first value, each later point is the previous one plus its own value, and the last point is the sum of all values |
| Charts.RunningTotalRises | visualization.py:111-115 | with no negative values the running total never falls |
| Charts.Sum | visualization.py:174 | Python's sum(); Cumulative and RunningTotal are its partners |
| Charts.DayValuesOfLog | visualization.py:108-109 | for the summary of a log, the per-day chart has seven bars and bar i is the number of sessions logged on day today - 6 + i |
| Charts.CategoryValuesOfLog | visualization.py:105-106 | for the summary of a log, the category chart has five bars and bar i is the week's sessions of the i-th of study, exam, assignment, reading, other |
| Charts.ChartsMatchSummary | visualization.py:106-115 | for a summary of a log, the day values and the category values each add up to the summary's total |
| Charts.PieDrawnIffSessions | visualization.py:174 | the pie is drawn exactly when the week has a session |
| Charts.NextPage | visualization.py:194-195 | N keeps the page in 0..2 |
| Charts.PrevPage | visualization.py:197-198 | P keeps the page in 0..2 |
| Charts.PagesInverse | visualization.py:194-198 | N and P undo each other, P from page 0 goes to page 2, and N from page 2 goes to page 0 |
| Charts.NextIgnoresCaseAndSpace | visualization.py:193-195 | " N " is read as the N command |
| Charts.QuitWithNewline | visualization.py:193-201 | "Q" followed by a line feed is read as the Q command |
| Charts.WordIsNoCommand | visualization.py:193-203 | a whole word such as "next" is no command and only prints a message |
| Charts.KeyOfStrip | visualization.py:193 | surrounding whitespace never changes the command a line gives |
| Charts.KeyOf | visualization.py:193-203 | the command a typed line gives after strip and lower; KeyOfStrip is its partner |
| Charts.Moves | visualization.py:192-203 | the net N/P moves before the first Q, never more than one page per command; MovesSnoc and MovesStopAtQuit are its partners |
| Charts.MovesSnoc | visualization.py:194-199 | one more command before any Q adds its move |
| Charts.MovesStopAtQuit | visualization.py:200-201 | commands after the first Q change nothing |
| Charts.BrowseStep | visualization.py:194-203 | one turn of the loop moves the page as the net moves modulo 3 say |
| Charts.Browse | visualization.py:192-203 | the page is always in 0..2 and equals the net N/P moves before the first Q modulo 3; the loop quits iff a Q was typed |

## Left out

- File and CSV I/O are not modelled: `_load_tasks`, `save_tasks`, the header written by `delete_task`, the log append and the file reads. The task list and the log are in-memory sequences, and a log row is a record whose date, category and count may be missing.
- `date.today()` and `date.fromisoformat` are not modelled. Dates are day numbers, today is a parameter, and an unreadable due date in `add_task` is `None`.
- Float rounding is not modelled. Weights 0.4/0.4/0.2, the decay 0.1 and slot times are exact reals, so a rounding effect on a threshold or on tie order is not captured.
- Text.Trim, and so Text.Strip, removes ASCII whitespace only. Python's `str.strip()` also removes non-ASCII whitespace such as U+00A0 and U+2003; the model keeps those characters.
- Text.ParseInt accepts only ASCII digits with an optional sign. Python's `int()` also accepts digit separators such as `1_0`, non-ASCII digits, and non-ASCII surrounding whitespace; the model rejects these.
- Text.Lower lower-cases ASCII letters only. Python's `str.lower()` also lower-cases non-ASCII letters.
- Summary.CountOf: a `None` count is a column absent from the header and counts 0. A short CSV row, whose missing cells `csv.DictReader` fills with `None`, makes `int(None)` raise an uncaught `TypeError` in `weekly_summary` (task.py:379) and `get_todays_pomodoro_count` (task.py:151); the model does not capture that crash.
- Summary.CategoryOf: a `None` category is a column absent from the header and counts as "other". On a short CSV row `None.strip()` raises an uncaught `AttributeError` (task.py:376); the model does not capture that crash.
- Manager.TaskManager.DeleteTask requires `Valid()` (no two names equal ignoring case). The source's first-match lookup and `list.remove` do not need it; every state the model can reach meets it.
- Manager.TaskManager.LogPomodoro requires `Valid()` for the same reason. The source updates the first task whose name matches, which needs no uniqueness.
- The message strings and console prints are not modelled. `add_task` gives an `AddResult` and the other operations give a boolean; the warnings for invalid availability parts or commands are omitted.
- The weekly branch `current_day < today or current_day > end_day` (task.py:288-290) is left out. It cannot be taken: the seven keys are today..today+6.
- The empty-due-date branch of `calculate_priorities` (task.py:199-203) is left out. Due dates are always present day numbers.
- The weekly scheduler's `except Exception: pass` around the due-date parse (task.py:311-312) is left out, as dates are always readable.
- A partial `weights` dictionary, which would raise `KeyError` in the source, is not modelled. `Weights` always has all three fields.
- Manager.TaskManager.GenerateWeeklySchedule requires `Valid()`. With two tasks of the same name, which only a hand-edited `tasks.csv` could produce, `base_scores` would give both the last one's score; that case is not modelled.
- Manager.TaskManager.TodaysPomodoroCount compares day numbers. The source strips the date text before comparing it with today's ISO text; the model keeps no text form that could differ. A short row with no count cell makes the source raise (see Summary.CountOf).
- Schedule.EntryAt gives a placeholder entry for a slot index past the timeline. No plan ever produces one.
- `list.sort` and `sorted` are modelled by pure insertion-sort functions on sequences (`SortSpans`, `StableOrder`) rather than in place.
- Charts.Browse reads the commands from a finite list and stops at its end. The source would block waiting for more input.
- Drawing is not modelled: `render_page`, the average and trend lines, `plot_schedule` and `plot_weekly_schedule`.
- timer.py (a countdown with `time.sleep`) and main.py (the interactive menu) are not part of this model.
