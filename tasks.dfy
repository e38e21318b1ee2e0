/** The Task entity of task.py: its lifecycle (a completed session raises the
    count and may complete the task), its row in tasks.csv, and lookup of a
    task by name ignoring case. Dates are day numbers. */
module Tasks {
  import opened Text

  const NotStarted: string := "not started"
  const InProgress: string := "in progress"
  const Completed: string := "completed"

  /** The state of one task at one moment, as the scheduler sees it
      (everything except the transient priority score). */
  datatype TaskInfo = TaskInfo(
    name: string,
    category: string,
    estimated: int,
    completed: int,
    due: int,
    status: string,
    startDate: int,
    endDate: Option<int>,
    dependencies: seq<string>)
  {
    predicate IsCompleted() {
      status == Completed
    }
  }

  /** One row of tasks.csv as to_dict writes it; the dependency list is a
      single comma-joined field and a missing start date reads as None. */
  datatype Row = Row(
    taskName: string,
    category: string,
    estimated: int,
    completed: int,
    status: string,
    startDate: Option<int>,
    due: int,
    endDate: Option<int>,
    dependencies: string)

  /** to_dict. */
  function RowOf(t: TaskInfo): Row {
    Row(t.name, t.category, t.estimated, t.completed, t.status, Some(t.startDate),
        t.due, t.endDate, Join(t.dependencies, ','))
  }

  /** from_dict followed by the constructor's defaulting of the start date. */
  function InfoOfRow(r: Row, today: int): TaskInfo {
    TaskInfo(r.taskName, r.category, r.estimated, r.completed, r.due, r.status,
             r.startDate.GetOr(today), r.endDate, Fields(r.dependencies))
  }

  /** Dependency names that survive the comma-joined field: each non-empty,
      comma-free and without surrounding whitespace. */
  predicate SafeDependencies(deps: seq<string>) {
    forall k :: 0 <= k < |deps| ==> FieldSafe(deps[k])
  }

  /** Writing a task and reading it back gives the same task, provided its
      dependency names are safe for the comma-joined field. */
  lemma RowRoundTrip(t: TaskInfo, today: int)
    requires SafeDependencies(t.dependencies)
    ensures InfoOfRow(RowOf(t), today) == t
  {
    FieldsJoin(t.dependencies);
  }

  /** A dependency list read from a row is always safe, so after one save and
      load every later round trip is exact. */
  lemma ReadDependenciesSafe(r: Row, today: int)
    ensures SafeDependencies(InfoOfRow(r, today).dependencies)
    ensures InfoOfRow(RowOf(InfoOfRow(r, today)), today) == InfoOfRow(r, today)
  {
    RowRoundTrip(InfoOfRow(r, today), today);
  }

  /** A dependency name with a comma in it comes back as two names. */
  lemma CommaInNameSplits()
    ensures Fields(Join(["a,b"], ',')) == ["a", "b"]
  {
    var s := Join(["a,b"], ',');
    assert s == "a,b";
    assert IndexOf(s, ',') == 1;
    assert s[..1] == "a" && s[2..] == "b";
    assert ',' !in "b";
    assert Split("b", ',') == ["b"];
    assert Split(s, ',') == ["a", "b"];
    StripStripped("a");
    StripStripped("b");
  }

  /** One finished session on a task: the count rises by exactly one; the
      task becomes completed, ending today, exactly when the count reaches the
      estimate, and is otherwise in progress with its end date untouched.
      Nothing else about the task changes. */
  function AfterPomodoro(t: TaskInfo, today: int): (r: TaskInfo)
    ensures r.completed == t.completed + 1
    ensures r.IsCompleted() <==> r.completed >= t.estimated
    ensures r.completed >= t.estimated ==> r.endDate == Some(today)
    ensures r.completed < t.estimated ==> r.status == InProgress && r.endDate == t.endDate
    ensures r.(completed := t.completed, status := t.status, endDate := t.endDate) == t
  {
    var c := t.completed + 1;
    if c >= t.estimated then t.(completed := c, status := Completed, endDate := Some(today))
    else t.(completed := c, status := InProgress)
  }

  /** A task needing one more session is completed by it; a task already
      completed stays completed. */
  lemma PomodoroFinishes(t: TaskInfo, today: int)
    ensures t.completed + 1 == t.estimated ==> AfterPomodoro(t, today).IsCompleted()
    ensures t.completed >= t.estimated ==> AfterPomodoro(t, today).IsCompleted()
    ensures t.completed + 1 < t.estimated ==> AfterPomodoro(t, today).status == InProgress
  {
  }

  class Task {
    const name: string
    const category: string
    const estimated: int
    const due: int
    const startDate: int
    const dependencies: seq<string>
    var completed: int
    var status: string
    var endDate: Option<int>
    var priorityScore: real

    /** __init__: a missing start date becomes today; the score starts at 0. */
    constructor (name: string, category: string, estimated: int, due: int, completed: int,
                 status: string, startDate: Option<int>, endDate: Option<int>,
                 dependencies: seq<string>, today: int)
      ensures Info() == TaskInfo(name, category, estimated, completed, due, status,
                                 startDate.GetOr(today), endDate, dependencies)
      ensures priorityScore == 0.0
    {
      this.name := name;
      this.category := category;
      this.estimated := estimated;
      this.due := due;
      this.startDate := startDate.GetOr(today);
      this.dependencies := dependencies;
      this.completed := completed;
      this.status := status;
      this.endDate := endDate;
      this.priorityScore := 0.0;
    }

    function Info(): TaskInfo
      reads this`completed, this`status, this`endDate
    {
      TaskInfo(name, category, estimated, completed, due, status, startDate, endDate, dependencies)
    }

    predicate IsCompleted()
      reads this`status
    {
      status == Completed
    }

    method MarkCompleted(today: int)
      modifies this`status, this`endDate
      ensures status == Completed && endDate == Some(today)
    {
      status := Completed;
      endDate := Some(today);
    }

    /** One more finished session: the count rises by exactly one; the task
        is completed (end date today) iff the count reaches the estimate, and
        otherwise in progress with its end date untouched. */
    method AddPomodoro(today: int)
      modifies this`completed, this`status, this`endDate
      ensures completed == old(completed) + 1
      ensures completed >= estimated ==> status == Completed && endDate == Some(today)
      ensures completed < estimated ==> status == InProgress && endDate == old(endDate)
      ensures IsCompleted() <==> completed >= estimated
      ensures Info() == AfterPomodoro(old(Info()), today)
    {
      completed := completed + 1;
      status := InProgress;
      if completed >= estimated {
        MarkCompleted(today);
      }
    }

    function ToDict(): Row
      reads this`completed, this`status, this`endDate
    {
      RowOf(Info())
    }

    static method FromDict(row: Row, today: int) returns (t: Task)
      ensures fresh(t)
      ensures t.Info() == InfoOfRow(row, today) && t.priorityScore == 0.0
    {
      t := new Task(row.taskName, row.category, row.estimated, row.due, row.completed,
                    row.status, row.startDate, row.endDate, Fields(row.dependencies), today);
    }
  }

  /** get_task_by_name's search: the first position whose name equals key
      ignoring case, or None when no name does. */
  function FindByName(names: seq<string>, key: string): (r: Option<nat>)
    ensures r.Some? ==> r.value < |names| && Lower(names[r.value]) == Lower(key)
    ensures r.Some? ==> forall j :: 0 <= j < r.value ==> Lower(names[j]) != Lower(key)
    ensures r.None? <==> forall j :: 0 <= j < |names| ==> Lower(names[j]) != Lower(key)
  {
    FindFrom(names, key, 0)
  }

  function FindFrom(names: seq<string>, key: string, k: nat): (r: Option<nat>)
    requires k <= |names|
    requires forall j :: 0 <= j < k ==> Lower(names[j]) != Lower(key)
    ensures r.Some? ==> k <= r.value < |names| && Lower(names[r.value]) == Lower(key)
    ensures r.Some? ==> forall j :: 0 <= j < r.value ==> Lower(names[j]) != Lower(key)
    ensures r.None? <==> forall j :: 0 <= j < |names| ==> Lower(names[j]) != Lower(key)
    decreases |names| - k
  {
    if k == |names| then None
    else if Lower(names[k]) == Lower(key) then Some(k)
    else FindFrom(names, key, k + 1)
  }
}
