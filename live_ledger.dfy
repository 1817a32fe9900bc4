/** The timer ledger that the browser calls (`better_project/api/task_timer.py`):
    starting a timer closes the employee's running timers and appends a new
    running row to today's timesheet; stopping closes the newest running row of
    a task; completing a task stops its timer first and fails if none ran.

    The employee linked to the session user is passed in (`employee`), as is the
    clock (`now`, in seconds) and the two values `get_default_activity_type`
    reads: the employee's `default_activity_type` (`employeeDefault`) and the
    first Activity Type (`firstActivityType`). */
module LiveLedger {
  import opened Wrappers
  import opened Query
  import opened Store
  import TaskController

  datatype LedgerError = NoEmployee | TaskNotFound | NoProject | NoActiveTimer | NoActivityType
    | SaveRejected(why: TaskController.Rejection) | SaveRaised(missing: string)

  /** An entry of `stopped_tasks`. */
  datatype StoppedTask = StoppedTask(task: string, subject: string)

  datatype StartResult = Started(stoppedTasks: seq<StoppedTask>) | StartFailed(error: LedgerError)

  /** `get_timer_status`: elapsed time in seconds instead of fractional hours. */
  datatype TimerStatus = NotRunning | Running(startTime: int, elapsed: int)

  /** `get_task_time_info` without its formatted strings. */
  datatype TimeInfo = TimeInfo(totalTime: int, isRunning: bool, startTime: Option<int>, elapsed: Option<int>)

  /** How far `stop_all_active_timers` got: how many rows it closed, and what it
      returned or that it raised. */
  datatype StopAllOutcome = StopAllOutcome(closed: nat, result: Result<Option<string>, LedgerError>)

  // ---------------------------------------------------------------- lookups

  /** `get_default_activity_type`: with an employee, their default activity type
      (an error when unset); without one, the first Activity Type (an error when
      there is none). */
  function DefaultActivityType(employee: Option<string>, employeeDefault: Option<string>,
                               firstActivityType: Option<string>): (r: Result<string, LedgerError>)
    ensures r.Ok? ==> r.value != ""
    ensures r.Err? ==> r.error == NoActivityType
    ensures employee.Some? ==> (r.Ok? <==> Present(employeeDefault)) && (r.Ok? ==> r.value == employeeDefault.value)
    ensures employee.None? ==> (r.Ok? <==> Present(firstActivityType)) && (r.Ok? ==> r.value == firstActivityType.value)
  {
    if employee.Some? then
      if Present(employeeDefault) then Ok(employeeDefault.value) else Err(NoActivityType)
    else if Present(firstActivityType) then Ok(firstActivityType.value) else Err(NoActivityType)
  }

  function ProjectOf(tasks: seq<Task>, name: string): Option<string>
  {
    match TaskIndex(tasks, name)
    case Some(k) => tasks[k].project
    case None => None
  }

  // ---------------------------------------------------------------- timesheets

  /** A timesheet `get_or_create_timesheet` may reuse: the employee's, not
      cancelled, and its date range contains `today`. */
  predicate Covers(ts: Timesheet, e: string, today: int)
  {
    ts.employee == e && ts.startDate <= today <= ts.endDate && ts.docstatus != DocStatus.Cancelled
  }

  /** The newest timesheet that covers `today`, if any. */
  function FindTimesheet(sheets: seq<Timesheet>, e: string, today: int): (r: Option<nat>)
    ensures r.Some? ==> r.value < |sheets| && Covers(sheets[r.value], e, today)
    ensures r.Some? ==> forall j :: r.value < j < |sheets| ==> !Covers(sheets[j], e, today)
    ensures r.None? ==> forall j :: 0 <= j < |sheets| ==> !Covers(sheets[j], e, today)
  {
    var p := (j: nat) => j < |sheets| && Covers(sheets[j], e, today);
    assert forall j: nat :: j < |sheets| ==> (p(j) <==> Covers(sheets[j], e, today));
    LastWhere(|sheets|, p)
  }

  function NewSheet(e: string, project: Option<string>, today: int): Timesheet
  {
    Timesheet(e, project, today, today, Draft)
  }

  /** The task-less running row every new timesheet is created with. */
  function DefaultRow(sheet: nat, now: int, activity: string): Detail
  {
    Detail(sheet, None, now, None, 0, 0, activity)
  }

  /** The running row `start_timer` appends for `task`. */
  function TimerRow(sheet: nat, task: string, now: int, activity: string): Detail
  {
    Detail(sheet, Some(task), now, None, 0, 0, activity)
  }

  /** Once a timesheet has been created for today, the lookup finds it, so a
      second call on the same day returns the same timesheet. */
  lemma FindTimesheetAfterCreate(sheets: seq<Timesheet>, e: string, project: Option<string>, today: int)
    ensures FindTimesheet(sheets + [NewSheet(e, project, today)], e, today) == Some(|sheets|)
  {
    var grown := sheets + [NewSheet(e, project, today)];
    assert Covers(grown[|sheets|], e, today);
  }

  method GetOrCreateTimesheet(store: Store, e: string, project: Option<string>, now: int,
                              employeeDefault: Option<string>, firstActivityType: Option<string>)
    returns (r: Result<nat, LedgerError>)
    modifies store
    ensures store.tasks == old(store.tasks) && store.projects == old(store.projects)
    ensures var activity := DefaultActivityType(Some(e), employeeDefault, firstActivityType);
      match FindTimesheet(old(store.timesheets), e, DayOf(now))
      case Some(j) =>
        r == Ok(j) && store.timesheets == old(store.timesheets) && store.rows == old(store.rows)
      case None =>
        if activity.Err? then
          r == Err(activity.error) && store.timesheets == old(store.timesheets) && store.rows == old(store.rows)
        else
          && r == Ok(|old(store.timesheets)|)
          && store.timesheets == old(store.timesheets) + [NewSheet(e, project, DayOf(now))]
          && store.rows == old(store.rows) + [DefaultRow(|old(store.timesheets)|, now, activity.value)]
    ensures r.Ok? ==> FindTimesheet(store.timesheets, e, DayOf(now)) == Some(r.value)
  {
    var today := DayOf(now);
    var found := FindTimesheet(store.timesheets, e, today);
    if found.Some? {
      return Ok(found.value);
    }
    var activity := DefaultActivityType(Some(e), employeeDefault, firstActivityType);
    if activity.Err? {
      return Err(activity.error);
    }
    FindTimesheetAfterCreate(store.timesheets, e, project, today);
    r := Ok(|store.timesheets|);
    store.rows := store.rows + [DefaultRow(|store.timesheets|, now, activity.value)];
    store.timesheets := store.timesheets + [NewSheet(e, project, today)];
  }

  // ---------------------------------------------------------------- start

  /** A row that `start_timer` closes: running, in a draft timesheet of `e`, and
      its task exists (the query joins `tabTask`, so task-less rows stay open). */
  predicate Preemptable(db: Tables, e: string, i: nat)
  {
    InSheetOf(db, i, e, Draft) && IsOpen(db.rows[i])
    && db.rows[i].task.Some? && TaskExists(db.tasks, db.rows[i].task.value)
  }

  /** The rows `start_timer` closes, newest first. */
  function ActiveTimers(db: Tables, e: string): (r: seq<nat>)
    ensures forall i: nat :: i in r <==> Preemptable(db, e, i)
    ensures forall k :: 0 <= k < |r| ==> r[k] < |db.rows|
    ensures forall a, b :: 0 <= a < b < |r| ==> r[a] > r[b]
  {
    var p := (i: nat) => Preemptable(db, e, i);
    assert forall i: nat :: p(i) ==> i < |db.rows|;
    IndicesDesc(|db.rows|, p)
  }

  /** Every closable row is closed, and reported, exactly once. */
  lemma ActiveTimersOnce(db: Tables, e: string, i: nat)
    ensures multiset(ActiveTimers(db, e))[i] == if Preemptable(db, e, i) then 1 else 0
  {
    DescendingOccursOnce(ActiveTimers(db, e), i);
  }

  /** The write of `start_timer` to a preempted row: `to_time = now` and an
      `hours` the source computes from a column its query does not select, so it
      is a parameter here. */
  function Preempt(d: Detail, now: int, hours: int): Detail
  {
    d.(toTime := Some(now), hours := hours)
  }

  function StoppedOf(db: Tables, i: nat): StoppedTask
    requires i < |db.rows|
  {
    var name := if db.rows[i].task.Some? then db.rows[i].task.value else "";
    StoppedTask(name, SubjectOf(db.tasks, name))
  }

  function StoppedList(db: Tables, idxs: seq<nat>): (r: seq<StoppedTask>)
    requires forall k :: 0 <= k < |idxs| ==> idxs[k] < |db.rows|
    ensures |r| == |idxs| && forall k :: 0 <= k < |idxs| ==> r[k] == StoppedOf(db, idxs[k])
  {
    seq(|idxs|, k requires 0 <= k < |idxs| => StoppedOf(db, idxs[k]))
  }

  /** `start_timer` gets past its checks: an employee, an existing task, a project. */
  predicate Proceeds(db: Tables, employee: Option<string>, task: string)
  {
    employee.Some? && TaskExists(db.tasks, task) && Present(ProjectOf(db.tasks, task))
  }

  /** The rows and timesheets after `start_timer` appended its row: to the
      timesheet found for today, or to a new one created with its default row. */
  ghost predicate Appended(db0: Tables, sheets: seq<Timesheet>, rows: seq<Detail>, e: string,
                           task: string, now: int, activity: string)
  {
    match FindTimesheet(db0.timesheets, e, DayOf(now))
    case Some(j) =>
      && sheets == db0.timesheets
      && |rows| == |db0.rows| + 1
      && rows[|db0.rows|] == TimerRow(j, task, now, activity)
    case None =>
      && sheets == db0.timesheets + [NewSheet(e, ProjectOf(db0.tasks, task), DayOf(now))]
      && |rows| == |db0.rows| + 2
      && rows[|db0.rows|] == DefaultRow(|db0.timesheets|, now, activity)
      && rows[|db0.rows| + 1] == TimerRow(|db0.timesheets|, task, now, activity)
  }

  /** The loop of `start_timer` over the rows `idxs` (newest first): each is
      closed and reported. */
  method PreemptRows(store: Store, idxs: seq<nat>, now: int, preemptedHours: int)
    returns (stopped: seq<StoppedTask>)
    requires forall k :: 0 <= k < |idxs| ==> idxs[k] < |store.rows|
    requires forall a, b :: 0 <= a < b < |idxs| ==> idxs[a] > idxs[b]
    modifies store
    ensures store.timesheets == old(store.timesheets) && store.tasks == old(store.tasks)
    ensures store.projects == old(store.projects)
    ensures |store.rows| == |old(store.rows)|
    ensures forall i :: 0 <= i < |old(store.rows)| ==>
      store.rows[i] == if i in idxs then Preempt(old(store.rows)[i], now, preemptedHours) else old(store.rows)[i]
    ensures stopped == StoppedList(old(store.Snapshot()), idxs)
  {
    ghost var db0 := store.Snapshot();
    stopped := [];
    var n := 0;
    while n < |idxs|
      invariant 0 <= n <= |idxs|
      invariant store.timesheets == db0.timesheets && store.tasks == db0.tasks && store.projects == db0.projects
      invariant |store.rows| == |db0.rows|
      invariant forall i :: 0 <= i < |db0.rows| ==>
        store.rows[i] == if i in idxs[..n] then Preempt(db0.rows[i], now, preemptedHours) else db0.rows[i]
      invariant stopped == StoppedList(db0, idxs[..n])
    {
      var i := idxs[n];
      assert i !in idxs[..n];
      assert idxs[..n + 1] == idxs[..n] + [i];
      var name := if store.rows[i].task.Some? then store.rows[i].task.value else "";
      stopped := stopped + [StoppedTask(name, SubjectOf(store.tasks, name))];
      store.rows := store.rows[i := Preempt(store.rows[i], now, preemptedHours)];
      n := n + 1;
    }
    assert idxs[..n] == idxs;
  }

  method StartTimer(store: Store, employee: Option<string>, task: string, now: int,
                    employeeDefault: Option<string>, firstActivityType: Option<string>, preemptedHours: int)
    returns (r: StartResult)
    modifies store
    ensures store.tasks == old(store.tasks) && store.projects == old(store.projects)
    ensures employee.None? ==> r == StartFailed(NoEmployee) && unchanged(store)
    ensures employee.Some? && !TaskExists(old(store.tasks), task) ==>
      r == StartFailed(TaskNotFound) && unchanged(store)
    ensures employee.Some? && TaskExists(old(store.tasks), task) && !Present(ProjectOf(old(store.tasks), task)) ==>
      r == StartFailed(NoProject) && unchanged(store)
    ensures Proceeds(old(store.Snapshot()), employee, task) ==>
      var db0 := old(store.Snapshot());
      var active := ActiveTimers(db0, employee.value);
      var activity := DefaultActivityType(employee, employeeDefault, firstActivityType);
      && |store.rows| >= |db0.rows|
      && (forall i :: 0 <= i < |db0.rows| ==>
            store.rows[i] == if i in active then Preempt(db0.rows[i], now, preemptedHours) else db0.rows[i])
      && (activity.Err? ==>
            r == StartFailed(activity.error) && store.timesheets == db0.timesheets && |store.rows| == |db0.rows|)
      && (activity.Ok? ==>
            r == Started(StoppedList(db0, active))
            && Appended(db0, store.timesheets, store.rows, employee.value, task, now, activity.value))
  {
    if employee.None? {
      return StartFailed(NoEmployee);
    }
    var e := employee.value;
    var k := TaskIndex(store.tasks, task);
    if k.None? {
      return StartFailed(TaskNotFound);
    }
    var project := store.tasks[k.value].project;
    if !Present(project) {
      return StartFailed(NoProject);
    }
    ghost var db0 := store.Snapshot();
    var stopped := PreemptRows(store, ActiveTimers(store.Snapshot(), e), now, preemptedHours);
    ghost var rows1 := store.rows;
    var sheet := GetOrCreateTimesheet(store, e, project, now, employeeDefault, firstActivityType);
    var activity := DefaultActivityType(employee, employeeDefault, firstActivityType);
    if sheet.Err? {
      return StartFailed(sheet.error);
    }
    if activity.Err? {
      return StartFailed(activity.error);
    }
    store.rows := store.rows + [TimerRow(sheet.value, task, now, activity.value)];
    assert store.rows[..|db0.rows|] == rows1[..|db0.rows|];
    r := Started(stopped);
  }

  // ---------------------------------------------------------------- stop

  /** A running row of `task` in a draft timesheet of `e`. */
  predicate RunningFor(db: Tables, e: string, task: string, i: nat)
  {
    InSheetOf(db, i, e, Draft) && IsOpen(db.rows[i]) && db.rows[i].task == Some(task)
  }

  /** The row `stop_timer` closes: the newest running row of the task. The text
      matches `AltLedger.StopTarget`, but `RunningFor` here admits only draft
      sheets, where the other ledger admits any sheet that is not cancelled. */
  function StopTarget(db: Tables, e: string, task: string): (r: Option<nat>)
    ensures r.Some? ==> RunningFor(db, e, task, r.value)
    ensures r.Some? ==> forall i: nat :: r.value < i ==> !RunningFor(db, e, task, i)
    ensures r.None? ==> forall i: nat :: !RunningFor(db, e, task, i)
  {
    var p := (i: nat) => RunningFor(db, e, task, i);
    assert forall i: nat :: p(i) <==> RunningFor(db, e, task, i);
    assert forall i: nat :: p(i) ==> i < |db.rows|;
    LastWhere(|db.rows|, p)
  }

  method StopTimer(store: Store, employee: Option<string>, task: string, now: int)
    returns (r: Outcome<LedgerError>)
    modifies store
    ensures store.timesheets == old(store.timesheets) && store.tasks == old(store.tasks)
    ensures store.projects == old(store.projects)
    ensures employee.None? ==> r == Fail(NoEmployee) && store.rows == old(store.rows)
    ensures employee.Some? ==>
      match StopTarget(old(store.Snapshot()), employee.value, task)
      case None => r == Fail(NoActiveTimer) && store.rows == old(store.rows)
      case Some(i) => r == Pass && store.rows == old(store.rows)[i := CloseBilled(old(store.rows)[i], now)]
  {
    if employee.None? {
      return Fail(NoEmployee);
    }
    var target := StopTarget(store.Snapshot(), employee.value, task);
    if target.None? {
      return Fail(NoActiveTimer);
    }
    var i := target.value;
    store.rows := store.rows[i := CloseBilled(store.rows[i], now)];
    r := Pass;
  }

  // ---------------------------------------------------------------- complete

  /** `complete_task`: the stop's failure is returned as it is; after a stop
      the task is loaded, marked Completed and saved, and a save that
      `validate_task` turns away (a running draft row of the task left by
      another employee, say, or a missing or completed project) is reported
      as a failure with the stop's close kept. */
  method CompleteTask(store: Store, employee: Option<string>, task: string, now: int)
    returns (r: Outcome<LedgerError>)
    modifies store
    ensures store.timesheets == old(store.timesheets) && store.projects == old(store.projects)
    ensures employee.None? ==>
      r == Fail(NoEmployee) && store.rows == old(store.rows) && store.tasks == old(store.tasks)
    ensures employee.Some? && StopTarget(old(store.Snapshot()), employee.value, task).None? ==>
      r == Fail(NoActiveTimer) && store.rows == old(store.rows) && store.tasks == old(store.tasks)
    ensures employee.Some? && StopTarget(old(store.Snapshot()), employee.value, task).Some? ==>
      var i := StopTarget(old(store.Snapshot()), employee.value, task).value;
      var db1 := old(store.Snapshot()).(rows := old(store.rows)[i := CloseBilled(old(store.rows)[i], now)]);
      && store.rows == db1.rows
      && match TaskIndex(old(store.tasks), task)
         case None => r == Fail(TaskNotFound) && store.tasks == old(store.tasks)
         case Some(k) =>
           var done := MarkCompleted(old(store.tasks)[k], DayOf(now));
           match TaskController.Rejected(db1, done)
           case Some(why) => r == Fail(SaveRejected(why)) && store.tasks == old(store.tasks)
           case None => r == Pass && store.tasks == old(store.tasks)[k := done]
  {
    var stopped := StopTimer(store, employee, task, now);
    if stopped.Fail? {
      return stopped;
    }
    var k := TaskIndex(store.tasks, task);
    if k.None? {
      return Fail(TaskNotFound);
    }
    var doc := MarkCompleted(store.tasks[k.value], DayOf(now));
    var saved := TaskController.SaveTask(store, doc, now);
    if saved.Err? {
      return Fail(SaveRejected(saved.error));
    }
    assert saved.value == doc;
    r := Pass;
  }

  /** `complete_task` as the code stands: the Task controller's `validate`
      calls `self.validate_task()`, which `Task` does not define, so once the
      stop has closed its row the save raises AttributeError and the call
      answers `success: False`. The stop's close is kept and no task is
      changed, so no task is ever stored Completed this way. */
  method CompleteTaskAsWritten(store: Store, employee: Option<string>, task: string, now: int)
    returns (r: Outcome<LedgerError>)
    modifies store
    ensures store.timesheets == old(store.timesheets) && store.projects == old(store.projects)
    ensures store.tasks == old(store.tasks)
    ensures employee.None? ==> r == Fail(NoEmployee) && store.rows == old(store.rows)
    ensures employee.Some? && StopTarget(old(store.Snapshot()), employee.value, task).None? ==>
      r == Fail(NoActiveTimer) && store.rows == old(store.rows)
    ensures employee.Some? && StopTarget(old(store.Snapshot()), employee.value, task).Some? ==>
      var i := StopTarget(old(store.Snapshot()), employee.value, task).value;
      && store.rows == old(store.rows)[i := CloseBilled(old(store.rows)[i], now)]
      && (TaskIndex(old(store.tasks), task).None? ==> r == Fail(TaskNotFound))
      && (TaskIndex(old(store.tasks), task).Some? ==> r == Fail(SaveRaised("validate_task")))
  {
    var stopped := StopTimer(store, employee, task, now);
    if stopped.Fail? {
      return stopped;
    }
    var k := TaskIndex(store.tasks, task);
    if k.None? {
      return Fail(TaskNotFound);
    }
    r := Fail(SaveRaised("validate_task"));
  }

  // ---------------------------------------------------------------- status

  /** `get_timer_status`: running when the task has a running row in a draft
      timesheet of the employee (the query has no order; the oldest is taken). */
  function TimerStatusOf(db: Tables, employee: Option<string>, task: string, now: int): (r: TimerStatus)
    ensures employee.None? ==> r == NotRunning
    ensures employee.Some? ==> (r.Running? <==> exists i: nat :: RunningFor(db, employee.value, task, i))
    ensures r.Running? ==> r.elapsed == now - r.startTime
    ensures r.Running? ==> exists i: nat :: RunningFor(db, employee.value, task, i) && db.rows[i].fromTime == r.startTime
  {
    if employee.None? then NotRunning
    else
      var p := (i: nat) => RunningFor(db, employee.value, task, i);
      assert forall i: nat :: p(i) <==> RunningFor(db, employee.value, task, i);
      assert forall i: nat :: p(i) ==> i < |db.rows|;
      match FirstWhere(|db.rows|, p)
      case None => NotRunning
      case Some(i) => Running(db.rows[i].fromTime, now - db.rows[i].fromTime)
  }

  /** A row of `task` in a submitted timesheet of `e`. */
  predicate SubmittedFor(db: Tables, e: string, task: string, i: nat)
  {
    InSheetOf(db, i, e, Submitted) && db.rows[i].task == Some(task)
  }

  /** `SUM(td.hours)` over the employee's submitted rows of the task, or 0. */
  function EmployeeTaskHours(db: Tables, e: string, task: string): int
  {
    SumWhere(|db.rows|, (i: nat) => SubmittedFor(db, e, task, i), RowHours(db))
  }

  /** With no submitted row for the task the total is 0. */
  lemma EmployeeTaskHoursNone(db: Tables, e: string, task: string)
    requires forall i: nat :: !SubmittedFor(db, e, task, i)
    ensures EmployeeTaskHours(db, e, task) == 0
  {
    SumWhereNone(|db.rows|, (i: nat) => SubmittedFor(db, e, task, i), RowHours(db));
  }

  /** `get_task_time_info`: None without an employee; otherwise the submitted
      total and the running state that `get_timer_status` reports. */
  function TaskTimeInfo(db: Tables, employee: Option<string>, task: string, now: int): (r: Option<TimeInfo>)
    ensures employee.None? <==> r.None?
    ensures r.Some? ==> r.value.totalTime == EmployeeTaskHours(db, employee.value, task)
    ensures r.Some? ==> r.value.isRunning == TimerStatusOf(db, employee, task, now).Running?
    ensures r.Some? && r.value.isRunning ==>
      r.value.startTime == Some(TimerStatusOf(db, employee, task, now).startTime)
      && r.value.elapsed == Some(TimerStatusOf(db, employee, task, now).elapsed)
    ensures r.Some? && !r.value.isRunning ==> r.value.startTime.None? && r.value.elapsed.None?
  {
    if employee.None? then None
    else
      var total := EmployeeTaskHours(db, employee.value, task);
      match TimerStatusOf(db, employee, task, now)
      case NotRunning => Some(TimeInfo(total, false, None, None))
      case Running(start, elapsed) => Some(TimeInfo(total, true, Some(start), Some(elapsed)))
  }

  // ---------------------------------------------------------------- stop all

  /** A running row in a draft timesheet of `e`, with or without a task. */
  predicate OpenDraftRow(db: Tables, e: string, i: nat)
  {
    InSheetOf(db, i, e, Draft) && IsOpen(db.rows[i])
  }

  /** The rows `stop_all_active_timers` closes, newest first. */
  function OpenDraftRows(db: Tables, e: string): (r: seq<nat>)
    ensures forall i: nat :: i in r <==> OpenDraftRow(db, e, i)
    ensures forall k :: 0 <= k < |r| ==> r[k] < |db.rows|
    ensures forall a, b :: 0 <= a < b < |r| ==> r[a] > r[b]
  {
    var p := (i: nat) => OpenDraftRow(db, e, i);
    assert forall i: nat :: p(i) ==> i < |db.rows|;
    IndicesDesc(|db.rows|, p)
  }

  /** One turn of the loop of `stop_all_active_timers` for row `i`, with `acc`
      the `stopped_task` so far: while it is unset, a row with a task makes it
      that task's subject, and a task that does not exist raises. */
  function Step(tasks: seq<Task>, d: Detail, acc: Option<string>): Result<Option<string>, LedgerError>
  {
    if !Present(acc) && Present(d.task) then
      match TaskIndex(tasks, d.task.value)
      case None => Err(TaskNotFound)
      case Some(t) => Ok(Some(tasks[t].subject))
    else Ok(acc)
  }

  /** The loop of `stop_all_active_timers` over the rows `idxs`. */
  function Reported(db: Tables, idxs: seq<nat>, acc: Option<string>): (o: StopAllOutcome)
    requires forall k :: 0 <= k < |idxs| ==> idxs[k] < |db.rows|
    ensures o.closed <= |idxs|
    ensures o.result.Ok? ==> o.closed == |idxs|
    ensures o.result.Err? ==> o.result.error == TaskNotFound && o.closed >= 1
    decreases |idxs|
  {
    if idxs == [] then StopAllOutcome(0, Ok(acc))
    else
      match Step(db.tasks, db.rows[idxs[0]], acc)
      case Err(err) => StopAllOutcome(1, Err(err))
      case Ok(next) =>
        var o := Reported(db, idxs[1..], next);
        o.(closed := o.closed + 1)
  }

  /** Once a subject is held, the rest of the loop only closes rows. */
  lemma {:induction false} ReportedKeeps(db: Tables, idxs: seq<nat>, acc: Option<string>)
    requires forall k :: 0 <= k < |idxs| ==> idxs[k] < |db.rows|
    requires Present(acc)
    ensures Reported(db, idxs, acc) == StopAllOutcome(|idxs|, Ok(acc))
  {
    if idxs != [] {
      ReportedKeeps(db, idxs[1..], acc);
    }
  }

  /** The value returned is the subject of the first row (newest first) that has
      a task, when that task exists and its subject is not empty. */
  lemma {:induction false} ReportedFirstSubject(db: Tables, idxs: seq<nat>, k: nat)
    requires forall j :: 0 <= j < |idxs| ==> idxs[j] < |db.rows|
    requires k < |idxs| && Present(db.rows[idxs[k]].task)
    requires forall j :: 0 <= j < k ==> !Present(db.rows[idxs[j]].task)
    requires SubjectOf(db.tasks, db.rows[idxs[k]].task.value) != ""
    ensures Reported(db, idxs, None) == StopAllOutcome(|idxs|, Ok(Some(SubjectOf(db.tasks, db.rows[idxs[k]].task.value))))
  {
    if k == 0 {
      var name := db.rows[idxs[0]].task.value;
      var t := TaskIndex(db.tasks, name);
      ReportedKeeps(db, idxs[1..], Some(db.tasks[t.value].subject));
    } else {
      assert idxs[1..][k - 1] == idxs[k];
      ReportedFirstSubject(db, idxs[1..], k - 1);
    }
  }

  /** With no running row nothing is closed and None is returned. */
  lemma StopAllNothingOpen(db: Tables, e: string)
    requires forall i: nat :: !OpenDraftRow(db, e, i)
    ensures Reported(db, OpenDraftRows(db, e), None) == StopAllOutcome(0, Ok(None))
  {
    NoMembers(OpenDraftRows(db, e));
  }

  /** One turn of `Reported` from position `n`. */
  lemma ReportedUnfold(db: Tables, idxs: seq<nat>, n: nat, acc: Option<string>)
    requires forall k :: 0 <= k < |idxs| ==> idxs[k] < |db.rows|
    requires n < |idxs|
    ensures Step(db.tasks, db.rows[idxs[n]], acc).Err? ==>
      Reported(db, idxs[n..], acc) == StopAllOutcome(1, Step(db.tasks, db.rows[idxs[n]], acc))
    ensures Step(db.tasks, db.rows[idxs[n]], acc).Ok? ==>
      var o := Reported(db, idxs[n + 1..], Step(db.tasks, db.rows[idxs[n]], acc).value);
      Reported(db, idxs[n..], acc) == o.(closed := o.closed + 1)
  {
    assert idxs[n..][0] == idxs[n];
    assert idxs[n..][1..] == idxs[n + 1..];
  }
  /** The loop has handled the first `n` rows of `idxs` and holds `acc`: the
      rest of the loop yields the outcome of the whole loop. */
  predicate ReportedFrom(db: Tables, idxs: seq<nat>, n: nat, acc: Option<string>)
    requires forall k :: 0 <= k < |idxs| ==> idxs[k] < |db.rows|
    requires n <= |idxs|
  {
    var full := Reported(db, idxs, None);
    var rest := Reported(db, idxs[n..], acc);
    full.result == rest.result && full.closed == n + rest.closed
  }

  /** One more turn of the loop: a failing step ends it with `n + 1` rows
      closed, a succeeding one carries its subject on. */
  lemma ReportedNext(db: Tables, idxs: seq<nat>, n: nat, acc: Option<string>)
    requires forall k :: 0 <= k < |idxs| ==> idxs[k] < |db.rows|
    requires n < |idxs| && ReportedFrom(db, idxs, n, acc)
    ensures var step := Step(db.tasks, db.rows[idxs[n]], acc);
      && (step.Err? ==> Reported(db, idxs, None) == StopAllOutcome(n + 1, step))
      && (step.Ok? ==> ReportedFrom(db, idxs, n + 1, step.value))
  {
    ReportedUnfold(db, idxs, n, acc);
  }

  /** One turn of the loop over `idxs` on the rows as they stand: row
      `idxs[n]` is still as it was, closing it extends the closed rows by one,
      and the step taken on it moves the loop's outcome on. */
  lemma CloseTurn(db: Tables, rows: seq<Detail>, idxs: seq<nat>, n: nat, acc: Option<string>, now: int)
    requires forall k :: 0 <= k < |idxs| ==> idxs[k] < |db.rows|
    requires forall a, b :: 0 <= a < b < |idxs| ==> idxs[a] > idxs[b]
    requires n < |idxs| && ClosedAt(db.rows, rows, idxs[..n], now) && ReportedFrom(db, idxs, n, acc)
    ensures rows[idxs[n]] == db.rows[idxs[n]]
    ensures ClosedAt(db.rows, rows[idxs[n] := Close(rows[idxs[n]], now)], idxs[..n + 1], now)
    ensures var step := Step(db.tasks, db.rows[idxs[n]], acc);
      && (step.Err? ==> Reported(db, idxs, None) == StopAllOutcome(n + 1, step))
      && (step.Ok? ==> ReportedFrom(db, idxs, n + 1, step.value))
  {
    var i := idxs[n];
    assert i !in idxs[..n];
    assert idxs[..n + 1] == idxs[..n] + [i];
    CloseOneMore(db.rows, rows, idxs[..n], i, now);
    ReportedNext(db, idxs, n, acc);
  }

  /** After the last row the loop's outcome is every row closed and `acc`. */
  lemma ReportedDone(db: Tables, idxs: seq<nat>, acc: Option<string>)
    requires forall k :: 0 <= k < |idxs| ==> idxs[k] < |db.rows|
    requires ReportedFrom(db, idxs, |idxs|, acc)
    ensures Reported(db, idxs, None) == StopAllOutcome(|idxs|, Ok(acc))
  {
    assert idxs[|idxs|..] == [];
  }


  /** The loop of `stop_all_active_timers` over the rows `idxs` (newest first). */
  method CloseRows(store: Store, idxs: seq<nat>, now: int) returns (r: Result<Option<string>, LedgerError>)
    requires forall k :: 0 <= k < |idxs| ==> idxs[k] < |store.rows|
    requires forall a, b :: 0 <= a < b < |idxs| ==> idxs[a] > idxs[b]
    modifies store
    ensures store.timesheets == old(store.timesheets) && store.tasks == old(store.tasks)
    ensures store.projects == old(store.projects)
    ensures
      var o := Reported(old(store.Snapshot()), idxs, None);
      && r == o.result
      && |store.rows| == |old(store.rows)|
      && forall i :: 0 <= i < |old(store.rows)| ==>
           store.rows[i] == if i in idxs[..o.closed] then Close(old(store.rows)[i], now) else old(store.rows)[i]
  {
    ghost var db0 := store.Snapshot();
    var acc: Option<string> := None;
    var n := 0;
    assert idxs[0..] == idxs;
    while n < |idxs|
      invariant 0 <= n <= |idxs|
      invariant store.timesheets == db0.timesheets && store.tasks == db0.tasks && store.projects == db0.projects
      invariant ClosedAt(db0.rows, store.rows, idxs[..n], now)
      invariant ReportedFrom(db0, idxs, n, acc)
    {
      var i := idxs[n];
      CloseTurn(db0, store.rows, idxs, n, acc, now);
      var step := Step(store.tasks, store.rows[i], acc);
      store.rows := store.rows[i := Close(store.rows[i], now)];
      if step.Err? {
        return step;
      }
      acc := step.value;
      n := n + 1;
    }
    ReportedDone(db0, idxs, acc);
    assert idxs[..n] == idxs;
    r := Ok(acc);
  }

  method StopAllActiveTimers(store: Store, e: string, now: int)
    returns (r: Result<Option<string>, LedgerError>)
    modifies store
    ensures store.timesheets == old(store.timesheets) && store.tasks == old(store.tasks)
    ensures store.projects == old(store.projects)
    ensures
      var db0 := old(store.Snapshot());
      var open := OpenDraftRows(db0, e);
      var o := Reported(db0, open, None);
      && r == o.result
      && |store.rows| == |db0.rows|
      && forall i :: 0 <= i < |db0.rows| ==>
           store.rows[i] == if i in open[..o.closed] then Close(db0.rows[i], now) else db0.rows[i]
  {
    r := CloseRows(store, OpenDraftRows(store.Snapshot(), e), now);
  }
}
