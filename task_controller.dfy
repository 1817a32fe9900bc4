/** The Task document's own timer methods and the Task hooks
    (`better_project/doctype/task/task.py`): a second ledger beside the one the
    browser calls. It finds running rows without an order, closes them with
    billing hours, keeps `actual_time` equal to the submitted total, and guards
    completion and deletion against running timers.

    The employee linked to the session user is passed in (`employee`), as is the
    clock (`now`, in seconds). */
module TaskController {
  import opened Wrappers
  import opened Query
  import opened Store

  /** What `Task.stop_timer` returns: `{success: true, has_active_timer: true}`,
      `{success: false, has_active_timer: false}`, or `{success: false, error}`. */
  datatype StopResult = Stopped | NoActiveTimer | NoEmployee

  /** `stop_result.get("success", False)`. */
  predicate Succeeded(r: StopResult) { r.Stopped? }

  /** What `Task.complete_task` reports once its save went through;
      `timerStopped` is whether its stop succeeded. */
  datatype CompleteResult = CompleteResult(timerStopped: bool)

  datatype TaskError = TaskNotFound

  /** Why `validate_task` throws. */
  datatype Rejection = MissingProject | UnknownProject | ProjectIsCompleted | TimersRunning

  datatype StopAllOutcome = StopAllOutcome(closed: nat, result: Result<Option<string>, TaskError>)

  // ---------------------------------------------------------------- actual time

  /** A row of `task` in a submitted timesheet, whoever's it is. */
  predicate SubmittedRow(db: Tables, task: string, i: nat)
  {
    HasSheet(db, i) && SheetOf(db, i).docstatus == Submitted && db.rows[i].task == Some(task)
  }

  /** `SUM(td.hours)` over the submitted rows of `task`, or 0. */
  function SubmittedHours(db: Tables, task: string): int
  {
    SumWhere(|db.rows|, (i: nat) => SubmittedRow(db, task, i), RowHours(db))
  }

  /** With no submitted row for the task, its actual time is 0. */
  lemma SubmittedHoursNone(db: Tables, task: string)
    requires forall i: nat :: !SubmittedRow(db, task, i)
    ensures SubmittedHours(db, task) == 0
  {
    SumWhereNone(|db.rows|, (i: nat) => SubmittedRow(db, task, i), RowHours(db));
  }

  /** When every row logs a non-negative time, so does the total. */
  lemma SubmittedHoursNonNegative(db: Tables, task: string)
    requires forall i :: 0 <= i < |db.rows| ==> db.rows[i].hours >= 0
    ensures SubmittedHours(db, task) >= 0
  {
    SumWhereNonNegative(|db.rows|, (i: nat) => SubmittedRow(db, task, i), RowHours(db));
  }

  /** The submitted total reads only the timesheets and the rows. */
  lemma SubmittedHoursFrame(db1: Tables, db2: Tables, task: string)
    requires db1.timesheets == db2.timesheets && db1.rows == db2.rows
    ensures SubmittedHours(db1, task) == SubmittedHours(db2, task)
  {
    SumWhereCongruent(|db1.rows|, (k: nat) => SubmittedRow(db1, task, k), (k: nat) => SubmittedRow(db2, task, k),
                      RowHours(db1), RowHours(db2));
  }

  /** Rewriting a row of a draft timesheet, under the same parent, leaves every
      task's submitted total as it was: closing a timer does not change
      `actual_time` until the timesheet is submitted. */
  lemma {:induction false} SubmittedHoursIgnoresDrafts(db: Tables, i: nat, d: Detail, task: string)
    requires HasSheet(db, i) && SheetOf(db, i).docstatus == Draft
    requires d.parent == db.rows[i].parent
    ensures SubmittedHours(db.(rows := db.rows[i := d]), task) == SubmittedHours(db, task)
  {
    var db2 := db.(rows := db.rows[i := d]);
    SumWhereCongruent(|db.rows|, (k: nat) => SubmittedRow(db2, task, k), (k: nat) => SubmittedRow(db, task, k),
                      RowHours(db2), RowHours(db));
  }

  /** The task list with `actual_time` of task `name` set to `v`. */
  function WithActualTime(tasks: seq<Task>, name: string, v: int): (r: seq<Task>)
    ensures |r| == |tasks|
    ensures forall k :: 0 <= k < |tasks| && tasks[k].name != name ==> r[k] == tasks[k]
    ensures TaskIndex(tasks, name).Some? ==>
      var k := TaskIndex(tasks, name).value; r[k] == tasks[k].(actualTime := v)
  {
    match TaskIndex(tasks, name)
    case None => tasks
    case Some(k) => tasks[k := tasks[k].(actualTime := v)]
  }

  /** `update_actual_time_from_timesheets`. */
  method UpdateActualTime(store: Store, task: string)
    modifies store
    ensures store.timesheets == old(store.timesheets) && store.rows == old(store.rows)
    ensures store.projects == old(store.projects)
    ensures store.tasks == WithActualTime(old(store.tasks), task, SubmittedHours(old(store.Snapshot()), task))
  {
    var total := SubmittedHours(store.Snapshot(), task);
    var k := TaskIndex(store.tasks, task);
    if k.Some? {
      store.tasks := store.tasks[k.value := store.tasks[k.value].(actualTime := total)];
    }
  }

  // ---------------------------------------------------------------- stop

  predicate RunningFor(db: Tables, e: string, task: string, i: nat)
  {
    InSheetOf(db, i, e, Draft) && IsOpen(db.rows[i]) && db.rows[i].task == Some(task)
  }

  /** `active_log[0]` of a query with no ORDER BY, taken to be the oldest row. */
  function StopTarget(db: Tables, e: string, task: string): (r: Option<nat>)
    ensures r.Some? ==> RunningFor(db, e, task, r.value)
    ensures r.Some? ==> forall i: nat :: i < r.value ==> !RunningFor(db, e, task, i)
    ensures r.None? ==> forall i: nat :: !RunningFor(db, e, task, i)
  {
    var p := (i: nat) => RunningFor(db, e, task, i);
    assert forall i: nat :: p(i) <==> RunningFor(db, e, task, i);
    assert forall i: nat :: p(i) ==> i < |db.rows|;
    FirstWhere(|db.rows|, p)
  }

  /** `Task.stop_timer`: closes one running row of the task with billing hours,
      then refreshes the task's actual time. */
  method StopTimer(store: Store, employee: Option<string>, task: string, now: int)
    returns (r: StopResult)
    modifies store
    ensures store.timesheets == old(store.timesheets) && store.projects == old(store.projects)
    ensures employee.None? ==> r == NoEmployee && unchanged(store)
    ensures employee.Some? && StopTarget(old(store.Snapshot()), employee.value, task).None? ==>
      r == NoActiveTimer && unchanged(store)
    ensures employee.Some? && StopTarget(old(store.Snapshot()), employee.value, task).Some? ==>
      var i := StopTarget(old(store.Snapshot()), employee.value, task).value;
      && r == Stopped
      && store.rows == old(store.rows)[i := CloseBilled(old(store.rows)[i], now)]
      && store.tasks == WithActualTime(old(store.tasks), task, SubmittedHours(old(store.Snapshot()), task))
  {
    if employee.None? {
      return NoEmployee;
    }
    var db0 := store.Snapshot();
    var target := StopTarget(db0, employee.value, task);
    if target.None? {
      return NoActiveTimer;
    }
    var i := target.value;
    store.rows := store.rows[i := CloseBilled(store.rows[i], now)];
    SubmittedHoursIgnoresDrafts(db0, i, CloseBilled(db0.rows[i], now), task);
    UpdateActualTime(store, task);
    r := Stopped;
  }

  // ---------------------------------------------------------------- save

  /** A stored task's `doc.save()` with the hooks wired as `task.py` evidently
      means them: `Task.validate` runs `validate_task(doc)`, which throws
      before anything is written; otherwise the validated document replaces
      the stored task and `Task.on_update` runs `on_task_update(doc)`. The
      validation turns away a Completed task that still has a running draft
      row, so the update hook never finds a row to close. */
  method SaveTask(store: Store, doc: Task, now: int) returns (r: Result<Task, Rejection>)
    requires TaskExists(store.tasks, doc.name)
    modifies store
    ensures store.timesheets == old(store.timesheets) && store.rows == old(store.rows)
    ensures store.projects == old(store.projects)
    ensures r.Err? <==> Rejected(old(store.Snapshot()), doc).Some?
    ensures r.Err? ==> r.error == Rejected(old(store.Snapshot()), doc).value && store.tasks == old(store.tasks)
    ensures r.Ok? ==> store.tasks == old(store.tasks)[TaskIndex(old(store.tasks), doc.name).value := r.value]
    ensures r.Ok? && doc.status != Completed ==> r.value == doc
    ensures r.Ok? && doc.status == Completed ==>
      && r.value.progress == 100
      && r.value.completedOn == (if doc.completedOn.None? then Some(DayOf(now)) else doc.completedOn)
      && r.value.(progress := doc.progress, completedOn := doc.completedOn) == doc
  {
    ghost var db0 := store.Snapshot();
    r := ValidateTask(store.Snapshot(), doc, now);
    if r.Err? {
      return;
    }
    var k := TaskIndex(store.tasks, doc.name).value;
    store.tasks := store.tasks[k := r.value];
    assert r.value.status == doc.status && r.value.name == doc.name;
    if doc.status == Completed {
      NoOpenTimerFrame(db0, store.Snapshot(), doc.name);
    }
    OnTaskUpdate(store, r.value, now);
    assert store.rows == db0.rows;
  }

  /** Changing only the tasks brings no running draft row into being. */
  lemma NoOpenTimerFrame(db1: Tables, db2: Tables, task: string)
    requires db1.timesheets == db2.timesheets && db1.rows == db2.rows
    requires !HasOpenTimer(db1, task)
    ensures forall i: nat :: !OpenTimerOf(db2, task, i)
  {
    forall i: nat
      ensures !OpenTimerOf(db2, task, i)
    {
      if i < |db1.rows| {
        assert !OpenTimerOf(db1, task, i);
      }
    }
  }

  /** The checks of `validate_task` read the projects, timesheets and rows,
      not the tasks. */
  lemma RejectedFrame(db1: Tables, db2: Tables, doc: Task)
    requires db1.timesheets == db2.timesheets && db1.rows == db2.rows && db1.projects == db2.projects
    ensures Rejected(db1, doc) == Rejected(db2, doc)
  {
    assert HasOpenTimer(db1, doc.name) == HasOpenTimer(db2, doc.name) by {
      forall i: nat | i < |db1.rows|
        ensures OpenTimerOf(db1, doc.name, i) == OpenTimerOf(db2, doc.name, i)
      {
      }
    }
  }

  // ---------------------------------------------------------------- complete

  /** Why completing a task fails: there is no such task, a check of
      `validate_task` failed, or the save called a method `Task` lacks. */
  datatype CompleteError = NoSuchTask | Invalid(why: Rejection) | MissingMethod(name: string)

  /** The stop's refresh of `actual_time` and the final one leave the task
      with the final total and every other task as it was. */
  lemma ActualTimeRefreshed(tasks0: seq<Task>, tasks1: seq<Task>, tasks2: seq<Task>,
                            task: string, stopped: bool, h: int, v: int)
    requires TaskExists(tasks0, task)
    requires tasks1 == if stopped then WithActualTime(tasks0, task, h) else tasks0
    requires tasks2 == WithActualTime(tasks1, task, v)
    ensures TaskIndex(tasks2, task) == TaskIndex(tasks0, task)
    ensures var k := TaskIndex(tasks0, task).value;
      tasks2 == tasks0[k := tasks0[k].(actualTime := v)]
  {
    TaskIndexByNames(tasks1, tasks0, task);
    TaskIndexByNames(tasks2, tasks0, task);
  }

  /** `Task.complete_task` up to its save: the stop, then the Completed fields
      set on the document, then the `actual_time` refresh, which `db_set`
      writes to the store at once. Of the completion only `actual_time`
      reaches the store here; `doc` is the document the save receives. */
  method PrepareCompletion(store: Store, employee: Option<string>, task: string, now: int)
    returns (stopped: StopResult, doc: Task)
    requires TaskExists(store.tasks, task)
    modifies store
    ensures store.timesheets == old(store.timesheets) && store.projects == old(store.projects)
    ensures stopped.Stopped? <==>
      employee.Some? && StopTarget(old(store.Snapshot()), employee.value, task).Some?
    ensures stopped.Stopped? ==>
      var i := StopTarget(old(store.Snapshot()), employee.value, task).value;
      store.rows == old(store.rows)[i := CloseBilled(old(store.rows)[i], now)]
    ensures !stopped.Stopped? ==> store.rows == old(store.rows)
    ensures TaskIndex(store.tasks, task) == TaskIndex(old(store.tasks), task)
    ensures var k := TaskIndex(old(store.tasks), task).value;
      var v := SubmittedHours(old(store.Snapshot()), task);
      && store.tasks == old(store.tasks)[k := old(store.tasks)[k].(actualTime := v)]
      && doc == MarkCompleted(old(store.tasks)[k], DayOf(now)).(actualTime := v)
  {
    ghost var db0 := store.Snapshot();
    stopped := StopTimer(store, employee, task, now);
    if stopped.Stopped? {
      var i := StopTarget(db0, employee.value, task).value;
      SubmittedHoursIgnoresDrafts(db0, i, CloseBilled(db0.rows[i], now), task);
    }
    ghost var tasks1 := store.tasks;
    SubmittedHoursFrame(store.Snapshot(), db0.(rows := store.rows), task);
    UpdateActualTime(store, task);
    ActualTimeRefreshed(db0.tasks, tasks1, store.tasks, task, stopped.Stopped?,
                        SubmittedHours(db0, task), SubmittedHours(db0, task));
    var k := TaskIndex(store.tasks, task).value;
    doc := MarkCompleted(store.tasks[k], DayOf(now));
  }

  /** `complete_task` with the save as `task.py` evidently means it: an
      unknown task raises before anything happens; otherwise the stop and the
      `actual_time` refresh are written, and the save either stores the task
      Completed, with progress 100, completed today and the refreshed actual
      time, or is turned away by `validate_task` (a missing or completed
      project, or a running draft row the stop left, such as another
      employee's), leaving the task as it was but for its actual time.
      `timer_stopped` is whether the stop succeeded. */
  method CompleteTask(store: Store, employee: Option<string>, task: string, now: int)
    returns (r: Result<CompleteResult, CompleteError>)
    modifies store
    ensures store.timesheets == old(store.timesheets) && store.projects == old(store.projects)
    ensures !TaskExists(old(store.tasks), task) ==>
      r == Err(NoSuchTask) && store.rows == old(store.rows) && store.tasks == old(store.tasks)
    ensures TaskExists(old(store.tasks), task) ==>
      var db0 := old(store.Snapshot());
      var k := TaskIndex(old(store.tasks), task).value;
      var v := SubmittedHours(db0, task);
      var done := MarkCompleted(old(store.tasks)[k], DayOf(now)).(actualTime := v);
      var stopped := employee.Some? && StopTarget(db0, employee.value, task).Some?;
      && (stopped ==>
            var i := StopTarget(db0, employee.value, task).value;
            store.rows == old(store.rows)[i := CloseBilled(old(store.rows)[i], now)])
      && (!stopped ==> store.rows == old(store.rows))
      && (r.Err? <==> Rejected(db0.(rows := store.rows), done).Some?)
      && (r.Err? ==>
            && r.error == Invalid(Rejected(db0.(rows := store.rows), done).value)
            && store.tasks == old(store.tasks)[k := old(store.tasks)[k].(actualTime := v)])
      && (r.Ok? ==> r.value.timerStopped == stopped && store.tasks == old(store.tasks)[k := done])
  {
    if !TaskExists(store.tasks, task) {
      return Err(NoSuchTask);
    }
    ghost var db0 := store.Snapshot();
    var stopped, doc := PrepareCompletion(store, employee, task, now);
    RejectedFrame(store.Snapshot(), db0.(rows := store.rows), doc);
    var saved := SaveTask(store, doc, now);
    if saved.Err? {
      return Err(Invalid(saved.error));
    }
    assert saved.value == doc;
    r := Ok(CompleteResult(Succeeded(stopped)));
  }

  /** `Task.complete_task` as the code stands: `Task.validate` calls
      `self.validate_task()`, and `Task` has no such method (`validate_task`
      is a module function taking the document), so the save raises
      AttributeError once the stop and the `actual_time` refresh are
      written. The status, progress and completion day never reach the
      store. */
  method CompleteTaskAsWritten(store: Store, employee: Option<string>, task: string, now: int)
    returns (r: Result<CompleteResult, CompleteError>)
    modifies store
    ensures store.timesheets == old(store.timesheets) && store.projects == old(store.projects)
    ensures !TaskExists(old(store.tasks), task) ==>
      r == Err(NoSuchTask) && store.rows == old(store.rows) && store.tasks == old(store.tasks)
    ensures TaskExists(old(store.tasks), task) ==>
      var db0 := old(store.Snapshot());
      var k := TaskIndex(old(store.tasks), task).value;
      var v := SubmittedHours(db0, task);
      var stopped := employee.Some? && StopTarget(db0, employee.value, task).Some?;
      && (stopped ==>
            var i := StopTarget(db0, employee.value, task).value;
            store.rows == old(store.rows)[i := CloseBilled(old(store.rows)[i], now)])
      && (!stopped ==> store.rows == old(store.rows))
      && r == Err(MissingMethod("validate_task"))
      && store.tasks == old(store.tasks)[k := old(store.tasks)[k].(actualTime := v)]
  {
    if !TaskExists(store.tasks, task) {
      return Err(NoSuchTask);
    }
    var stopped, doc := PrepareCompletion(store, employee, task, now);
    r := Err(MissingMethod("validate_task"));
  }

  /** As written, completing a task that is not Completed leaves it not
      Completed, whatever the timers and the project. */
  method NeverCompletedAsWritten(store: Store, employee: Option<string>, task: string, now: int)
    requires TaskExists(store.tasks, task)
    requires store.tasks[TaskIndex(store.tasks, task).value].status != Completed
    modifies store
    ensures TaskExists(store.tasks, task)
    ensures store.tasks[TaskIndex(store.tasks, task).value].status != Completed
  {
    ghost var tasks0 := store.tasks;
    var r := CompleteTaskAsWritten(store, employee, task, now);
    TaskIndexByNames(store.tasks, tasks0, task);
  }

  // ---------------------------------------------------------------- stop all

  predicate OpenDraftRow(db: Tables, e: string, i: nat)
  {
    InSheetOf(db, i, e, Draft) && IsOpen(db.rows[i])
  }

  /** The rows `Task.stop_all_active_timers` closes; its query has no ORDER BY,
      so they are taken oldest first. */
  function OpenDraftRows(db: Tables, e: string): (r: seq<nat>)
    ensures forall i: nat :: i in r <==> OpenDraftRow(db, e, i)
    ensures forall k :: 0 <= k < |r| ==> r[k] < |db.rows|
    ensures forall a, b :: 0 <= a < b < |r| ==> r[a] < r[b]
  {
    var p := (i: nat) => OpenDraftRow(db, e, i);
    assert forall i: nat :: p(i) ==> i < |db.rows|;
    IndicesAsc(|db.rows|, p)
  }

  /** One turn of the loop after closing row `i`: while `stopped_task` is unset
      the row's task is loaded (raising for a row without one or a missing task)
      and its subject kept. */
  function Step(tasks: seq<Task>, d: Detail, acc: Option<string>): Result<Option<string>, TaskError>
  {
    if Present(acc) then Ok(acc)
    else
      match d.task
      case None => Err(TaskNotFound)
      case Some(name) =>
        match TaskIndex(tasks, name)
        case None => Err(TaskNotFound)
        case Some(t) => Ok(Some(tasks[t].subject))
  }

  function Reported(db: Tables, idxs: seq<nat>, acc: Option<string>): (o: StopAllOutcome)
    requires forall k :: 0 <= k < |idxs| ==> idxs[k] < |db.rows|
    ensures o.closed <= |idxs|
    ensures o.result.Ok? ==> o.closed == |idxs|
    ensures o.result.Err? ==> o.closed >= 1
    decreases |idxs|
  {
    if idxs == [] then StopAllOutcome(0, Ok(acc))
    else
      match Step(db.tasks, db.rows[idxs[0]], acc)
      case Err(err) => StopAllOutcome(1, Err(err))
      case Ok(next) =>
        var o := Reported(db, idxs[1..], next);
        o.(closed := o.closed + 1)
  }

  lemma ReportedUnfold(db: Tables, idxs: seq<nat>, n: nat, acc: Option<string>)
    requires forall k :: 0 <= k < |idxs| ==> idxs[k] < |db.rows|
    requires n < |idxs|
    ensures Step(db.tasks, db.rows[idxs[n]], acc).Err? ==>
      Reported(db, idxs[n..], acc) == StopAllOutcome(1, Step(db.tasks, db.rows[idxs[n]], acc))
    ensures Step(db.tasks, db.rows[idxs[n]], acc).Ok? ==>
      var o := Reported(db, idxs[n + 1..], Step(db.tasks, db.rows[idxs[n]], acc).value);
      Reported(db, idxs[n..], acc) == o.(closed := o.closed + 1)
  {
    assert idxs[n..][0] == idxs[n];
    assert idxs[n..][1..] == idxs[n + 1..];
  }
  /** The loop has handled the first `n` rows of `idxs` and holds `acc`: the
      rest of the loop yields the outcome of the whole loop. */
  predicate ReportedFrom(db: Tables, idxs: seq<nat>, n: nat, acc: Option<string>)
    requires forall k :: 0 <= k < |idxs| ==> idxs[k] < |db.rows|
    requires n <= |idxs|
  {
    var full := Reported(db, idxs, None);
    var rest := Reported(db, idxs[n..], acc);
    full.result == rest.result && full.closed == n + rest.closed
  }

  /** One more turn of the loop: a failing step ends it with `n + 1` rows
      closed, a succeeding one carries its subject on. */
  lemma ReportedNext(db: Tables, idxs: seq<nat>, n: nat, acc: Option<string>)
    requires forall k :: 0 <= k < |idxs| ==> idxs[k] < |db.rows|
    requires n < |idxs| && ReportedFrom(db, idxs, n, acc)
    ensures var step := Step(db.tasks, db.rows[idxs[n]], acc);
      && (step.Err? ==> Reported(db, idxs, None) == StopAllOutcome(n + 1, step))
      && (step.Ok? ==> ReportedFrom(db, idxs, n + 1, step.value))
  {
    ReportedUnfold(db, idxs, n, acc);
  }

  /** One turn of the loop over `idxs` on the rows as they stand: row
      `idxs[n]` is still as it was, closing it extends the closed rows by one,
      and the step taken on it moves the loop's outcome on. */
  lemma CloseTurn(db: Tables, rows: seq<Detail>, idxs: seq<nat>, n: nat, acc: Option<string>, now: int)
    requires forall k :: 0 <= k < |idxs| ==> idxs[k] < |db.rows|
    requires forall a, b :: 0 <= a < b < |idxs| ==> idxs[a] < idxs[b]
    requires n < |idxs| && ClosedAt(db.rows, rows, idxs[..n], now) && ReportedFrom(db, idxs, n, acc)
    ensures rows[idxs[n]] == db.rows[idxs[n]]
    ensures ClosedAt(db.rows, rows[idxs[n] := Close(rows[idxs[n]], now)], idxs[..n + 1], now)
    ensures var step := Step(db.tasks, db.rows[idxs[n]], acc);
      && (step.Err? ==> Reported(db, idxs, None) == StopAllOutcome(n + 1, step))
      && (step.Ok? ==> ReportedFrom(db, idxs, n + 1, step.value))
  {
    var i := idxs[n];
    assert i !in idxs[..n];
    assert idxs[..n + 1] == idxs[..n] + [i];
    CloseOneMore(db.rows, rows, idxs[..n], i, now);
    ReportedNext(db, idxs, n, acc);
  }

  /** After the last row the loop's outcome is every row closed and `acc`. */
  lemma ReportedDone(db: Tables, idxs: seq<nat>, acc: Option<string>)
    requires forall k :: 0 <= k < |idxs| ==> idxs[k] < |db.rows|
    requires ReportedFrom(db, idxs, |idxs|, acc)
    ensures Reported(db, idxs, None) == StopAllOutcome(|idxs|, Ok(acc))
  {
    assert idxs[|idxs|..] == [];
  }


  /** The first row decides: its task's subject is returned (when not empty) and
      every row is closed; when the first row has no task the call raises after
      closing that one row. */
  lemma {:induction false} ReportedFirst(db: Tables, idxs: seq<nat>)
    requires forall k :: 0 <= k < |idxs| ==> idxs[k] < |db.rows|
    requires idxs != []
    ensures db.rows[idxs[0]].task.None? ==> Reported(db, idxs, None) == StopAllOutcome(1, Err(TaskNotFound))
    ensures Present(Some(SubjectOf(db.tasks, FirstTask(db, idxs)))) && db.rows[idxs[0]].task.Some? ==>
      Reported(db, idxs, None) == StopAllOutcome(|idxs|, Ok(Some(SubjectOf(db.tasks, FirstTask(db, idxs)))))
  {
    var name := FirstTask(db, idxs);
    if db.rows[idxs[0]].task.Some? && Present(Some(SubjectOf(db.tasks, name))) {
      ReportedHolds(db, idxs[1..], Some(SubjectOf(db.tasks, name)));
    }
  }

  function FirstTask(db: Tables, idxs: seq<nat>): string
    requires forall k :: 0 <= k < |idxs| ==> idxs[k] < |db.rows|
    requires idxs != []
  {
    if db.rows[idxs[0]].task.Some? then db.rows[idxs[0]].task.value else ""
  }

  /** Once a subject is held, the rest of the loop only closes rows. It reads
      like `LiveLedger.ReportedKeeps`, but this loop's `Step` raises on a row
      without a task where that one skips it, so the fold is another. */
  lemma {:induction false} ReportedHolds(db: Tables, idxs: seq<nat>, acc: Option<string>)
    requires forall k :: 0 <= k < |idxs| ==> idxs[k] < |db.rows|
    requires Present(acc)
    ensures Reported(db, idxs, acc) == StopAllOutcome(|idxs|, Ok(acc))
  {
    if idxs != [] {
      ReportedHolds(db, idxs[1..], acc);
    }
  }

  method CloseRows(store: Store, idxs: seq<nat>, now: int) returns (r: Result<Option<string>, TaskError>)
    requires forall k :: 0 <= k < |idxs| ==> idxs[k] < |store.rows|
    requires forall a, b :: 0 <= a < b < |idxs| ==> idxs[a] < idxs[b]
    modifies store
    ensures store.timesheets == old(store.timesheets) && store.tasks == old(store.tasks)
    ensures store.projects == old(store.projects)
    ensures
      var o := Reported(old(store.Snapshot()), idxs, None);
      && r == o.result
      && |store.rows| == |old(store.rows)|
      && forall i :: 0 <= i < |old(store.rows)| ==>
           store.rows[i] == if i in idxs[..o.closed] then Close(old(store.rows)[i], now) else old(store.rows)[i]
  {
    ghost var db0 := store.Snapshot();
    var acc: Option<string> := None;
    var n := 0;
    assert idxs[0..] == idxs;
    while n < |idxs|
      invariant 0 <= n <= |idxs|
      invariant store.timesheets == db0.timesheets && store.tasks == db0.tasks && store.projects == db0.projects
      invariant ClosedAt(db0.rows, store.rows, idxs[..n], now)
      invariant ReportedFrom(db0, idxs, n, acc)
    {
      var i := idxs[n];
      CloseTurn(db0, store.rows, idxs, n, acc, now);
      var d := store.rows[i];
      store.rows := store.rows[i := Close(d, now)];
      var step := Step(store.tasks, d, acc);
      if step.Err? {
        return step;
      }
      acc := step.value;
      n := n + 1;
    }
    ReportedDone(db0, idxs, acc);
    assert idxs[..n] == idxs;
    r := Ok(acc);
  }

  /** `Task.stop_all_active_timers`: None without an employee; otherwise every
      running row in the employee's draft timesheets is closed in turn. */
  method StopAllActiveTimers(store: Store, employee: Option<string>, now: int)
    returns (r: Result<Option<string>, TaskError>)
    modifies store
    ensures store.timesheets == old(store.timesheets) && store.tasks == old(store.tasks)
    ensures store.projects == old(store.projects)
    ensures employee.None? ==> r == Ok(None) && store.rows == old(store.rows)
    ensures employee.Some? ==>
      var db0 := old(store.Snapshot());
      var open := OpenDraftRows(db0, employee.value);
      var o := Reported(db0, open, None);
      && r == o.result
      && |store.rows| == |db0.rows|
      && forall i :: 0 <= i < |db0.rows| ==>
           store.rows[i] == if i in open[..o.closed] then Close(db0.rows[i], now) else db0.rows[i]
  {
    if employee.None? {
      return Ok(None);
    }
    r := CloseRows(store, OpenDraftRows(store.Snapshot(), employee.value), now);
  }

  /** `Task.get_default_activity_type`: the employee's default, else the first
      Activity Type, else the literal "Task". */
  function DefaultActivityType(employee: Option<string>, employeeDefault: Option<string>,
                               firstActivityType: Option<string>): (r: string)
    ensures r != ""
    ensures employee.Some? && Present(employeeDefault) ==> r == employeeDefault.value
    ensures !(employee.Some? && Present(employeeDefault)) && Present(firstActivityType) ==> r == firstActivityType.value
    ensures !(employee.Some? && Present(employeeDefault)) && !Present(firstActivityType) ==> r == "Task"
  {
    if employee.Some? && Present(employeeDefault) then employeeDefault.value
    else if Present(firstActivityType) then firstActivityType.value
    else "Task"
  }

  // ---------------------------------------------------------------- hooks

  /** A running row of `task` in any draft timesheet. */
  predicate OpenTimerOf(db: Tables, task: string, i: nat)
  {
    HasSheet(db, i) && SheetOf(db, i).docstatus == Draft && IsOpen(db.rows[i]) && db.rows[i].task == Some(task)
  }

  predicate HasOpenTimer(db: Tables, task: string)
  {
    exists i: nat :: i < |db.rows| && OpenTimerOf(db, task, i)
  }

  /** The first check of `validate_task` that `doc` fails, if any. */
  function Rejected(db: Tables, doc: Task): (r: Option<Rejection>)
    ensures r == Some(MissingProject) <==> !Present(doc.project)
    ensures r == Some(UnknownProject) <==> Present(doc.project) && ProjectIndex(db.projects, doc.project.value).None?
    ensures r == Some(ProjectIsCompleted) <==>
      Present(doc.project) && ProjectIndex(db.projects, doc.project.value).Some?
      && db.projects[ProjectIndex(db.projects, doc.project.value).value].status == ProjectCompleted
    ensures r.None? ==>
      Present(doc.project) && ProjectIndex(db.projects, doc.project.value).Some?
      && db.projects[ProjectIndex(db.projects, doc.project.value).value].status != ProjectCompleted
    ensures r == Some(TimersRunning) <==>
      Present(doc.project) && ProjectIndex(db.projects, doc.project.value).Some?
      && db.projects[ProjectIndex(db.projects, doc.project.value).value].status != ProjectCompleted
      && doc.status == Completed && HasOpenTimer(db, doc.name)
  {
    if !Present(doc.project) then Some(MissingProject)
    else
      match ProjectIndex(db.projects, doc.project.value)
      case None => Some(UnknownProject)
      case Some(p) =>
        if db.projects[p].status == ProjectCompleted then Some(ProjectIsCompleted)
        else if doc.status == Completed && HasOpenTimer(db, doc.name) then Some(TimersRunning)
        else None
  }

  /** `validate_task`: throws for the first failed check; a Completed task it
      accepts gets progress 100, and `completed_on` today when it had none. */
  method ValidateTask(db: Tables, doc: Task, now: int) returns (r: Result<Task, Rejection>)
    ensures r.Err? <==> Rejected(db, doc).Some?
    ensures r.Err? ==> r.error == Rejected(db, doc).value
    ensures r.Ok? && doc.status != Completed ==> r.value == doc
    ensures r.Ok? && doc.status == Completed ==>
      && !HasOpenTimer(db, doc.name)
      && r.value.progress == 100
      && r.value.completedOn == (if doc.completedOn.None? then Some(DayOf(now)) else doc.completedOn)
      && r.value.(progress := doc.progress, completedOn := doc.completedOn) == doc
  {
    var rejected := Rejected(db, doc);
    if rejected.Some? {
      return Err(rejected.value);
    }
    var t := doc;
    if t.status == Completed {
      if t.completedOn.None? {
        t := t.(completedOn := Some(DayOf(now)));
      }
      t := t.(progress := 100);
    }
    r := Ok(t);
  }

  /** The rows `on_task_update` closes, oldest first. */
  function OpenTimers(db: Tables, task: string): (r: seq<nat>)
    ensures forall i: nat :: i in r <==> OpenTimerOf(db, task, i)
    ensures forall k :: 0 <= k < |r| ==> r[k] < |db.rows|
    ensures forall a, b :: 0 <= a < b < |r| ==> r[a] < r[b]
  {
    var p := (i: nat) => OpenTimerOf(db, task, i);
    assert forall i: nat :: p(i) ==> i < |db.rows|;
    IndicesAsc(|db.rows|, p)
  }

  /** `on_task_update`: saving a Completed task closes every running row of it,
      so that afterwards none is left. */
  method OnTaskUpdate(store: Store, doc: Task, now: int)
    modifies store
    ensures store.timesheets == old(store.timesheets) && store.tasks == old(store.tasks)
    ensures store.projects == old(store.projects)
    ensures doc.status != Completed ==> store.rows == old(store.rows)
    ensures doc.status == Completed ==>
      && |store.rows| == |old(store.rows)|
      && (forall i :: 0 <= i < |old(store.rows)| ==>
            store.rows[i] == if OpenTimerOf(old(store.Snapshot()), doc.name, i)
                             then CloseBilled(old(store.rows)[i], now) else old(store.rows)[i])
      && !HasOpenTimer(store.Snapshot(), doc.name)
  {
    if doc.status != Completed {
      return;
    }
    ghost var db0 := store.Snapshot();
    var idxs := OpenTimers(store.Snapshot(), doc.name);
    var n := 0;
    while n < |idxs|
      invariant 0 <= n <= |idxs|
      invariant store.timesheets == db0.timesheets && store.tasks == db0.tasks && store.projects == db0.projects
      invariant |store.rows| == |db0.rows|
      invariant forall i :: 0 <= i < |db0.rows| ==>
        store.rows[i] == if i in idxs[..n] then CloseBilled(db0.rows[i], now) else db0.rows[i]
    {
      var i := idxs[n];
      assert i !in idxs[..n];
      assert idxs[..n + 1] == idxs[..n] + [i];
      store.rows := store.rows[i := CloseBilled(store.rows[i], now)];
      n := n + 1;
    }
    assert idxs[..n] == idxs;
    assert forall i: nat :: !OpenTimerOf(store.Snapshot(), doc.name, i) by {
      forall i: nat
        ensures !OpenTimerOf(store.Snapshot(), doc.name, i)
      {
        if i < |db0.rows| && i in idxs {
          assert !IsOpen(store.rows[i]);
        }
      }
    }
  }

  /** `on_task_trash`: deletion is refused exactly while a running row of the
      task remains. */
  function OnTaskTrash(db: Tables, doc: Task): (r: Outcome<Rejection>)
    ensures r.Fail? <==> exists i: nat :: OpenTimerOf(db, doc.name, i)
    ensures r.Fail? ==> r.error == TimersRunning
  {
    if HasOpenTimer(db, doc.name) then Fail(TimersRunning) else Pass
  }
}
