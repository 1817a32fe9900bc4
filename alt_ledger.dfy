/** The second timer ledger (`better_project/api/__init__.py`): the same
    start/stop/complete operations as the live ledger, with different queries.
    It looks at every non-cancelled timesheet of the employee (not only drafts),
    reuses only a timesheet dated exactly today, creates timesheets without a
    default row, closes rows without `billing_hours`, and completes a task
    whether or not a timer was stopped.

    The employee linked to the session user is passed in (`employee`), as are
    the clock (`now`, in seconds) and the Projects Settings default activity
    type (`settingsDefault`). */
module AltLedger {
  import opened Wrappers
  import opened Query
  import opened Store
  import TaskController

  datatype AltError = NoEmployee | TaskNotFound | NoProject | NoActiveTimer
    | SaveRejected(why: TaskController.Rejection) | SaveRaised(missing: string)

  /** `{"success": True}` with `stopped_task` present only when it is truthy. */
  datatype StartResult = Started(stoppedTask: Option<string>) | StartFailed(error: AltError)

  // ---------------------------------------------------------------- lookups

  /** A timesheet of `e` that `get_user_timesheets` lists: `docstatus != 2`. */
  predicate UserSheet(ts: Timesheet, e: string)
  {
    ts.employee == e && ts.docstatus != DocStatus.Cancelled
  }

  /** `get_user_timesheets`: the names of the employee's non-cancelled
      timesheets, newest first. */
  function UserTimesheets(sheets: seq<Timesheet>, e: string): (r: seq<nat>)
    ensures forall j: nat :: j in r <==> j < |sheets| && UserSheet(sheets[j], e)
    ensures forall a, b :: 0 <= a < b < |r| ==> r[a] > r[b]
  {
    var p := (j: nat) => j < |sheets| && UserSheet(sheets[j], e);
    IndicesDesc(|sheets|, p)
  }

  /** Row `i` belongs to one of the employee's non-cancelled timesheets. */
  predicate InUserSheet(db: Tables, i: nat, e: string)
  {
    HasSheet(db, i) && UserSheet(SheetOf(db, i), e)
  }

  /** The filter `"parent": ["in", get_user_timesheets(employee)]` is the
      predicate `InUserSheet`. */
  lemma ParentInUserTimesheets(db: Tables, e: string, i: nat)
    requires i < |db.rows|
    ensures db.rows[i].parent in UserTimesheets(db.timesheets, e) <==> InUserSheet(db, i, e)
  {
  }

  /** `get_default_activity_type`: the settings value when it is truthy,
      otherwise "Development"; never empty. */
  function DefaultActivityType(settingsDefault: Option<string>): (r: string)
    ensures r != ""
    ensures Present(settingsDefault) ==> r == settingsDefault.value
    ensures !Present(settingsDefault) ==> r == "Development"
  {
    if Present(settingsDefault) then settingsDefault.value else "Development"
  }

  // ---------------------------------------------------------------- stop all

  /** A running row in one of the employee's non-cancelled timesheets, with or
      without a task. */
  predicate OpenUserRow(db: Tables, e: string, i: nat)
  {
    InUserSheet(db, i, e) && IsOpen(db.rows[i])
  }

  /** The rows `stop_all_active_timers` closes, newest first. */
  function OpenUserRows(db: Tables, e: string): (r: seq<nat>)
    ensures forall i: nat :: i in r <==> OpenUserRow(db, e, i)
    ensures forall k :: 0 <= k < |r| ==> r[k] < |db.rows|
    ensures forall a, b :: 0 <= a < b < |r| ==> r[a] > r[b]
  {
    var p := (i: nat) => OpenUserRow(db, e, i);
    assert forall i: nat :: p(i) ==> i < |db.rows|;
    IndicesDesc(|db.rows|, p)
  }

  /** The value of `stopped_task` after the loop over `idxs`, from `acc`:
      `if not stopped_task: stopped_task = log.task`. */
  function StoppedTaskAfter(db: Tables, idxs: seq<nat>, acc: Option<string>): Option<string>
    requires forall k :: 0 <= k < |idxs| ==> idxs[k] < |db.rows|
    decreases |idxs|
  {
    if idxs == [] then acc
    else StoppedTaskAfter(db, idxs[1..], if Present(acc) then acc else db.rows[idxs[0]].task)
  }

  /** Once `stopped_task` is truthy the loop keeps it. */
  lemma {:induction false} StoppedTaskKept(db: Tables, idxs: seq<nat>, acc: Option<string>)
    requires forall k :: 0 <= k < |idxs| ==> idxs[k] < |db.rows|
    requires Present(acc)
    ensures StoppedTaskAfter(db, idxs, acc) == acc
    decreases |idxs|
  {
    if idxs != [] {
      StoppedTaskKept(db, idxs[1..], acc);
    }
  }

  /** The returned task is the task of the newest closed row that has a truthy
      task; when no row has one, it is not truthy. */
  lemma {:induction false} StoppedTaskIsFirstNamed(db: Tables, idxs: seq<nat>)
    requires forall k :: 0 <= k < |idxs| ==> idxs[k] < |db.rows|
    ensures Present(StoppedTaskAfter(db, idxs, None)) <==> exists k :: 0 <= k < |idxs| && Present(db.rows[idxs[k]].task)
    ensures forall k ::
              (0 <= k < |idxs| && Present(db.rows[idxs[k]].task)
               && forall j :: 0 <= j < k ==> !Present(db.rows[idxs[j]].task)) ==>
              StoppedTaskAfter(db, idxs, None) == db.rows[idxs[k]].task
    decreases |idxs|
  {
    if idxs != [] {
      var first := db.rows[idxs[0]].task;
      var tail := idxs[1..];
      assert forall k :: 1 <= k < |idxs| ==> idxs[k] == tail[k - 1];
      if Present(first) {
        StoppedTaskKept(db, tail, first);
      } else {
        StoppedTaskIsFirstNamed(db, tail);
        StoppedTaskFromFalsy(db, tail, first);
        forall k | 0 <= k < |idxs| && Present(db.rows[idxs[k]].task)
            && (forall j :: 0 <= j < k ==> !Present(db.rows[idxs[j]].task))
          ensures StoppedTaskAfter(db, idxs, None) == db.rows[idxs[k]].task
        {
          assert k >= 1;
          assert forall j :: 0 <= j < k - 1 ==> !Present(db.rows[tail[j]].task) by {
            forall j | 0 <= j < k - 1
              ensures !Present(db.rows[tail[j]].task)
            {
              assert tail[j] == idxs[j + 1];
            }
          }
        }
        if exists k :: 0 <= k < |idxs| && Present(db.rows[idxs[k]].task) {
          var k :| 0 <= k < |idxs| && Present(db.rows[idxs[k]].task);
          assert k >= 1 && Present(db.rows[tail[k - 1]].task);
        }
      }
    }
  }

  /** Starting from any falsy value is starting from None, except that with
      no rows the falsy value itself comes back. */
  lemma {:induction false} StoppedTaskFromFalsy(db: Tables, idxs: seq<nat>, acc: Option<string>)
    requires forall k :: 0 <= k < |idxs| ==> idxs[k] < |db.rows|
    requires !Present(acc)
    ensures Present(StoppedTaskAfter(db, idxs, acc)) ==> StoppedTaskAfter(db, idxs, acc) == StoppedTaskAfter(db, idxs, None)
    ensures idxs != [] ==> StoppedTaskAfter(db, idxs, acc) == StoppedTaskAfter(db, idxs, None)
  {
  }

  /** The loop of `stop_all_active_timers` over the rows `idxs` (newest first):
      each is closed with `to_time = now` and `hours = now - from_time`. */
  method CloseRows(store: Store, idxs: seq<nat>, now: int) returns (r: Option<string>)
    requires forall k :: 0 <= k < |idxs| ==> idxs[k] < |store.rows|
    requires forall a, b :: 0 <= a < b < |idxs| ==> idxs[a] > idxs[b]
    modifies store
    ensures store.timesheets == old(store.timesheets) && store.tasks == old(store.tasks)
    ensures store.projects == old(store.projects)
    ensures |store.rows| == |old(store.rows)|
    ensures forall i :: 0 <= i < |old(store.rows)| ==>
      store.rows[i] == if i in idxs then Close(old(store.rows)[i], now) else old(store.rows)[i]
    ensures r == StoppedTaskAfter(old(store.Snapshot()), idxs, None)
  {
    ghost var db0 := store.Snapshot();
    r := None;
    var n := 0;
    while n < |idxs|
      invariant 0 <= n <= |idxs|
      invariant store.timesheets == db0.timesheets && store.tasks == db0.tasks && store.projects == db0.projects
      invariant ClosedAt(db0.rows, store.rows, idxs[..n], now)
      invariant StoppedTaskAfter(db0, idxs, None) == StoppedTaskAfter(db0, idxs[n..], r)
    {
      var i := idxs[n];
      assert i !in idxs[..n];
      assert idxs[..n + 1] == idxs[..n] + [i];
      assert idxs[n..][1..] == idxs[n + 1..];
      CloseOneMore(db0.rows, store.rows, idxs[..n], i, now);
      if !Present(r) {
        r := store.rows[i].task;
      }
      store.rows := store.rows[i := Close(store.rows[i], now)];
      n := n + 1;
    }
    assert idxs[..n] == idxs;
  }

  method StopAllActiveTimers(store: Store, e: string, now: int) returns (r: Option<string>)
    modifies store
    ensures store.timesheets == old(store.timesheets) && store.tasks == old(store.tasks)
    ensures store.projects == old(store.projects)
    ensures |store.rows| == |old(store.rows)|
    ensures forall i :: 0 <= i < |old(store.rows)| ==>
      store.rows[i] == if OpenUserRow(old(store.Snapshot()), e, i) then Close(old(store.rows)[i], now) else old(store.rows)[i]
    ensures r == StoppedTaskAfter(old(store.Snapshot()), OpenUserRows(old(store.Snapshot()), e), None)
  {
    r := CloseRows(store, OpenUserRows(store.Snapshot(), e), now);
  }

  /** With no running row nothing is closed and None is returned. */
  lemma StopAllNothingOpen(db: Tables, e: string)
    requires forall i: nat :: !OpenUserRow(db, e, i)
    ensures OpenUserRows(db, e) == [] && StoppedTaskAfter(db, OpenUserRows(db, e), None) == None
  {
    NoMembers(OpenUserRows(db, e));
  }

  // ---------------------------------------------------------------- timesheets

  /** A timesheet `get_or_create_timesheet` reuses: the employee's, a draft, and
      dated exactly `today` at both ends. */
  predicate DatedToday(ts: Timesheet, e: string, today: int)
  {
    ts.employee == e && ts.startDate == today && ts.endDate == today && ts.docstatus == Draft
  }

  /** The reused timesheet (`frappe.db.get_value` has no order; the oldest is taken). */
  function FindTimesheet(sheets: seq<Timesheet>, e: string, today: int): (r: Option<nat>)
    ensures r.Some? ==> r.value < |sheets| && DatedToday(sheets[r.value], e, today)
    ensures r.Some? ==> forall j :: 0 <= j < r.value ==> !DatedToday(sheets[j], e, today)
    ensures r.None? ==> forall j :: 0 <= j < |sheets| ==> !DatedToday(sheets[j], e, today)
  {
    var p := (j: nat) => j < |sheets| && DatedToday(sheets[j], e, today);
    assert forall j: nat :: j < |sheets| ==> (p(j) <==> DatedToday(sheets[j], e, today));
    FirstWhere(|sheets|, p)
  }

  /** The timesheet created for today: no project and no rows. */
  function NewSheet(e: string, today: int): Timesheet
  {
    Timesheet(e, None, today, today, Draft)
  }

  /** After a timesheet was created for today, the lookup finds that one; so a
      second call on the same day returns the same name. */
  lemma FindTimesheetAfterCreate(sheets: seq<Timesheet>, e: string, today: int)
    requires FindTimesheet(sheets, e, today).None?
    ensures FindTimesheet(sheets + [NewSheet(e, today)], e, today) == Some(|sheets|)
  {
    var grown := sheets + [NewSheet(e, today)];
    assert forall j :: 0 <= j < |sheets| ==> grown[j] == sheets[j];
    assert DatedToday(grown[|sheets|], e, today);
  }

  /** A found timesheet stays the one found when more timesheets are added. */
  lemma FindTimesheetStable(sheets: seq<Timesheet>, more: seq<Timesheet>, e: string, today: int)
    requires FindTimesheet(sheets, e, today).Some?
    ensures FindTimesheet(sheets + more, e, today) == FindTimesheet(sheets, e, today)
  {
    var grown := sheets + more;
    assert forall j :: 0 <= j < |sheets| ==> grown[j] == sheets[j];
  }

  method GetOrCreateTimesheet(store: Store, e: string, now: int) returns (sheet: nat)
    modifies store
    ensures store.rows == old(store.rows) && store.tasks == old(store.tasks)
    ensures store.projects == old(store.projects)
    ensures match FindTimesheet(old(store.timesheets), e, DayOf(now))
      case Some(j) => sheet == j && store.timesheets == old(store.timesheets)
      case None =>
        sheet == |old(store.timesheets)| && store.timesheets == old(store.timesheets) + [NewSheet(e, DayOf(now))]
    ensures FindTimesheet(store.timesheets, e, DayOf(now)) == Some(sheet)
  {
    var today := DayOf(now);
    var found := FindTimesheet(store.timesheets, e, today);
    if found.Some? {
      return found.value;
    }
    FindTimesheetAfterCreate(store.timesheets, e, today);
    sheet := |store.timesheets|;
    store.timesheets := store.timesheets + [NewSheet(e, today)];
  }

  // ---------------------------------------------------------------- start

  /** The row `start_timer` appends: running since `now`, for `task`. */
  function TimerRow(sheet: nat, task: string, now: int, activity: string): Detail
  {
    Detail(sheet, Some(task), now, None, 0, 0, activity)
  }

  /** The timesheet the new row goes to, as `get_or_create_timesheet` picks it. */
  function TargetSheet(sheets: seq<Timesheet>, e: string, today: int): nat
  {
    match FindTimesheet(sheets, e, today)
    case Some(j) => j
    case None => |sheets|
  }

  /** `if stopped_task: result["stopped_task"] = stopped_task`. */
  function Truthy(o: Option<string>): (r: Option<string>)
    ensures r.Some? <==> Present(o)
    ensures r.Some? ==> r == o
  {
    if Present(o) then o else None
  }

  method StartTimer(store: Store, employee: Option<string>, task: string, now: int, settingsDefault: Option<string>)
    returns (r: StartResult)
    modifies store
    ensures store.tasks == old(store.tasks) && store.projects == old(store.projects)
    ensures employee.None? ==> r == StartFailed(NoEmployee) && unchanged(store)
    ensures employee.Some? && !TaskExists(old(store.tasks), task) ==>
      r == StartFailed(TaskNotFound) && unchanged(store)
    ensures (employee.Some? && TaskExists(old(store.tasks), task)
             && !Present(old(store.tasks)[TaskIndex(old(store.tasks), task).value].project)) ==>
      r == StartFailed(NoProject) && unchanged(store)
    ensures (employee.Some? && TaskExists(old(store.tasks), task)
             && Present(old(store.tasks)[TaskIndex(old(store.tasks), task).value].project)) ==>
      var db0 := old(store.Snapshot());
      var e := employee.value;
      var today := DayOf(now);
      && r == Started(Truthy(StoppedTaskAfter(db0, OpenUserRows(db0, e), None)))
      && store.timesheets == (if FindTimesheet(db0.timesheets, e, today).Some? then db0.timesheets
                              else db0.timesheets + [NewSheet(e, today)])
      && |store.rows| == |db0.rows| + 1
      && (forall i :: 0 <= i < |db0.rows| ==>
            store.rows[i] == if OpenUserRow(db0, e, i) then Close(db0.rows[i], now) else db0.rows[i])
      && store.rows[|db0.rows|] ==
           TimerRow(TargetSheet(db0.timesheets, e, today), task, now, DefaultActivityType(settingsDefault))
  {
    if employee.None? {
      return StartFailed(NoEmployee);
    }
    var e := employee.value;
    var k := TaskIndex(store.tasks, task);
    if k.None? {
      return StartFailed(TaskNotFound);
    }
    if !Present(store.tasks[k.value].project) {
      return StartFailed(NoProject);
    }
    var stopped := StopAllActiveTimers(store, e, now);
    var sheet := GetOrCreateTimesheet(store, e, now);
    store.rows := store.rows + [TimerRow(sheet, task, now, DefaultActivityType(settingsDefault))];
    r := Started(Truthy(stopped));
  }

  // ---------------------------------------------------------------- stop

  /** A running row of `task` in one of the employee's non-cancelled timesheets. */
  predicate RunningFor(db: Tables, e: string, task: string, i: nat)
  {
    OpenUserRow(db, e, i) && db.rows[i].task == Some(task)
  }

  /** The row `stop_timer` closes: the newest running row of the task. The text
      matches `LiveLedger.StopTarget`, but `RunningFor` here admits any sheet
      that is not cancelled, where the other ledger admits only drafts. */
  function StopTarget(db: Tables, e: string, task: string): (r: Option<nat>)
    ensures r.Some? ==> RunningFor(db, e, task, r.value)
    ensures r.Some? ==> forall i: nat :: r.value < i ==> !RunningFor(db, e, task, i)
    ensures r.None? ==> forall i: nat :: !RunningFor(db, e, task, i)
  {
    var p := (i: nat) => RunningFor(db, e, task, i);
    assert forall i: nat :: p(i) <==> RunningFor(db, e, task, i);
    assert forall i: nat :: p(i) ==> i < |db.rows|;
    LastWhere(|db.rows|, p)
  }

  /** The rows after `stop_timer`: the target closed, everything else as it was. */
  function RowsAfterStop(db: Tables, employee: Option<string>, task: string, now: int): seq<Detail>
  {
    if employee.None? then db.rows
    else
      match StopTarget(db, employee.value, task)
      case None => db.rows
      case Some(i) => db.rows[i := Close(db.rows[i], now)]
  }

  method StopTimer(store: Store, employee: Option<string>, task: string, now: int)
    returns (r: Outcome<AltError>)
    modifies store
    ensures store.timesheets == old(store.timesheets) && store.tasks == old(store.tasks)
    ensures store.projects == old(store.projects)
    ensures store.rows == RowsAfterStop(old(store.Snapshot()), employee, task, now)
    ensures employee.None? ==> r == Fail(NoEmployee)
    ensures employee.Some? ==>
      (r == Pass <==> StopTarget(old(store.Snapshot()), employee.value, task).Some?)
      && (r.Fail? ==> r.error == NoActiveTimer)
  {
    if employee.None? {
      return Fail(NoEmployee);
    }
    var target := StopTarget(store.Snapshot(), employee.value, task);
    if target.None? {
      return Fail(NoActiveTimer);
    }
    var i := target.value;
    store.rows := store.rows[i := Close(store.rows[i], now)];
    r := Pass;
  }

  /** A stop closes one running row of the task and no other row. */
  lemma StopClosesOnlyTarget(db: Tables, e: string, task: string, now: int)
    ensures var rows := RowsAfterStop(db, Some(e), task, now);
      && |rows| == |db.rows|
      && (forall i :: 0 <= i < |db.rows| && rows[i] != db.rows[i] ==>
            RunningFor(db, e, task, i) && rows[i] == Close(db.rows[i], now))
      && ((exists i: nat :: RunningFor(db, e, task, i)) ==>
            exists i: nat :: RunningFor(db, e, task, i) && rows[i] == Close(db.rows[i], now))
  {
    var t := StopTarget(db, e, task);
    if t.Some? {
      assert RunningFor(db, e, task, t.value);
    }
  }

  // ---------------------------------------------------------------- complete

  /** `complete_task`: stops the timer, ignoring the outcome, then loads the
      task, marks it Completed and saves it; a save that `validate_task` turns
      away (a running draft row of the task that the stop left, or a missing
      or completed project) is reported as a failure with the stop's close
      kept. */
  method CompleteTask(store: Store, employee: Option<string>, task: string, now: int)
    returns (r: Outcome<AltError>)
    modifies store
    ensures store.timesheets == old(store.timesheets) && store.projects == old(store.projects)
    ensures store.rows == RowsAfterStop(old(store.Snapshot()), employee, task, now)
    ensures var db1 := old(store.Snapshot()).(rows := RowsAfterStop(old(store.Snapshot()), employee, task, now));
      match TaskIndex(old(store.tasks), task)
      case None => r == Fail(TaskNotFound) && store.tasks == old(store.tasks)
      case Some(k) =>
        var done := MarkCompleted(old(store.tasks)[k], DayOf(now));
        match TaskController.Rejected(db1, done)
        case Some(why) => r == Fail(SaveRejected(why)) && store.tasks == old(store.tasks)
        case None => r == Pass && store.tasks == old(store.tasks)[k := done]
  {
    var _ := StopTimer(store, employee, task, now);
    var k := TaskIndex(store.tasks, task);
    if k.None? {
      return Fail(TaskNotFound);
    }
    var doc := MarkCompleted(store.tasks[k.value], DayOf(now));
    var saved := TaskController.SaveTask(store, doc, now);
    if saved.Err? {
      return Fail(SaveRejected(saved.error));
    }
    assert saved.value == doc;
    r := Pass;
  }

  /** `complete_task` as the code stands: whatever the stop did, the save
      raises AttributeError in the Task controller's `validate` (it calls
      `self.validate_task()`, which `Task` does not define) and the call
      answers `success: False`. The stop's close is kept and no task is
      changed, so no task is ever stored Completed this way. */
  method CompleteTaskAsWritten(store: Store, employee: Option<string>, task: string, now: int)
    returns (r: Outcome<AltError>)
    modifies store
    ensures store.timesheets == old(store.timesheets) && store.projects == old(store.projects)
    ensures store.tasks == old(store.tasks)
    ensures store.rows == RowsAfterStop(old(store.Snapshot()), employee, task, now)
    ensures TaskIndex(old(store.tasks), task).None? ==> r == Fail(TaskNotFound)
    ensures TaskIndex(old(store.tasks), task).Some? ==> r == Fail(SaveRaised("validate_task"))
  {
    var _ := StopTimer(store, employee, task, now);
    var k := TaskIndex(store.tasks, task);
    if k.None? {
      return Fail(TaskNotFound);
    }
    r := Fail(SaveRaised("validate_task"));
  }
}
