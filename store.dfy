/** The part of the document store that the timer code reads and writes: the
    Task, Project, Timesheet and Timesheet Detail tables. A timesheet's name is
    its position in `timesheets`; rows of every table are kept in creation order,
    so "newer" means "further back". Time is counted in whole seconds and dates in
    whole days. */
module Store {
  import opened Wrappers
  import opened Query

  const SecondsPerDay: int := 86400

  /** The calendar day of an instant (`DATE(td.from_time)`, `now_datetime().date()`). */
  function DayOf(t: int): int { t / SecondsPerDay }

  /** A document's `docstatus`: 0, 1 or 2. */
  datatype DocStatus = Draft | Submitted | Cancelled

  datatype TaskStatus = Open | Working | PendingReview | Overdue | Template | Completed | Cancelled

  datatype Priority = Low | Medium | High | Urgent

  datatype ProjectStatus = ProjectOpen | ProjectCompleted | ProjectCancelled

  /** A Task. `assignees` stands for the users that `assigned_to` and `_user_tags`
      name; `completedOn` is a day. */
  datatype Task = Task(
    name: string,
    subject: string,
    project: Option<string>,
    status: TaskStatus,
    progress: int,
    completedOn: Option<int>,
    actualTime: int,
    docstatus: DocStatus,
    priority: Option<Priority>,
    expStartDate: Option<int>,
    expEndDate: Option<int>,
    creation: int,
    assignees: set<string>)

  datatype Project = Project(name: string, projectName: string, status: ProjectStatus)

  datatype Timesheet = Timesheet(
    employee: string,
    project: Option<string>,
    startDate: int,
    endDate: int,
    docstatus: DocStatus)

  /** A Timesheet Detail row (a time log). `parent` is the timesheet's position;
      `toTime` is None while the timer runs; `hours` and `billingHours` hold an
      elapsed time in seconds. */
  datatype Detail = Detail(
    parent: nat,
    task: Option<string>,
    fromTime: int,
    toTime: Option<int>,
    hours: int,
    billingHours: int,
    activityType: string)

  datatype Tables = Tables(
    timesheets: seq<Timesheet>,
    rows: seq<Detail>,
    tasks: seq<Task>,
    projects: seq<Project>)

  /** Python truthiness of an optional string field: set and not empty. */
  predicate Present(o: Option<string>) { o.Some? && o.value != "" }

  predicate IsOpen(d: Detail) { d.toTime.None? }

  /** Row `i` joins a timesheet (`JOIN tabTimesheet ts ON td.parent = ts.name`). */
  predicate HasSheet(db: Tables, i: nat)
  {
    i < |db.rows| && db.rows[i].parent < |db.timesheets|
  }

  function SheetOf(db: Tables, i: nat): Timesheet
    requires HasSheet(db, i)
  {
    db.timesheets[db.rows[i].parent]
  }

  /** Row `i` lies in a timesheet of employee `e` whose docstatus is `st`. */
  predicate InSheetOf(db: Tables, i: nat, e: string, st: DocStatus)
  {
    HasSheet(db, i) && SheetOf(db, i).employee == e && SheetOf(db, i).docstatus == st
  }

  /** The `hours` column as a function of the row position (0 past the end). */
  function RowHours(db: Tables): nat -> int
  {
    (i: nat) => if i < |db.rows| then db.rows[i].hours else 0
  }

  /** The position of the task called `name` (`JOIN tabTask t ON td.task = t.name`). */
  function TaskIndex(tasks: seq<Task>, name: string): (r: Option<nat>)
    ensures r.Some? ==> r.value < |tasks| && tasks[r.value].name == name
    ensures r.Some? ==> forall k :: 0 <= k < r.value ==> tasks[k].name != name
    ensures r.None? ==> forall k :: 0 <= k < |tasks| ==> tasks[k].name != name
  {
    var p := (k: nat) => k < |tasks| && tasks[k].name == name;
    var r := FirstWhere(|tasks|, p);
    assert forall k: nat :: k < |tasks| ==> (p(k) <==> tasks[k].name == name);
    r
  }

  /** The lookup depends on the names alone. */
  lemma TaskIndexByNames(t1: seq<Task>, t2: seq<Task>, name: string)
    requires |t1| == |t2| && forall k :: 0 <= k < |t1| ==> t1[k].name == t2[k].name
    ensures TaskIndex(t1, name) == TaskIndex(t2, name)
  {
  }

  predicate TaskExists(tasks: seq<Task>, name: string) { TaskIndex(tasks, name).Some? }

  /** The task's subject, or "" for a name with no task. */
  function SubjectOf(tasks: seq<Task>, name: string): string
  {
    match TaskIndex(tasks, name)
    case Some(k) => tasks[k].subject
    case None => ""
  }

  /** The position of the project called `name`. */
  function ProjectIndex(projects: seq<Project>, name: string): (r: Option<nat>)
    ensures r.Some? ==> r.value < |projects| && projects[r.value].name == name
    ensures r.None? ==> forall k :: 0 <= k < |projects| ==> projects[k].name != name
  {
    var p := (k: nat) => k < |projects| && projects[k].name == name;
    var r := FirstWhere(|projects|, p);
    assert forall k: nat :: k < |projects| ==> (p(k) <==> projects[k].name == name);
    r
  }

  /** The fields `complete_task` sets on a task before saving it: status
      Completed, `completed_on` the given day, progress 100. */
  function MarkCompleted(t: Task, day: int): (c: Task)
    ensures c.status == Completed && c.progress == 100 && c.completedOn == Some(day)
    ensures c.(status := t.status, progress := t.progress, completedOn := t.completedOn) == t
  {
    t.(status := Completed, completedOn := Some(day), progress := 100)
  }

  /** Closes a running row at `now`: `to_time = now`, `hours = now - from_time`. */
  function Close(d: Detail, now: int): (c: Detail)
    ensures c.toTime == Some(now) && c.hours == now - d.fromTime
    ensures c.(toTime := d.toTime, hours := d.hours) == d
  {
    d.(toTime := Some(now), hours := now - d.fromTime)
  }

  /** `rows` is `rows0` with the rows `closed`, and only those, closed at `now`. */
  predicate ClosedAt(rows0: seq<Detail>, rows: seq<Detail>, closed: seq<nat>, now: int)
  {
    && |rows| == |rows0|
    && forall i :: 0 <= i < |rows0| ==> rows[i] == if i in closed then Close(rows0[i], now) else rows0[i]
  }

  /** Closing a further row `i` extends the closed rows by `i`; until then the
      row is as it was. */
  lemma CloseOneMore(rows0: seq<Detail>, rows: seq<Detail>, closed: seq<nat>, i: nat, now: int)
    requires ClosedAt(rows0, rows, closed, now) && i < |rows0| && i !in closed
    ensures rows[i] == rows0[i]
    ensures ClosedAt(rows0, rows[i := Close(rows[i], now)], closed + [i], now)
  {
    var next := rows[i := Close(rows[i], now)];
    forall k | 0 <= k < |rows0|
      ensures next[k] == if k in closed + [i] then Close(rows0[k], now) else rows0[k]
    {
      assert k in closed + [i] <==> k in closed || k == i;
    }
  }

  /** As Close, also writing `billing_hours = hours`. */
  function CloseBilled(d: Detail, now: int): (c: Detail)
    ensures c.toTime == Some(now) && c.hours == now - d.fromTime && c.billingHours == c.hours
    ensures c.(toTime := d.toTime, hours := d.hours, billingHours := d.billingHours) == d
  {
    d.(toTime := Some(now), hours := now - d.fromTime, billingHours := now - d.fromTime)
  }

  /** The store itself: its tables are fields that the ledger operations reassign. */
  class Store {
    var timesheets: seq<Timesheet>
    var rows: seq<Detail>
    var tasks: seq<Task>
    var projects: seq<Project>

    constructor (timesheets: seq<Timesheet>, rows: seq<Detail>, tasks: seq<Task>, projects: seq<Project>)
      ensures this.timesheets == timesheets && this.rows == rows
      ensures this.tasks == tasks && this.projects == projects
    {
      this.timesheets := timesheets;
      this.rows := rows;
      this.tasks := tasks;
      this.projects := projects;
    }

    /** The tables as one value, for the read-only queries. */
    function Snapshot(): (db: Tables)
      reads this
      ensures db.timesheets == timesheets && db.rows == rows
      ensures db.tasks == tasks && db.projects == projects
    {
      Tables(timesheets, rows, tasks, projects)
    }
  }
}
