/** The notification feed of `better_project/notifications.py`: one item per
    running row of the employee whose task is a draft and not Completed, the
    most recently started first. The time-of-day text in each item's message
    comes from a framework formatter; the item keeps the start instant it
    formats instead. */
module Notifications {
  import opened Wrappers
  import opened Query
  import opened Store
  import opened Sorting

  /** One feed item: `title`, `route`, and the `from_time` its message shows. */
  datatype Notice = Notice(title: string, route: string, since: int)

  const TaskRoute: string := "/app/task/"

  /** `get_notification_config`: no doctype and no method is configured. */
  function NotificationConfig(): (r: map<string, string>)
    ensures forall doctype :: doctype !in r
  {
    map[]
  }

  /** Row `i` is listed: running, in a timesheet of `e` (any docstatus), and
      its task exists, is a draft and is not Completed. Task names are the
      table's key, so the join meets at most one task. */
  predicate ActiveRow(db: Tables, e: string, i: nat)
  {
    && HasSheet(db, i) && SheetOf(db, i).employee == e && IsOpen(db.rows[i])
    && db.rows[i].task.Some?
    && match TaskIndex(db.tasks, db.rows[i].task.value)
       case None => false
       case Some(k) => db.tasks[k].docstatus == Draft && db.tasks[k].status != Completed
  }

  /** `from_time` by row position (0 past the end), the sort key. */
  function StartAt(db: Tables, i: nat): int
  {
    if i < |db.rows| then db.rows[i].fromTime else 0
  }

  /** `ORDER BY td.from_time DESC` as an ordering of row positions. */
  lemma LaterStartTotal(db: Tables)
    ensures TotalPreorder((i: nat, j: nat) => StartAt(db, i) >= StartAt(db, j))
  {
  }

  /** The listed rows, newest created first, each once. */
  function ActiveFound(db: Tables, e: string): (r: seq<nat>)
    ensures forall i: nat :: multiset(r)[i] == if ActiveRow(db, e, i) then 1 else 0
  {
    var p := (i: nat) => ActiveRow(db, e, i);
    assert forall i: nat :: p(i) ==> i < |db.rows|;
    var found := IndicesDesc(|db.rows|, p);
    forall i: nat
      ensures multiset(found)[i] == if ActiveRow(db, e, i) then 1 else 0
    {
      DescendingOccursOnce(found, i);
    }
    found
  }

  /** Row positions sorted by `from_time`, latest first. */
  function LatestFirst(db: Tables, s: seq<nat>): (r: seq<nat>)
    ensures multiset(r) == multiset(s)
    ensures forall a, b :: 0 <= a < b < |r| ==> StartAt(db, r[a]) >= StartAt(db, r[b])
  {
    var le := (i: nat, j: nat) => StartAt(db, i) >= StartAt(db, j);
    LaterStartTotal(db);
    SortBy(s, le)
  }

  /** The listed rows, latest start first; each appears once. */
  function ActiveRows(db: Tables, e: string): (r: seq<nat>)
    ensures forall i: nat :: multiset(r)[i] == if ActiveRow(db, e, i) then 1 else 0
    ensures forall k :: 0 <= k < |r| ==> ActiveRow(db, e, r[k]) && r[k] < |db.rows|
    ensures forall a, b :: 0 <= a < b < |r| ==> db.rows[r[a]].fromTime >= db.rows[r[b]].fromTime
  {
    var r := LatestFirst(db, ActiveFound(db, e));
    forall k | 0 <= k < |r|
      ensures ActiveRow(db, e, r[k]) && r[k] < |db.rows|
    {
      assert r[k] in multiset(r);
    }
    r
  }

  /** The item built from row `i`. */
  function NoticeOf(db: Tables, i: nat): (n: Notice)
    requires i < |db.rows| && db.rows[i].task.Some?
    ensures n.title == SubjectOf(db.tasks, db.rows[i].task.value)
    ensures n.route == TaskRoute + db.rows[i].task.value
    ensures n.since == db.rows[i].fromTime
  {
    var name := db.rows[i].task.value;
    Notice(SubjectOf(db.tasks, name), TaskRoute + name, db.rows[i].fromTime)
  }

  /** `get_active_tasks_for_notification`: [] without an employee; otherwise
      one item per listed row, latest start first. */
  function ActiveTasksForNotification(db: Tables, employee: Option<string>): (r: seq<Notice>)
    ensures employee.None? ==> r == []
    ensures employee.Some? ==>
      var rows := ActiveRows(db, employee.value);
      |r| == |rows| && forall k :: 0 <= k < |r| ==> r[k] == NoticeOf(db, rows[k])
    ensures forall a, b :: 0 <= a < b < |r| ==> r[a].since >= r[b].since
    ensures forall k :: 0 <= k < |r| ==> |r[k].route| >= |TaskRoute| && r[k].route[..|TaskRoute|] == TaskRoute
  {
    if employee.None? then []
    else
      var rows := ActiveRows(db, employee.value);
      seq(|rows|, k requires 0 <= k < |rows| => NoticeOf(db, rows[k]))
  }

  /** Every listed row gives exactly one item, and no other row gives one. */
  lemma {:induction false} OneItemPerActiveRow(db: Tables, e: string, i: nat)
    ensures ActiveRow(db, e, i) ==>
      exists k :: 0 <= k < |ActiveRows(db, e)| && ActiveRows(db, e)[k] == i
        && ActiveTasksForNotification(db, Some(e))[k] == NoticeOf(db, i)
    ensures !ActiveRow(db, e, i) ==> i !in ActiveRows(db, e)
  {
    var rows := ActiveRows(db, e);
    if ActiveRow(db, e, i) {
      assert i in multiset(rows);
      var k :| 0 <= k < |rows| && rows[k] == i;
      assert ActiveTasksForNotification(db, Some(e))[k] == NoticeOf(db, i);
    } else {
      assert multiset(rows)[i] == 0;
    }
  }
}
