/** The read-only reports of `better_project/doctype/task/task.py`: the 7-day
    work statistics, the tasks an employee may start next, and the two overdue
    lists. `user` is the session user; `today` is a day. */
module TaskReports {
  import opened Wrappers
  import opened Query
  import opened Store
  import opened Sorting

  // ---------------------------------------------------------------- work statistics

  /** One entry of `daily_stats`. */
  datatype DayStat = DayStat(date: int, hours: int, taskCount: nat)

  datatype WorkStats = WorkStats(todayHours: int, weekHours: int, daily: seq<DayStat>)

  /** Row `i` is logged by `e` in a submitted timesheet on day `day`. */
  predicate OnDay(db: Tables, e: string, day: int, i: nat)
  {
    InSheetOf(db, i, e, Submitted) && DayOf(db.rows[i].fromTime) == day
  }

  /** Row `i` is logged by `e` in a submitted timesheet on one of the `n` days
      from `lo` on. */
  predicate InDays(db: Tables, e: string, lo: int, n: nat, i: nat)
  {
    InSheetOf(db, i, e, Submitted) && lo <= DayOf(db.rows[i].fromTime) < lo + n
  }

  function DayHours(db: Tables, e: string, day: int): int
  {
    SumWhere(|db.rows|, (i: nat) => OnDay(db, e, day, i), RowHours(db))
  }

  /** `COUNT(DISTINCT td.task)`: the tasks named by the day's rows. */
  function DayTasks(db: Tables, e: string, day: int): set<string>
  {
    set i: nat | i < |db.rows| && OnDay(db, e, day, i) && db.rows[i].task.Some? :: db.rows[i].task.value
  }

  predicate HasDay(db: Tables, e: string, day: int)
  {
    exists i: nat :: i < |db.rows| && OnDay(db, e, day, i)
  }

  /** The `GROUP BY DATE(td.from_time)` row of a day. */
  function Group(db: Tables, e: string, day: int): DayStat
  {
    DayStat(day, DayHours(db, e, day), |DayTasks(db, e, day)|)
  }

  /** A day without rows has no hours and no tasks. */
  lemma GroupWithoutRows(db: Tables, e: string, day: int)
    requires !HasDay(db, e, day)
    ensures Group(db, e, day) == DayStat(day, 0, 0)
  {
    SumWhereNone(|db.rows|, (i: nat) => OnDay(db, e, day, i), RowHours(db));
    assert DayTasks(db, e, day) == {};
  }

  /** The grouped query over the `n` days from `lo` on: one row per day that has
      logged rows, by ascending date. */
  function Groups(db: Tables, e: string, lo: int, n: nat): seq<DayStat>
    decreases n
  {
    if n == 0 then []
    else Groups(db, e, lo, n - 1) + (if HasDay(db, e, lo + n - 1) then [Group(db, e, lo + n - 1)] else [])
  }

  /** The grouped query yields the group of every day of the window that has
      rows, and nothing else. */
  lemma {:induction false} GroupsCover(db: Tables, e: string, lo: int, n: nat)
    ensures forall g :: g in Groups(db, e, lo, n) ==> lo <= g.date < lo + n && g == Group(db, e, g.date)
    ensures forall d :: lo <= d < lo + n && HasDay(db, e, d) ==> Group(db, e, d) in Groups(db, e, lo, n)
    decreases n
  {
    if n > 0 {
      GroupsCover(db, e, lo, n - 1);
    }
  }

  /** `next(stat for stat in daily_stats if stat.date == date)`. */
  function FindStat(groups: seq<DayStat>, date: int): (r: Option<DayStat>)
    ensures r.Some? ==> r.value in groups && r.value.date == date
    ensures r.None? ==> forall k :: 0 <= k < |groups| ==> groups[k].date != date
  {
    if groups == [] then None
    else if groups[0].date == date then Some(groups[0])
    else
      var r := FindStat(groups[1..], date);
      assert forall g :: g in groups[1..] ==> g in groups;
      r
  }

  /** One entry built by the loop: the day's group, or zeros. */
  function Formatted(stat: Option<DayStat>, date: int): DayStat
  {
    match stat
    case Some(s) => DayStat(date, s.hours, s.taskCount)
    case None => DayStat(date, 0, 0)
  }

  /** The loop's list, newest day first: entry `i` is day `today - i`. */
  function NewestFirst(groups: seq<DayStat>, today: int, n: nat): (r: seq<DayStat>)
    ensures |r| == n
    ensures forall i :: 0 <= i < n ==> r[i] == Formatted(FindStat(groups, today - i), today - i)
  {
    seq(n, i requires 0 <= i < n => Formatted(FindStat(groups, today - i), today - i))
  }

  /** Every entry of the loop is the day's group, or zeros for a day without rows. */
  lemma {:induction false} FormattedIsGroup(db: Tables, e: string, lo: int, n: nat, d: int)
    requires lo <= d < lo + n
    ensures Formatted(FindStat(Groups(db, e, lo, n), d), d) == Group(db, e, d)
  {
    var groups := Groups(db, e, lo, n);
    GroupsCover(db, e, lo, n);
    if FindStat(groups, d).None? {
      GroupWithoutRows(db, e, d);
    }
  }

  /** Entry `j` of the reversed loop list of the `n` days up to `today`,
      which start at `lo`, is day `lo + j`. */
  lemma OldestFirstEntry(groups: seq<DayStat>, lo: int, today: int, n: nat, j: int)
    requires lo == today - (n - 1) && 0 <= j < n
    ensures Reverse(NewestFirst(groups, today, n))[j] == Formatted(FindStat(groups, lo + j), lo + j)
  {
    var newest := NewestFirst(groups, today, n);
    assert Reverse(newest)[j] == newest[n - 1 - j];
    assert today - (n - 1 - j) == lo + j;
  }

  /** Entry `j` of the reversed loop list over the `n` days from `lo` up to
      `today` is the group of day `lo + j`. */
  lemma DailyEntry(db: Tables, e: string, lo: int, today: int, n: nat, j: int)
    requires lo == today - (n - 1) && 0 <= j < n
    ensures Reverse(NewestFirst(Groups(db, e, lo, n), today, n))[j] == Group(db, e, lo + j)
  {
    OldestFirstEntry(Groups(db, e, lo, n), lo, today, n, j);
    FormattedIsGroup(db, e, lo, n, lo + j);
  }

  /** The loop's list over the `n` days from `lo` up to `today`, reversed:
      oldest day first, with every day present. */
  function OldestFirst(db: Tables, e: string, lo: int, today: int, n: nat): (r: seq<DayStat>)
    requires lo == today - (n - 1)
    ensures |r| == n
    ensures forall j :: 0 <= j < n ==> r[j] == Group(db, e, lo + j)
  {
    var r := Reverse(NewestFirst(Groups(db, e, lo, n), today, n));
    assert forall j :: 0 <= j < n ==> r[j] == Group(db, e, lo + j) by {
      forall j | 0 <= j < n
        ensures r[j] == Group(db, e, lo + j)
      {
        DailyEntry(db, e, lo, today, n, j);
      }
    }
    r
  }

  /** The entries of the statistics: the week up to `today`, oldest day
      first. */
  function Daily(db: Tables, e: string, today: int): (r: seq<DayStat>)
    ensures |r| == 7
    ensures forall j :: 0 <= j < 7 ==> r[j] == Group(db, e, today - 6 + j)
  {
    var r := OldestFirst(db, e, today - 6, today, 7);
    assert forall j :: 0 <= j < 7 ==> r[j] == Group(db, e, today - 6 + j);
    r
  }

  /** The submitted hours of the `n` days from `lo` on (`BETWEEN week_ago AND today`). */
  function RangeHours(db: Tables, e: string, lo: int, n: nat): int
  {
    SumWhere(|db.rows|, (i: nat) => InDays(db, e, lo, n, i), RowHours(db))
  }

  /** `get_work_statistics`: None without an employee; otherwise today's and
      the week's submitted totals and one entry per day of the week. */
  function WorkStatistics(db: Tables, employee: Option<string>, today: int): (r: Option<WorkStats>)
    ensures employee.None? <==> r.None?
    ensures r.Some? ==>
      && |r.value.daily| == 7
      && (forall j :: 0 <= j < 7 ==> r.value.daily[j] == Group(db, employee.value, today - 6 + j))
      && r.value.todayHours == r.value.daily[6].hours
      && r.value.weekHours == RangeHours(db, employee.value, today - 6, 7)
  {
    if employee.None? then None
    else
      var e := employee.value;
      Some(WorkStats(DayHours(db, e, today), RangeHours(db, e, today - 6, 7), Daily(db, e, today)))
  }

  /** Hours of a day-list summed. */
  function TotalHours(s: seq<DayStat>): int
  {
    if s == [] then 0 else TotalHours(s[..|s| - 1]) + s[|s| - 1].hours
  }

  /** The submitted hours over `n` consecutive days are the sum of the days' hours. */
  lemma {:induction false} DaysAdd(db: Tables, e: string, lo: int, n: nat, s: seq<DayStat>)
    requires n <= |s|
    requires forall j :: 0 <= j < n ==> s[j].hours == DayHours(db, e, lo + j)
    ensures TotalHours(s[..n]) == RangeHours(db, e, lo, n)
  {
    if n == 0 {
      SumWhereNone(|db.rows|, (i: nat) => InDays(db, e, lo, 0, i), RowHours(db));
    } else {
      DaysAdd(db, e, lo, n - 1, s);
      assert s[..n][..n - 1] == s[..n - 1];
      SumWhereSplit(|db.rows|, (i: nat) => InDays(db, e, lo, n - 1, i), (i: nat) => OnDay(db, e, lo + n - 1, i),
                    (i: nat) => InDays(db, e, lo, n, i), RowHours(db));
    }
  }

  /** Seven entries holding the hours of the week ending `today` add up to the
      week's range. */
  lemma WeekAdd(db: Tables, e: string, today: int, s: seq<DayStat>)
    requires |s| == 7
    requires forall j :: 0 <= j < 7 ==> s[j].hours == DayHours(db, e, today - 6 + j)
    ensures TotalHours(s) == RangeHours(db, e, today - 6, 7)
  {
    DaysAdd(db, e, today - 6, 7, s);
    assert s[..7] == s;
  }

  /** The week's total is the sum of the seven daily entries. */
  lemma WeekIsSumOfDays(db: Tables, e: string, today: int)
    ensures RangeHours(db, e, today - 6, 7) == TotalHours(Daily(db, e, today))
  {
    var daily := Daily(db, e, today);
    forall j | 0 <= j < 7
      ensures daily[j].hours == DayHours(db, e, today - 6 + j)
    {
      assert daily[j] == Group(db, e, today - 6 + j);
    }
    WeekAdd(db, e, today, daily);
  }

  // ---------------------------------------------------------------- available tasks

  /** A running row of `task` in a draft timesheet of `e`. */
  predicate RunningOf(db: Tables, e: string, task: string, i: nat)
  {
    InSheetOf(db, i, e, Draft) && IsOpen(db.rows[i]) && db.rows[i].task == Some(task)
  }

  /** Not Completed, assigned to `user`, and `e` has no running row on it. */
  predicate Available(db: Tables, user: string, e: string, t: Task)
  {
    t.status != Completed && user in t.assignees
    && !(exists i: nat :: i < |db.rows| && RunningOf(db, e, t.name, i))
  }

  /** `CASE t.priority WHEN 'High' THEN 1 WHEN 'Medium' THEN 2 WHEN 'Low' THEN 3 ELSE 4`. */
  function PriorityRank(p: Option<Priority>): (r: int)
    ensures 1 <= r <= 4
    ensures r == 1 <==> p == Some(High)
    ensures r == 2 <==> p == Some(Medium)
    ensures r == 3 <==> p == Some(Low)
  {
    match p
    case Some(High) => 1
    case Some(Medium) => 2
    case Some(Low) => 3
    case _ => 4
  }

  /** Dates ascending, with a missing date first (as SQL sorts NULL). */
  predicate DateLe(a: Option<int>, b: Option<int>)
  {
    a.None? || (b.Some? && a.value <= b.value)
  }

  /** The ORDER BY of `get_available_tasks`: rank, then expected start ascending,
      then newest created first. */
  predicate AvailableLe(a: Task, b: Task)
  {
    PriorityRank(a.priority) < PriorityRank(b.priority)
    || (PriorityRank(a.priority) == PriorityRank(b.priority)
        && ((DateLe(a.expStartDate, b.expStartDate) && !DateLe(b.expStartDate, a.expStartDate))
            || (a.expStartDate == b.expStartDate && a.creation >= b.creation)))
  }

  lemma AvailableLeTotal()
    ensures TotalPreorder(AvailableLe)
  {
  }

  /** `get_available_tasks`: [] without an employee; otherwise exactly the
      available tasks (each as often as in the table), in ORDER BY order. */
  function AvailableTasks(db: Tables, user: string, employee: Option<string>): (r: seq<Task>)
    ensures employee.None? ==> r == []
    ensures employee.Some? ==>
      forall t :: multiset(r)[t] == if Available(db, user, employee.value, t) then multiset(db.tasks)[t] else 0
    ensures forall t :: t in r <==> employee.Some? && t in db.tasks && Available(db, user, employee.value, t)
    ensures SortedBy(r, AvailableLe)
    ensures forall i, j :: 0 <= i < j < |r| ==> PriorityRank(r[i].priority) <= PriorityRank(r[j].priority)
  {
    if employee.None? then []
    else
      var picked := Filter(db.tasks, (t: Task) => Available(db, user, employee.value, t));
      AvailableLeTotal();
      var r := SortBy(picked, AvailableLe);
      assert forall t :: t in r <==> t in multiset(r);
      assert forall t :: t in picked <==> t in multiset(picked);
      r
  }

  // ---------------------------------------------------------------- overdue

  /** An overdue list entry with its `DATEDIFF(today, date)`. */
  datatype Late = Late(task: Task, daysOverdue: int)

  /** The tasks of a list of entries. */
  function TasksOf(r: seq<Late>): (ts: seq<Task>)
    ensures |ts| == |r| && forall k :: 0 <= k < |r| ==> ts[k] == r[k].task
  {
    seq(|r|, k requires 0 <= k < |r| => r[k].task)
  }

  /** Which date a list is late on. */
  datatype DueField = ExpStart | ExpEnd

  function Due(f: DueField, t: Task): Option<int>
  {
    match f
    case ExpStart => t.expStartDate
    case ExpEnd => t.expEndDate
  }

  /** Still open for the list on `f`: `get_overdue_tasks` drops Completed
      tasks, `get_my_overdue_tasks` drops Completed and Cancelled ones. */
  predicate Unfinished(f: DueField, t: Task)
  {
    match f
    case ExpStart => t.status != Completed
    case ExpEnd => t.status != Completed && t.status != TaskStatus.Cancelled
  }

  /** The selection of the overdue list on `f`: a due date before today, not
      finished, assigned to `user`. */
  predicate IsLate(f: DueField, user: string, today: int, t: Task)
  {
    Due(f, t).Some? && Due(f, t).value < today && Unfinished(f, t) && user in t.assignees
  }

  predicate DueLe(f: DueField, a: Task, b: Task)
  {
    DateLe(Due(f, a), Due(f, b))
  }

  lemma DueOrderTotal(f: DueField)
    ensures TotalPreorder((a: Task, b: Task) => DueLe(f, a, b))
  {
  }

  /** The late tasks, each as often as in the table, by due date ascending. */
  function SortedByDue(tasks: seq<Task>, f: DueField, user: string, today: int): (r: seq<Task>)
    ensures forall t :: multiset(r)[t] == if IsLate(f, user, today, t) then multiset(tasks)[t] else 0
    ensures forall t :: t in r <==> t in tasks && IsLate(f, user, today, t)
    ensures forall k :: 0 <= k < |r| ==> IsLate(f, user, today, r[k])
    ensures forall i, j :: 0 <= i < j < |r| ==> DueLe(f, r[i], r[j])
  {
    var picked := Filter(tasks, (t: Task) => IsLate(f, user, today, t));
    var le := (a: Task, b: Task) => DueLe(f, a, b);
    DueOrderTotal(f);
    SortByMembersAll(picked, le);
    SortBy(picked, le)
  }

  /** `l` is late on `f` by `l.daysOverdue` days, at least one. */
  predicate DaysLate(f: DueField, today: int, l: Late)
  {
    l.daysOverdue >= 1 && Due(f, l.task) == Some(today - l.daysOverdue)
  }

  /** A list of late tasks sorted by due date has every due date set, before
      today, and ascending. */
  lemma LateDates(sorted: seq<Task>, f: DueField, user: string, today: int)
    requires forall k :: 0 <= k < |sorted| ==> IsLate(f, user, today, sorted[k])
    requires forall i, j :: 0 <= i < j < |sorted| ==> DueLe(f, sorted[i], sorted[j])
    ensures forall k :: 0 <= k < |sorted| ==> Due(f, sorted[k]).Some? && Due(f, sorted[k]).value < today
    ensures forall i, j :: 0 <= i < j < |sorted| ==> Due(f, sorted[i]).value <= Due(f, sorted[j]).value
  {
    forall k | 0 <= k < |sorted|
      ensures Due(f, sorted[k]).Some? && Due(f, sorted[k]).value < today
    {
      assert IsLate(f, user, today, sorted[k]);
    }
    forall i, j | 0 <= i < j < |sorted|
      ensures Due(f, sorted[i]).value <= Due(f, sorted[j]).value
    {
      assert IsLate(f, user, today, sorted[i]) && DueLe(f, sorted[i], sorted[j]);
    }
  }

  /** Pairs each task of a list sorted by due date with the days since that date. */
  function PairLate(sorted: seq<Task>, f: DueField, user: string, today: int): (r: seq<Late>)
    requires forall k :: 0 <= k < |sorted| ==> IsLate(f, user, today, sorted[k])
    requires forall i, j :: 0 <= i < j < |sorted| ==> DueLe(f, sorted[i], sorted[j])
    ensures TasksOf(r) == sorted
    ensures forall k :: 0 <= k < |r| ==> DaysLate(f, today, r[k])
    ensures forall i, j :: 0 <= i < j < |r| ==> r[i].daysOverdue >= r[j].daysOverdue
  {
    LateDates(sorted, f, user, today);
    var r := seq(|sorted|, k requires 0 <= k < |sorted| => Late(sorted[k], today - Due(f, sorted[k]).value));
    assert TasksOf(r) == sorted;
    r
  }

  /** The late tasks on `f`, sorted by due date ascending, each paired with the
      days since its due date. */
  function LateList(tasks: seq<Task>, f: DueField, user: string, today: int): (r: seq<Late>)
    ensures forall k :: 0 <= k < |r| ==> DaysLate(f, today, r[k])
    ensures forall t :: multiset(TasksOf(r))[t] == if IsLate(f, user, today, t) then multiset(tasks)[t] else 0
    ensures forall t :: t in TasksOf(r) <==> t in tasks && IsLate(f, user, today, t)
    ensures forall i, j :: 0 <= i < j < |r| ==> r[i].daysOverdue >= r[j].daysOverdue
  {
    var sorted := SortedByDue(tasks, f, user, today);
    var late := PairLate(sorted, f, user, today);
    assert TasksOf(late) == sorted;
    late
  }

  /** `get_overdue_tasks`: [] without an employee; otherwise the overdue tasks by
      expected start, oldest first, each with how many days it is late. */
  function OverdueTasks(db: Tables, user: string, employee: Option<string>, today: int): (r: seq<Late>)
    ensures employee.None? ==> r == []
    ensures forall k :: 0 <= k < |r| ==>
      r[k].daysOverdue >= 1 && r[k].task.expStartDate == Some(today - r[k].daysOverdue)
    ensures forall t :: t in TasksOf(r) <==> employee.Some? && t in db.tasks && IsLate(ExpStart, user, today, t)
    ensures employee.Some? ==> forall t ::
      multiset(TasksOf(r))[t] == if IsLate(ExpStart, user, today, t) then multiset(db.tasks)[t] else 0
    ensures forall i, j :: 0 <= i < j < |r| ==> r[i].daysOverdue >= r[j].daysOverdue
  {
    if employee.None? then [] else LateList(db.tasks, ExpStart, user, today)
  }

  /** `get_my_overdue_tasks`: the tasks late on their expected end, oldest
      first, each with how many days it is late. */
  function MyOverdueTasks(db: Tables, user: string, today: int): (r: seq<Late>)
    ensures forall k :: 0 <= k < |r| ==>
      r[k].daysOverdue >= 1 && r[k].task.expEndDate == Some(today - r[k].daysOverdue)
    ensures forall t :: t in TasksOf(r) <==> t in db.tasks && IsLate(ExpEnd, user, today, t)
    ensures forall t :: multiset(TasksOf(r))[t] == if IsLate(ExpEnd, user, today, t) then multiset(db.tasks)[t] else 0
    ensures forall i, j :: 0 <= i < j < |r| ==> r[i].daysOverdue >= r[j].daysOverdue
  {
    LateList(db.tasks, ExpEnd, user, today)
  }

  lemma SortByMembersAll(s: seq<Task>, le: (Task, Task) -> bool)
    requires TotalPreorder(le)
    ensures forall x :: x in SortBy(s, le) <==> x in s
  {
    forall x
      ensures x in SortBy(s, le) <==> x in s
    {
      SortByMembers(s, le, x);
    }
  }
}
