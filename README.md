# Task timer of better_project, modelled in Dafny

better_project is a Frappe/ERPNext app that puts a start/stop timer on the
Task document. A running timer is a Timesheet Detail row (a "time log") with a
`from_time` and no `to_time`, inside a Timesheet of the employee linked to the
session user. Starting a timer closes the employee's other running rows and
appends a new running row to today's timesheet. Stopping one closes a running
row, and completing a task stops its timer and saves the task Completed, which
the Task validation may refuse (for instance while another timer of the task
runs). Around
this ledger sit:
- read-only reports: weekly work statistics, available and overdue task lists,
  and a notification feed;
- two browser widgets that show the running time as `hh:mm:ss`;
- a navbar panel with a duration formatter and a stacked weekly chart.

The repository carries three ledgers that disagree in details, and the model
keeps them apart:
- `LiveLedger` follows `better_project/api/task_timer.py`, the ledger the
  browser calls.
- `TaskController` follows the Task document methods and hooks of
  `better_project/doctype/task/task.py`.
- `AltLedger` follows `better_project/api/__init__.py`.

The differences the model keeps:
- how today's timesheet is found: range containment versus an exact date;
- which timesheets count: draft only versus not cancelled;
- which running row is closed: newest versus oldest;
- whether completing a task needs a running timer.

The store is the class `Store.Store`. Its fields are the Timesheet, Timesheet
Detail, Task and Project tables, held as sequences in creation order; a
timesheet's name is its position. The ledger operations are methods that
reassign those fields. The reports are functions over a snapshot of the
tables. Time is whole seconds and dates are whole days. The clock (`now`), the
employee linked to the session user, and the values the code fetches from
settings are parameters.

The browser side is modelled as classes:
- `TimerClient.TaskTimer` is the widget of
  `better_project/public/js/task_timer_client.js`;
- `TaskForm.TaskTimerForm` is the form timer of
  `better_project/doctype/task/task.js`.

Each server reply arrives as a method call with the reply's content and the
current instant in milliseconds. The `hh:mm:ss` text, `formatDuration` and
the chart builder are pure functions, each with a read-back or cover lemma.

Modules:
- `Wrappers`, `Text`, `Query`, `Sorting` and `Clock` are shared helpers:
  - option and result types;
  - decimal rendering and `padStart`;
  - the row-number queries and `SUM`;
  - a proved insertion sort;
  - JavaScript's `%`, and the clock text with its parser.
- `Store` holds the tables.
- `LiveLedger`, `TaskController` and `AltLedger` are the three ledgers.
- `TaskReports` holds the reports of `task.py`.
- `Notifications` is `better_project/notifications.py`.
- `NavbarTimer` holds `formatDuration` and the chart builder.
- `TimerClient` and `TaskForm` are the two browser timers.

## Model

| member | source | states |
|---|---|---|
| Store.TaskIndex | better_project/api/task_timer.py:17 | the task lookup finds a task with that name, the first one, or reports that none has it |
| Store.TaskIndexByNames | better_project/doctype/task/task.py:113-131 | the task lookup depends on the names alone, so it survives field updates of a task |
| Store.MarkCompleted | better_project/api/task_timer.py:134-139 | completing sets status Completed, progress 100 and the completion day, and changes no other field |
| Store.Close | better_project/api/task_timer.py:337-340 | a closed row has `to_time = now` and `hours = now - from_time`, other fields unchanged |
| Store.CloseBilled | better_project/api/task_timer.py:107-116 | as Close, and billing hours equal hours |
| LiveLedger.DefaultActivityType | better_project/api/task_timer.py:298-311 | with an employee: their default, or an error when unset; without one: the first Activity Type, or an error; the result is never empty |
| LiveLedger.FindTimesheet | better_project/api/task_timer.py:351-368 | the timesheet found is the newest non-cancelled one of the employee whose date range contains today; none is found only when no such timesheet exists |
| LiveLedger.FindTimesheetAfterCreate | better_project/api/task_timer.py:351-389 | after a timesheet was created for today, the lookup finds it, so a second call on the same day returns the same timesheet |
| LiveLedger.GetOrCreateTimesheet | better_project/api/task_timer.py:351-389 | reuses the found timesheet; otherwise it appends a one-day timesheet and its task-less default running row, or, when DefaultActivityType for the employee fails, fails with NoActivityType without writing; afterwards the lookup finds the returned timesheet |
| LiveLedger.ActiveTimers | better_project/api/task_timer.py:23-32 | the rows start closes are exactly the running rows of the employee's draft timesheets whose task exists, newest first |
| LiveLedger.ActiveTimersOnce | better_project/api/task_timer.py:35-44 | each such row occurs exactly once in that list, and no other row occurs |
| LiveLedger.PreemptRows | better_project/api/task_timer.py:35-44 | the loop writes exactly the listed rows, leaves every other row and table as it was, and reports each listed row once, in order |
| LiveLedger.StartTimer | better_project/api/task_timer.py:8-79 | fails without writing for no employee, an unknown task or a task without project; otherwise closes exactly the ActiveTimers rows, reports them in order, and appends one running row of the task, with DefaultActivityType's activity, to the timesheet GetOrCreateTimesheet picks; when the employee's default is unset it fails with NoActivityType after the closes |
| LiveLedger.StopTarget | better_project/api/task_timer.py:92-105 | the row stopped is the newest running row of the task in a draft timesheet of the employee; none when there is no such row |
| LiveLedger.StopTimer | better_project/api/task_timer.py:82-123 | without an employee or a running row it fails and writes nothing; otherwise it closes exactly the StopTarget row with billing hours and changes nothing else |
| LiveLedger.CompleteTask | better_project/api/task_timer.py:126-147 | the stop's failure is returned unchanged and the task is untouched; after a stop a missing task fails, and otherwise the task is stored Completed with progress 100 exactly when `validate_task` accepts it on the rows after the stop, else the call fails with that check and the task is untouched |
| LiveLedger.CompleteTaskAsWritten | better_project/api/task_timer.py:126-147 | as the code stands: the stop's failure is returned unchanged; after a stop a missing task fails, and otherwise the save raises on the missing `validate_task` method and the call fails with the stop's close kept; no task is changed |
| LiveLedger.TimerStatusOf | better_project/api/task_timer.py:150-181 | running exactly when the task has a running row in a draft timesheet of the employee; the start is that row's `from_time` and the elapsed time is `now` minus it |
| LiveLedger.EmployeeTaskHoursNone | better_project/api/task_timer.py:203-211 | the total is 0 when the employee has no submitted row for the task |
| LiveLedger.TaskTimeInfo | better_project/api/task_timer.py:184-232 | none without an employee; otherwise the submitted total, and the running state, start and elapsed time that get_timer_status reports |
| LiveLedger.OpenDraftRows | better_project/api/task_timer.py:315-323 | the rows stop-all closes are exactly the running rows of the employee's draft timesheets, with or without a task, newest first |
| LiveLedger.Reported | better_project/api/task_timer.py:326-345 | the loop closes every row when it returns, and fails only by a missing task after closing at least one row |
| LiveLedger.ReportedKeeps | better_project/api/task_timer.py:342-344 | once a subject is held, the remaining turns only close rows and keep it |
| LiveLedger.ReportedFirstSubject | better_project/api/task_timer.py:326-349 | the value returned is the subject of the first closed row that has a task, when that task exists and its subject is not empty |
| LiveLedger.StopAllNothingOpen | better_project/api/task_timer.py:313-349 | with no running row nothing is closed and None is returned |
| LiveLedger.ReportedUnfold | better_project/api/task_timer.py:326-345 | one turn of the loop: a failing turn ends it after one close; otherwise the rest continues from the new subject |
| LiveLedger.CloseRows | better_project/api/task_timer.py:326-345 | the loop closes exactly the rows Reported says it reached, in order, returns what Reported returns, and touches nothing else |
| LiveLedger.StopAllActiveTimers | better_project/api/task_timer.py:313-349 | closes the OpenDraftRows rows as Reported describes and returns its result |
| TaskController.SubmittedHoursNone | better_project/doctype/task/task.py:225-236 | a task without submitted rows gets actual time 0 |
| TaskController.SubmittedHoursNonNegative | better_project/doctype/task/task.py:225-236 | non-negative row times give a non-negative actual time |
| TaskController.SubmittedHoursFrame | better_project/doctype/task/task.py:225-236 | the actual time reads only the timesheets and the rows |
| TaskController.SubmittedHoursIgnoresDrafts | better_project/doctype/task/task.py:77-111 | rewriting a row of a draft timesheet leaves every task's submitted total unchanged, so closing a timer does not move `actual_time` |
| TaskController.WithActualTime | better_project/doctype/task/task.py:235 | only the named task's `actual_time` changes, to the given value |
| TaskController.UpdateActualTime | better_project/doctype/task/task.py:225-236 | `actual_time` of the task becomes the sum of `hours` of its rows in submitted timesheets; nothing else changes |
| TaskController.StopTarget | better_project/doctype/task/task.py:84-95 | the row stopped is the oldest running row of the task in a draft timesheet of the employee; none when there is none |
| TaskController.StopTimer | better_project/doctype/task/task.py:77-111 | no employee or no running row: the matching failure and no write; otherwise it closes that one row with billing hours and refreshes the task's actual time |
| TaskController.ActualTimeRefreshed | better_project/doctype/task/task.py:113-124 | the stop's `actual_time` refresh and the final one leave the task with the final total and every other task as it was |
| TaskController.PrepareCompletion | better_project/doctype/task/task.py:113-124 | the steps before the save close the stop's row (or none), write only the task's refreshed `actual_time` to the store, and hand the save the task marked Completed today with that actual time |
| TaskController.CompleteTask | better_project/doctype/task/task.py:113-131 | an unknown task fails with no write; otherwise the stop and the actual-time refresh are written, and the task ends Completed, with progress 100, completed today and the refreshed total, exactly when `validate_task` accepts it; a rejection leaves its status as it was; `timer_stopped` is whether the stop succeeded |
| TaskController.CompleteTaskAsWritten | better_project/doctype/task/task.py:14-18 | as the code stands, the save fails on the missing `validate_task` method after the stop's close of its target row and the refresh are written (with no target the rows are unchanged), and the task keeps all but its actual time |
| TaskController.NeverCompletedAsWritten | better_project/doctype/task/task.py:113-131 | as the code stands, a task that is not Completed is still not Completed after `complete_task` |
| TaskController.SaveTask | better_project/doctype/task/task.py:473-532 | a save stores the validated task exactly when `validate_task` names no check, writes nothing otherwise, and never changes a row, since a Completed task with a running draft row is rejected before `on_task_update` could close one |
| TaskController.OpenDraftRows | better_project/doctype/task/task.py:183-190 | the rows stop-all closes are exactly the running rows of the employee's draft timesheets, oldest first |
| TaskController.Reported | better_project/doctype/task/task.py:192-203 | the loop closes every row when it returns, and fails only after closing at least one row |
| TaskController.ReportedUnfold | better_project/doctype/task/task.py:193-202 | one turn of the loop, as the method runs it |
| TaskController.ReportedFirst | better_project/doctype/task/task.py:193-205 | the first row decides: with a task whose subject is not empty, every row is closed and that subject is returned; without a task the call raises after closing that row |
| TaskController.ReportedHolds | better_project/doctype/task/task.py:200-202 | once a subject is held, the remaining turns only close rows |
| TaskController.CloseRows | better_project/doctype/task/task.py:192-203 | the loop closes exactly the rows Reported reached and returns what Reported returns |
| TaskController.StopAllActiveTimers | better_project/doctype/task/task.py:176-205 | without an employee None and no write; otherwise closes the OpenDraftRows rows as Reported describes |
| TaskController.DefaultActivityType | better_project/doctype/task/task.py:207-217 | the employee's default, else the first Activity Type, else "Task"; never empty |
| TaskController.Rejected | better_project/doctype/task/task.py:473-500 | each of the four rejections holds exactly when its check is the first to fail: missing project, unknown project, completed project, Completed with a running draft row |
| TaskController.ValidateTask | better_project/doctype/task/task.py:473-507 | throws exactly when Rejected names a check; accepts other tasks unchanged; an accepted Completed task gets progress 100 and `completed_on` today only when it had none |
| TaskController.OpenTimers | better_project/doctype/task/task.py:513-520 | the rows on_task_update closes are exactly the running rows of the task in draft timesheets |
| TaskController.OnTaskUpdate | better_project/doctype/task/task.py:509-532 | saving a Completed task closes each of its running draft rows with billing hours and leaves none running; other saves change nothing |
| TaskController.OnTaskTrash | better_project/doctype/task/task.py:534-547 | deletion is refused exactly while a running draft row of the task exists |
| TaskReports.GroupWithoutRows | better_project/doctype/task/task.py:648-653 | a day without submitted rows gets 0 hours and 0 tasks |
| TaskReports.GroupsCover | better_project/doctype/task/task.py:610-622 | the grouped query yields each day of the window that has rows, with that day's totals, and nothing else |
| TaskReports.FindStat | better_project/doctype/task/task.py:648 | the lookup finds a group of that date, or none exists |
| TaskReports.NewestFirst | better_project/doctype/task/task.py:645-654 | the loop's list has n entries, entry i for day `today - i` |
| TaskReports.FormattedIsGroup | better_project/doctype/task/task.py:645-654 | each entry of the loop is that day's totals, zero-filled for a day without rows |
| TaskReports.OldestFirstEntry | better_project/doctype/task/task.py:659 | after the reversal of the list over the n days up to `today`, entry j is day `today - (n - 1) + j` |
| TaskReports.DailyEntry | better_project/doctype/task/task.py:645-659 | entry j of the reversed loop list is the totals of day `lo + j`, zero-filled when the day has no rows |
| TaskReports.OldestFirst | better_project/doctype/task/task.py:645-659 | the reversed loop list has n entries, oldest first, each the totals of its day |
| TaskReports.Daily | better_project/doctype/task/task.py:606-659 | exactly seven entries, oldest first, each the totals of its day |
| TaskReports.WorkStatistics | better_project/doctype/task/task.py:597-664 | none without an employee; otherwise today's hours, the week's hours and the seven daily entries |
| TaskReports.DaysAdd | better_project/doctype/task/task.py:635-642 | the hours of n consecutive days add up to the range query's total |
| TaskReports.WeekAdd | better_project/doctype/task/task.py:635-642 | seven entries holding the week's daily hours add up to the week's total |
| TaskReports.WeekIsSumOfDays | better_project/doctype/task/task.py:635-659 | the week's total is the sum of the seven daily entries |
| TaskReports.PriorityRank | better_project/doctype/task/task.py:751-757 | High ranks 1, Medium 2, Low 3, anything else 4 |
| TaskReports.AvailableLeTotal | better_project/doctype/task/task.py:751-759 | the ORDER BY is a total preorder |
| TaskReports.AvailableTasks | better_project/doctype/task/task.py:714-776 | none without an employee; otherwise exactly the non-Completed tasks of the user on which the employee has no running draft row, ordered by priority rank, then expected start, then newest creation |
| TaskReports.DueOrderTotal | better_project/doctype/task/task.py:695 | the due-date order is a total preorder |
| TaskReports.SortedByDue | better_project/doctype/task/task.py:677-696 | exactly the late tasks, each as often as in the table, ordered by due date ascending |
| TaskReports.LateDates | better_project/doctype/task/task.py:689-695 | every listed task has a due date before today, and the dates ascend |
| TaskReports.PairLate | better_project/doctype/task/task.py:686-707 | each task is paired with the whole days since its due date, at least one, never increasing along the list |
| TaskReports.LateList | better_project/doctype/task/task.py:677-707 | exactly the late tasks, each as often as in the table, each with its days overdue, the most overdue first |
| TaskReports.OverdueTasks | better_project/doctype/task/task.py:667-711 | none without an employee; otherwise exactly the user's open tasks whose expected start is before today, each as often as in the table, the most overdue first |
| TaskReports.MyOverdueTasks | better_project/doctype/task/task.py:800-820 | exactly the user's unfinished tasks whose expected end is before today, each as often as in the table, the most overdue first |
| TaskReports.SortByMembersAll | better_project/doctype/task/task.py:751-759 | sorting keeps exactly the selected tasks |
| AltLedger.UserTimesheets | better_project/api/__init__.py:275-280 | exactly the employee's non-cancelled timesheets, newest first |
| AltLedger.ParentInUserTimesheets | better_project/api/__init__.py:62-67 | the parent filter admits exactly the rows of those timesheets |
| AltLedger.DefaultActivityType | better_project/api/__init__.py:282-284 | the settings default when set, else "Development"; never empty |
| AltLedger.OpenUserRows | better_project/api/__init__.py:288-295 | the rows stop-all closes are exactly the running rows of the employee's non-cancelled timesheets, newest first |
| AltLedger.StoppedTaskKept | better_project/api/__init__.py:304-305 | once `stopped_task` is set the loop keeps it |
| AltLedger.StoppedTaskIsFirstNamed | better_project/api/__init__.py:298-310 | a task is returned exactly when a closed row has one, and it is the task of the newest such row |
| AltLedger.StoppedTaskFromFalsy | better_project/api/__init__.py:297-305 | starting from any empty value is starting from None |
| AltLedger.CloseRows | better_project/api/__init__.py:298-305 | the loop closes exactly the listed rows, touches nothing else, and returns StoppedTaskAfter |
| AltLedger.StopAllActiveTimers | better_project/api/__init__.py:286-310 | closes exactly the OpenUserRows rows and returns the task of the newest one that has a task |
| AltLedger.StopAllNothingOpen | better_project/api/__init__.py:286-310 | with no running row nothing is closed and None is returned |
| AltLedger.FindTimesheet | better_project/api/__init__.py:314-321 | the timesheet reused is a draft of the employee whose start and end date are both today; none only when no such timesheet exists |
| AltLedger.FindTimesheetAfterCreate | better_project/api/__init__.py:312-335 | after the timesheet for today was created, the lookup finds it |
| AltLedger.FindTimesheetStable | better_project/api/__init__.py:314-321 | a timesheet found stays the one found as more are created, so repeated calls on one day return the same name |
| AltLedger.GetOrCreateTimesheet | better_project/api/__init__.py:312-335 | reuses the found timesheet, else appends a draft one-day timesheet with no rows; afterwards the lookup finds the returned one |
| AltLedger.Truthy | better_project/api/__init__.py:41-43 | `stopped_task` appears in the result exactly when it is a non-empty name |
| AltLedger.StartTimer | better_project/api/__init__.py:9-49 | fails without writing for no employee, an unknown task or a task without project; otherwise closes the OpenUserRows rows, appends one running row of the task to the chosen timesheet, and reports the stopped task only when there is one |
| AltLedger.StopTarget | better_project/api/__init__.py:62-70 | the row stopped is the newest running row of the task in a non-cancelled timesheet of the employee |
| AltLedger.StopTimer | better_project/api/__init__.py:52-90 | closes exactly the StopTarget row and fails without writing when there is none or no employee |
| AltLedger.StopClosesOnlyTarget | better_project/api/__init__.py:72-83 | a stop leaves every other row as it was and the closed row no longer runs |
| AltLedger.CompleteTask | better_project/api/__init__.py:93-112 | stops the timer ignoring the outcome; a missing task fails; otherwise the task is stored Completed with progress 100 exactly when `validate_task` accepts it on the rows after the stop, else the call fails with that check and the task is untouched |
| AltLedger.CompleteTaskAsWritten | better_project/api/__init__.py:93-112 | as the code stands: the stop's rows are kept, a missing task fails, and otherwise the save raises on the missing `validate_task` method and the call fails; no task is changed |
| Notifications.NotificationConfig | better_project/notifications.py:6-16 | the config names no doctype |
| Notifications.LaterStartTotal | better_project/notifications.py:45 | `ORDER BY from_time DESC` is a total preorder |
| Notifications.ActiveFound | better_project/notifications.py:32-44 | each listed row is found exactly once, and no other row |
| Notifications.LatestFirst | better_project/notifications.py:45 | the sort keeps the rows and orders them by start, latest first |
| Notifications.ActiveRows | better_project/notifications.py:32-46 | exactly the running rows of the employee whose task is a non-Completed draft, each once, latest start first |
| Notifications.NoticeOf | better_project/notifications.py:48-52 | an item's title is the task's subject and its route is `/app/task/` plus the task's name |
| Notifications.ActiveTasksForNotification | better_project/notifications.py:23-52 | empty without an employee; otherwise one item per listed row, in that order |
| Notifications.OneItemPerActiveRow | better_project/notifications.py:39-52 | every listed row gives its item at its place, and no other row gives one |
| NavbarTimer.PartsAddUp | better_project/public/js/navbar_timer.js:900-902 | minutes and seconds are under 60 and hours, minutes and seconds add up to the whole seconds |
| NavbarTimer.ShapeOf | better_project/public/js/navbar_timer.js:896-911 | no duration for a missing or negative input; hours and minutes from one hour on, minutes and seconds under an hour, seconds alone under a minute, each bracketing the input |
| NavbarTimer.FormatDurationReadsBack | better_project/public/js/navbar_timer.js:896-911 | the text reads back to the shape and the numbers ShapeOf gives, so each shape is the one the branches pick |
| NavbarTimer.FormatDurationZero | better_project/public/js/navbar_timer.js:897-899 | the "0 minutes" text is returned exactly for a missing or negative input |
| NavbarTimer.FormatDurationOfZero | better_project/public/js/navbar_timer.js:908-910 | zero renders as "0s" |
| NavbarTimer.ProjectLabel | better_project/public/js/navbar_timer.js:442 | a row's project name, or the no-project label when it is empty |
| NavbarTimer.AddDate | better_project/public/js/navbar_timer.js:441 | adding a date keeps the list strictly ascending and adds exactly that date |
| NavbarTimer.Dates | better_project/public/js/navbar_timer.js:441 | the labels are the distinct dates of the rows, ascending |
| NavbarTimer.FirstIndex | better_project/public/js/navbar_timer.js:442 | the position of the first occurrence |
| NavbarTimer.Distinct | better_project/public/js/navbar_timer.js:442 | `[...new Set(s)]`: the same elements, each once, in order of first appearance |
| NavbarTimer.FirstMatch | better_project/public/js/navbar_timer.js:451-452 | `find` returns the first row of that project and date, or none exists |
| NavbarTimer.Chart | better_project/public/js/navbar_timer.js:439-459 | no chart for no rows; otherwise the dates as labels and one series per distinct project label |
| NavbarTimer.ChartSeriesFromRows | better_project/public/js/navbar_timer.js:442-446 | every series belongs to the label of some row |
| NavbarTimer.ChartSeriesCoverRows | better_project/public/js/navbar_timer.js:442-446 | every row's label has a series |
| NavbarTimer.ChartSeriesOrder | better_project/public/js/navbar_timer.js:442-454 | the series are distinct, in first-appearance order, and each has as many values as there are labels |
| NavbarTimer.ChartSeries | better_project/public/js/navbar_timer.js:442-446 | the series are one per distinct project, both directions |
| NavbarTimer.ChartValues | better_project/public/js/navbar_timer.js:451-454 | a value is a matching row's hours, and 0 exactly where no row of that project and date exists |
| Clock.JsRem | better_project/doctype/task/task.js:124-125 | JavaScript's `%` lies strictly between `-b` and `b` and takes the sign of the dividend |
| Clock.JsRemCongruent | better_project/doctype/task/task.js:124-125 | the dividend and its JavaScript remainder differ by a multiple of the divisor |
| Clock.JsRemOfNatural | better_project/public/js/task_timer_client.js:295-296 | on a non-negative dividend JavaScript's `%` is the ordinary remainder |
| Clock.MixedRadixUnique | better_project/public/js/task_timer_client.js:293-296 | hours with minutes and seconds under 60 are the only split of a number of seconds |
| Clock.MillisFields | better_project/doctype/task/task.js:123-125 | the millisecond split gives minutes and seconds under 60 that add up to the whole seconds |
| Clock.SecondsFields | better_project/public/js/task_timer_client.js:294-296 | the seconds split gives minutes and seconds under 60 that add up to the seconds |
| Clock.FieldFacts | better_project/public/js/task_timer_client.js:298 | a padded field is at least two characters: the digits for a non-negative value, a minus sign first for a negative one |
| Clock.ReadClockOf | better_project/public/js/task_timer_client.js:298 | three digit fields joined by ':' read back to their values |
| Clock.ClockReadsBack | better_project/public/js/task_timer_client.js:298 | the `hh:mm:ss` text of any non-negative time reads back to exactly its fields |
| Text.ParseNatToString | better_project/public/js/task_timer_client.js:298 | the decimal rendering of a number reads back to the number |
| Text.NatToStringInjective | better_project/public/js/navbar_timer.js:904-910 | different numbers never render the same |
| Text.IntToString | better_project/public/js/task_timer_client.js:298 | a rendering is the digits, with a minus sign first for a negative number |
| Text.PadStart | better_project/public/js/task_timer_client.js:298 | `padStart` keeps a long enough text and otherwise puts exactly the missing number of fill characters in front of it |
| Text.Pad2 | better_project/public/js/task_timer_client.js:298 | `padStart(2, '0')` of a number is digits, at least two, exactly two under 100, and reads back to the number |
| TimerClient.ElapsedClockFields | better_project/public/js/task_timer_client.js:289-300 | the widget shows hours, minutes under 60 and seconds under 60 that add up to the whole seconds elapsed, and its text reads back to them |
| TimerClient.ElapsedClockBeforeStart | better_project/public/js/task_timer_client.js:289-300 | a start after `now` shows a negative hour field |
| TimerClient.TaskTimer.constructor | better_project/public/js/task_timer_client.js:5-48 | stopped, no start, no interval, elapsed 0; the section shows unless the task is Completed; Start shows, Stop and the display do not; the clock reads `00:00:00` and the total the "calculating" text |
| TimerClient.TaskTimer.StopTimerUpdate | better_project/public/js/task_timer_client.js:282-287 | clears the held interval: none is held or live afterwards, whatever was held before |
| TimerClient.TaskTimer.StartTimerUpdate | better_project/public/js/task_timer_client.js:275-280 | clears the previous interval first, so the new one is the only one live |
| TimerClient.TaskTimer.ShowRunning | better_project/public/js/task_timer_client.js:253-273 | running shows the display and Stop and hides Start; stopped does the reverse |
| TimerClient.TaskTimer.OnStartResponse | better_project/public/js/task_timer_client.js:100-112 | success: running from `now`, elapsed 0, one live interval, running buttons; failure changes nothing |
| TimerClient.TaskTimer.OnStopResponse | better_project/public/js/task_timer_client.js:159-168 | success: not running, no start, no live interval, stopped buttons; failure changes nothing |
| TimerClient.TaskTimer.OnCompleteResponse | better_project/public/js/task_timer_client.js:211-219 | success: not running, no start, no live interval, the section hidden; failure changes nothing |
| TimerClient.TaskTimer.OnStatusResponse | better_project/public/js/task_timer_client.js:312-321 | a running reply adopts the server's start, shows the running buttons and holds one live interval; otherwise nothing changes |
| TimerClient.TaskTimer.OnTotalTimeResponse | better_project/public/js/task_timer_client.js:340-343 | with a message the total shows its text, or `00:00:00` when empty; nothing else changes |
| TimerClient.TaskTimer.UpdateTimerDisplay | better_project/public/js/task_timer_client.js:289-301 | does nothing unless running with a start; otherwise the display renders the time since the start; no other field changes |
| TimerClient.DisplayReadsBack | better_project/public/js/task_timer_client.js:289-300 | a rendered non-negative elapsed time reads back from the display as hours, minutes and seconds of the whole seconds elapsed |
| TimerClient.StartTwice | better_project/public/js/task_timer_client.js:275-280 | two starts in a row leave only the later interval live |
| TaskForm.FormClockFields | better_project/doctype/task/task.js:121-129 | the form shows hours, minutes under 60 and seconds under 60 that add up to the whole seconds, and its text reads back to them |
| TaskForm.FormClockAgrees | better_project/doctype/task/task.js:121-129 | for a start not after `now` the form's clock and the widget's clock show the same text |
| TaskForm.TaskTimerForm.constructor | better_project/doctype/task/task.js:10-41 | the status field is read only, Start shows, Stop, Complete and the display are hidden, no start and no interval |
| TaskForm.TaskTimerForm.UpdateTimerDisplay | better_project/doctype/task/task.js:117-134 | nothing without a start; otherwise renders the time since the start and adds a new interval without clearing the old one |
| TaskForm.DisplayReadsBack | better_project/doctype/task/task.js:117-134 | a rendered non-negative time reads back from the form's display as its hours, minutes and seconds, and is the text the widget shows for the same time |
| TaskForm.TaskTimerForm.ShowRunning | better_project/doctype/task/task.js:55-59 | shows the display, Stop and Complete and hides Start |
| TaskForm.TaskTimerForm.OnStartReply | better_project/doctype/task/task.js:43-67 | any message starts the display from `now` with its `time_log` and shows the running buttons; no message or a raised call changes nothing |
| TaskForm.TaskTimerForm.OnStopReply | better_project/doctype/task/task.js:69-91 | a returned call hides the display, Stop and Complete and shows Start; a raised call changes nothing |
| TaskForm.TaskTimerForm.OnCompleteReply | better_project/doctype/task/task.js:93-115 | a returned call hides the display and all three buttons; a raised call changes nothing |
| TaskForm.TaskTimerForm.OnActiveReply | better_project/doctype/task/task.js:136-155 | the running state is adopted exactly when the active task is this form's task |
| TaskForm.StartStopStart | better_project/doctype/task/task.js:117-134 | start, stop, start leaves both intervals live, because no path clears one, and a later tick renders from the second start |
| TaskForm.TaskTimerForm.Tick | better_project/doctype/task/task.js:120-131 | a tick of a live interval renders the time since the start and sets no interval |

## Left out

- Store plumbing: the ORM, SQL execution, commits, rollbacks, error logging and `frappe.throw` are not modelled. Each throw is an error result; a write made before a throw is kept, as a commit would keep it.
- Permissions, the session and the employee lookup are not modelled: the employee and the user are parameters. `frappe.has_permission` always allows.
- Concurrency is not modelled: every operation runs alone on the store.
- Floating point is not modelled: `time_diff_in_hours`, `round(..., 2)` and `float(...)` become whole seconds, and hours fields hold seconds. `formatDuration` takes whole milliseconds instead of fractional seconds.
- The framework formatters `format_duration`, `format_datetime` and `strftime` are not modelled: the formatted fields of `get_task_time_info`, `get_timer_status` and the notification message are left out, and the notification item keeps the instant its message shows.
- The "any failure yields []" path of `get_active_tasks_for_notification` is not modelled, since no modelled step of it can fail.
- LiveLedger.StartTimer: the hours written to a closed row come from a column the query does not select, so they are a parameter and not `now - from_time`.
- LiveLedger.DefaultActivityType, TaskController.DefaultActivityType, AltLedger.DefaultActivityType: the employee's setting and the first Activity Type are parameters, since they come from other tables.
- LiveLedger.TaskTimeInfo: the formatted strings are left out, and times are whole seconds instead of hours.
- TaskController.StopTarget: the query has no ORDER BY; the model takes the oldest row. Unordered `LIMIT 1` lookups elsewhere are also taken as the oldest row.
- TaskController.OpenDraftRows: the query has no ORDER BY, so the database may return the rows in any order; the model takes them oldest first, and that order decides which subject stop-all returns.
- The app's `hooks.py` is not part of this model. A save of a Task runs `Task.validate` and `Task.on_update`, with the calls as `TaskController.SaveTask` states them (see Findings). Frappe's own save steps (naming, permissions, link checks, timestamps) are not modelled.
- TaskReports.AvailableTasks, TaskReports.OverdueTasks, TaskReports.MyOverdueTasks: who a task is assigned to is a set of users, not LIKE matching on `_user_tags` and `assigned_to`.
- TaskReports.AvailableTasks: rows that tie on every sort key keep their input order, where the database may return any order.
- TaskReports.WorkStatistics: the hours are whole seconds, not rounded hours.
- NavbarTimer.Dates: dates are days compared as integers, not `YYYY-MM-DD` strings sorted as text; the two orders agree.
- NavbarTimer.Chart: colours, `getRandomColor` and the Chart.js call are left out.
- The Task document's own `start_timer`, `get_or_create_timesheet` and `get_active_timesheet` (`task.py` lines 44-75 and 133-174) are not modelled.
- `validate_active_timer` is never called and is not modelled.
- These endpoints are not modelled:
  - `get_active_task_for_navbar`, `get_today_tasks`, `get_current_employees_status` and the project-time data queries of `task.py`;
  - the whitelisted wrappers of `task.py`, lines 238-470.
- The legacy Time Log endpoints of `api/__init__.py`, lines 114-223, are not modelled: they query another doctype.
- Browser code outside the modelled timers is not modelled: DOM and jQuery, Chart.js, alerts, `frappe.confirm`, form reloads, the navbar refresh, the task.js navbar indicator (`task.js` lines 157-254), styles, and `setTimeout`. An interval's handle is a parameter. A tick of the widget's interval is a call to `TimerClient.TaskTimer.UpdateTimerDisplay`, and a tick of the form's interval is a call to `TaskForm.TaskTimerForm.Tick`.
- TimerClient.TaskTimer.OnStatusResponse: the follow-up `update_total_time` call is the separate `OnTotalTimeResponse`.
- TimerClient.TaskTimer.UpdateTimerDisplay: the current instant is a parameter, in milliseconds.
- The migrations, `timesheet.py` type declarations, `Task.__init__` debug output and the test helpers are not modelled.

## Findings

| source | as written | input that shows it | evidently intended | confidence | as-written member | corrected member |
|---|---|---|---|---|---|---|
| better_project/doctype/task/task.py:14-18 | `Task.validate` calls `self.validate_task()`, and `Task.on_update` (line 221) calls `self.on_task_update()`, but `Task` defines neither method; both are module functions taking the document (lines 473 and 509). Every save of a Task raises AttributeError. | `complete_task` on any existing task, e.g. one with an open project and no running timer: the stop and `actual_time` are written, then the save raises and the task is never stored Completed. The API ledgers' saves raise the same way and report `success: False` (LiveLedger.CompleteTaskAsWritten, AltLedger.CompleteTaskAsWritten); their corrected halves are LiveLedger.CompleteTask and AltLedger.CompleteTask, which save through SaveTask. | `validate_task(self)` and `on_task_update(self)` | high; not executed | TaskController.CompleteTaskAsWritten | TaskController.SaveTask |
