/** The timer that `better_project/doctype/task/task.js` attaches to the Task
    form: the Start, Stop and Complete buttons, a display of the time since the
    start, and the replies of the server calls that drive them.

    The code as written shows a few things this model keeps:
    - a start reply with any message flips the buttons, whatever it says;
    - Stop and Complete flip them once the call returns without raising;
    - every call of `update_timer_display` (on a start reply and on a matching
      active task) renders the display and sets a new interval without
      clearing the one before, and nothing ever clears them, so the live
      intervals only grow; an interval's tick (`update_timer`) only renders.
    Instants are milliseconds passed in as `now`; the form reload, the navbar
    indicator and the messages are outside this model. */
module TaskForm {
  import opened Wrappers
  import opened Clock
  import opened TimerClient

  /** The reply of `start_timer`: the call raised, it returned no message, or
      it returned one carrying `time_log` (absent in the server's replies). */
  datatype StartReply = StartRaised | StartNoMessage | StartMessage(timeLog: Option<string>)

  /** The reply of `get_active_task`. */
  datatype ActiveReply = ActiveRaised | NoActiveTask | ActiveTask(name: string, timeLog: Option<string>, startTime: int)

  /** The display for `diff` milliseconds since the start:
      `Math.floor(diff / 3600000)` hours, `Math.floor((diff % 3600000) / 60000)`
      minutes and `Math.floor((diff % 60000) / 1000)` seconds, with JavaScript's
      `%`. */
  function FormClock(diff: int): string
  {
    ClockText(diff / 3600000, JsRem(diff, 3600000) / 60000, JsRem(diff, 60000) / 1000)
  }

  /** For a start not after `now`, the fields are hours, minutes under 60 and
      seconds under 60 that add up to the whole seconds elapsed, and the text
      reads back to exactly them. */
  lemma {:induction false} FormClockFields(ms: int)
    requires ms >= 0
    ensures var h, m, s := ms / 3600000, (ms % 3600000) / 60000, (ms % 60000) / 1000;
      && FormClock(ms) == ClockText(h, m, s)
      && 0 <= m < 60 && 0 <= s < 60 && 3600 * h + 60 * m + s == ms / 1000
      && ReadClock(FormClock(ms)) == Some((h, m, s))
  {
    JsRemOfNatural(ms, 3600000);
    JsRemOfNatural(ms, 60000);
    MillisFields(ms);
    ClockReadsBack(ms / 3600000, (ms % 3600000) / 60000, (ms % 60000) / 1000);
  }

  /** The form's clock and the widget's clock of `task_timer_client.js` show
      the same text for any start not after `now`, though one splits the
      milliseconds and the other the whole seconds. */
  lemma {:induction false} FormClockAgrees(ms: int)
    requires ms >= 0
    ensures FormClock(ms) == ElapsedClock(ms)
  {
    var es := ms / 1000;
    FormClockFields(ms);
    ElapsedClockFields(ms);
    MixedRadixUnique(ms / 3600000, (ms % 3600000) / 60000, (ms % 60000) / 1000,
                     es / 3600, (es % 3600) / 60, es % 60);
  }

  class TaskTimerForm {
    var taskName: string
    var statusReadOnly: bool
    var startShown: bool
    var stopShown: bool
    var completeShown: bool
    var displayShown: bool
    var startTime: Option<int>
    var timeLog: Option<string>
    /** `timer_interval`: the handle of the last interval set. */
    var timerInterval: Option<nat>
    /** The intervals set and not cleared. */
    var liveIntervals: set<nat>
    /** The milliseconds `.timer-value` last rendered; None while it is still
        empty. */
    var shownDiff: Option<int>

    /** The text of `.timer-value`. */
    function TimerText(): string
      reads this
    {
      if shownDiff.Some? then FormClock(shownDiff.value) else ""
    }

    /** Start and Stop never show together, Stop and Complete show together,
        the display shows only with a start instant, a start instant comes
        with a live interval, and a live interval with a start instant. */
    predicate Valid()
      reads this
    {
      && !(startShown && stopShown)
      && stopShown == completeShown
      && (displayShown ==> startTime.Some?)
      && (startTime.Some? ==> timerInterval.Some?)
      && (liveIntervals != {} ==> startTime.Some?)
      && IntervalLive()
    }

    /** The last interval set is still live. */
    predicate IntervalLive()
      reads this
    {
      timerInterval.Some? ==> timerInterval.value in liveIntervals
    }

    /** `new TaskTimer(wrapper)` and `setup`: the status field becomes read
        only, Stop and Complete are hidden and the display is hidden. The
        active-task query it sends is answered by `OnActiveReply`. */
    constructor(taskName: string)
      ensures Valid()
      ensures this.taskName == taskName && statusReadOnly
      ensures startShown && !stopShown && !completeShown && !displayShown
      ensures startTime.None? && timeLog.None? && timerInterval.None? && liveIntervals == {}
      ensures shownDiff.None? && TimerText() == ""
    {
      this.taskName := taskName;
      statusReadOnly := true;
      startShown := true;
      stopShown := false;
      completeShown := false;
      displayShown := false;
      startTime := None;
      timeLog := None;
      timerInterval := None;
      liveIntervals := {};
      shownDiff := None;
    }

    /** `update_timer_display`: nothing without a start instant; otherwise it
        shows the time since the start and sets a further interval `handle`,
        leaving the earlier ones running. */
    method UpdateTimerDisplay(now: int, handle: nat)
      requires IntervalLive() && handle !in liveIntervals
      modifies this
      ensures IntervalLive() && (startTime.Some? ==> timerInterval.Some?)
      ensures startTime.None? ==> unchanged(this)
      ensures startTime.Some? ==>
        && shownDiff == Some(now - startTime.value)
        && timerInterval == Some(handle) && liveIntervals == old(liveIntervals) + {handle}
      ensures startTime == old(startTime) && timeLog == old(timeLog) && taskName == old(taskName)
      ensures statusReadOnly == old(statusReadOnly)
      ensures startShown == old(startShown) && stopShown == old(stopShown)
      ensures completeShown == old(completeShown) && displayShown == old(displayShown)
    {
      if startTime.Some? {
        shownDiff := Some(now - startTime.value);
        timerInterval := Some(handle);
        liveIntervals := liveIntervals + {handle};
      }
    }

    /** A tick of a live interval (`update_timer`): renders the time since
        the start instant, which every live interval has, and sets no
        interval; nothing else changes. */
    method Tick(now: int)
      requires Valid() && liveIntervals != {}
      modifies this
      ensures Valid() && startTime.Some?
      ensures shownDiff == Some(now - startTime.value)
      ensures startTime == old(startTime) && timeLog == old(timeLog) && taskName == old(taskName)
      ensures timerInterval == old(timerInterval) && liveIntervals == old(liveIntervals)
      ensures statusReadOnly == old(statusReadOnly)
      ensures startShown == old(startShown) && stopShown == old(stopShown)
      ensures completeShown == old(completeShown) && displayShown == old(displayShown)
    {
      shownDiff := Some(now - startTime.value);
    }

    /** Shows the running state: the display and Stop and Complete, not Start. */
    method ShowRunning()
      modifies this
      ensures displayShown && !startShown && stopShown && completeShown
      ensures startTime == old(startTime) && timeLog == old(timeLog) && taskName == old(taskName)
      ensures statusReadOnly == old(statusReadOnly) && shownDiff == old(shownDiff)
      ensures timerInterval == old(timerInterval) && liveIntervals == old(liveIntervals)
    {
      displayShown := true;
      startShown := false;
      stopShown := true;
      completeShown := true;
    }

    /** The reply of `start_timer`: any message starts the display from `now`
        with the message's `time_log`, hides Start and shows Stop and Complete;
        a raised call or an empty reply changes nothing. */
    method OnStartReply(reply: StartReply, now: int, handle: nat)
      requires Valid() && handle !in liveIntervals
      modifies this
      ensures Valid()
      ensures reply.StartMessage? ==>
        && startTime == Some(now) && timeLog == reply.timeLog
        && shownDiff == Some(0)
        && timerInterval == Some(handle) && liveIntervals == old(liveIntervals) + {handle}
        && displayShown && !startShown && stopShown && completeShown
        && taskName == old(taskName) && statusReadOnly == old(statusReadOnly)
      ensures !reply.StartMessage? ==> unchanged(this)
    {
      if reply.StartMessage? {
        timeLog := reply.timeLog;
        startTime := Some(now);
        UpdateTimerDisplay(now, handle);
        ShowRunning();
      }
    }

    /** After `stop_timer` returns: the display is hidden, Start shows and
        Stop and Complete are hidden. The start instant and the intervals are
        kept. A raised call changes nothing. */
    method OnStopReply(raised: bool)
      requires Valid()
      modifies this
      ensures Valid()
      ensures !raised ==>
        && !displayShown && startShown && !stopShown && !completeShown
        && startTime == old(startTime) && timeLog == old(timeLog) && shownDiff == old(shownDiff)
        && timerInterval == old(timerInterval) && liveIntervals == old(liveIntervals)
        && taskName == old(taskName) && statusReadOnly == old(statusReadOnly)
      ensures raised ==> unchanged(this)
    {
      if !raised {
        displayShown := false;
        startShown := true;
        stopShown := false;
        completeShown := false;
      }
    }

    /** After `complete_task` returns: the display and all three buttons are
        hidden, the rest is kept. A raised call changes nothing. */
    method OnCompleteReply(raised: bool)
      requires Valid()
      modifies this
      ensures Valid()
      ensures !raised ==>
        && !displayShown && !startShown && !stopShown && !completeShown
        && startTime == old(startTime) && timeLog == old(timeLog) && shownDiff == old(shownDiff)
        && timerInterval == old(timerInterval) && liveIntervals == old(liveIntervals)
        && taskName == old(taskName) && statusReadOnly == old(statusReadOnly)
      ensures raised ==> unchanged(this)
    {
      if !raised {
        displayShown := false;
        startShown := false;
        stopShown := false;
        completeShown := false;
      }
    }

    /** `start_timer_check`: when the active task is this form's task, the
        form adopts its start instant and `time_log` and shows the running
        state; any other reply changes nothing. */
    method OnActiveReply(reply: ActiveReply, now: int, handle: nat)
      requires Valid() && handle !in liveIntervals
      modifies this
      ensures Valid()
      ensures reply.ActiveTask? && reply.name == taskName ==>
        && startTime == Some(reply.startTime) && timeLog == reply.timeLog
        && shownDiff == Some(now - startTime.value)
        && timerInterval == Some(handle) && liveIntervals == old(liveIntervals) + {handle}
        && displayShown && !startShown && stopShown && completeShown
        && taskName == old(taskName) && statusReadOnly == old(statusReadOnly)
      ensures !(reply.ActiveTask? && reply.name == taskName) ==> unchanged(this)
    {
      if reply.ActiveTask? && reply.name == taskName {
        timeLog := reply.timeLog;
        startTime := Some(reply.startTime);
        UpdateTimerDisplay(now, handle);
        ShowRunning();
      }
    }
  }

  /** Once the form has rendered a start not after the instant of the
      rendering, its text reads back to the hours, minutes and seconds
      elapsed, and is the text the widget of `task_timer_client.js` shows
      for the same time. */
  lemma DisplayReadsBack(f: TaskTimerForm)
    requires f.shownDiff.Some? && f.shownDiff.value >= 0
    ensures var ms := f.shownDiff.value;
      && ReadClock(f.TimerText()) == Some((ms / 3600000, (ms % 3600000) / 60000, (ms % 60000) / 1000))
      && f.TimerText() == ElapsedClock(ms)
  {
    FormClockFields(f.shownDiff.value);
    FormClockAgrees(f.shownDiff.value);
  }

  /** Start, Stop, Start: both intervals stay live, since neither the stop nor
      the second start clears the first; a later tick renders from the second
      start and adds no interval. */
  method StartStopStart(f: TaskTimerForm, now1: int, h1: nat, now2: int, h2: nat, now3: int)
    requires f.Valid() && f.liveIntervals == {} && h1 != h2
    modifies f
    ensures f.Valid() && f.liveIntervals == {h1, h2} && f.startTime == Some(now2)
    ensures f.shownDiff == Some(now3 - now2)
  {
    f.OnStartReply(StartMessage(None), now1, h1);
    f.OnStopReply(false);
    f.OnStartReply(StartMessage(None), now2, h2);
    f.Tick(now3);
  }
}
