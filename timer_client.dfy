/** The timer widget that `better_project/public/js/task_timer_client.js` adds
    to the Task form: a `TaskTimer` object holding whether the timer runs, when
    it started, the running-clock interval, and the visibility of its buttons
    and display, updated as the server's replies arrive. The server calls
    themselves, alerts and animations are outside this model; each reply
    handler takes what the reply carried as parameters, and the instants
    `new Date()` gives are milliseconds passed in as `now`. */
module TimerClient {
  import opened Wrappers
  import opened Text
  import opened Clock

  const CompletedStatus: string := "Completed"

  /** The text `#total-time` is built with ("calculating..."). */
  const Calculating: string := "\U{0645}\U{062D}\U{0627}\U{0633}\U{0628}\U{0647} \U{062F}\U{0631} \U{062D}\U{0627}\U{0644} \U{0627}\U{0646}\U{062C}\U{0627}\U{0645}..."

  /** The text `update_timer_display` shows for `ms` milliseconds since the
      start: whole seconds `Math.floor(ms / 1000)`, split into hours, minutes
      (`%` then `Math.floor`) and seconds (`%`), with JavaScript's `%`. */
  function ElapsedClock(ms: int): string
  {
    var es := ms / 1000;
    ClockText(es / 3600, JsRem(es, 3600) / 60, JsRem(es, 60))
  }

  /** For a start not after `now`, the fields are hours, minutes under 60 and
      seconds under 60 that add up to the whole seconds elapsed, and the text
      reads back to exactly them. */
  lemma {:induction false} ElapsedClockFields(ms: int)
    requires ms >= 0
    ensures var es := ms / 1000;
      var h, m, s := es / 3600, (es % 3600) / 60, es % 60;
      && ElapsedClock(ms) == ClockText(h, m, s)
      && 0 <= m < 60 && 0 <= s < 60 && 3600 * h + 60 * m + s == ms / 1000
      && ReadClock(ElapsedClock(ms)) == Some((h, m, s))
  {
    var es := ms / 1000;
    JsRemOfNatural(es, 3600);
    JsRemOfNatural(es, 60);
    SecondsFields(es);
    ClockReadsBack(es / 3600, (es % 3600) / 60, es % 60);
  }

  /** A start later than `now` shows a negative hour field: the display starts
      with a minus sign. */
  lemma ElapsedClockBeforeStart(ms: int)
    requires ms < 0
    ensures ElapsedClock(ms)[0] == '-'
  {
    var es := ms / 1000;
    assert es < 0;
    assert es / 3600 < 0;
    FieldFacts(es / 3600);
  }

  class TaskTimer {
    var taskName: string
    var isRunning: bool
    var startTime: Option<int>
    var elapsedTime: int
    /** `timer_interval`: the handle `setInterval` returned, or null. */
    var timerInterval: Option<nat>
    /** The intervals this widget has set and not cleared. */
    var liveIntervals: set<nat>
    var sectionVisible: bool
    var startVisible: bool
    var stopVisible: bool
    var displayVisible: bool
    /** The milliseconds `#current-timer` last rendered; None while it still
        shows the `00:00:00` it is built with. */
    var shownElapsed: Option<int>
    /** The text of `#total-time`. */
    var totalTime: string

    /** The text of `#current-timer`. */
    function CurrentTimer(): string
      reads this
    {
      if shownElapsed.Some? then ElapsedClock(shownElapsed.value) else "00:00:00"
    }

    /** The only live interval is the one in `timerInterval`. */
    predicate HoldsOne()
      reads this
    {
      liveIntervals == (if timerInterval.Some? then {timerInterval.value} else {})
    }

    /** The widget's invariant: it holds at most one interval, the one in
        `timerInterval`; an interval, a start instant and a running timer go
        together; and while the section shows, Stop and the display show
        exactly when the timer runs, Start exactly when it does not. */
    predicate Valid()
      reads this
    {
      && HoldsOne()
      && (isRunning <==> timerInterval.Some?)
      && (isRunning <==> startTime.Some?)
      && (sectionVisible ==>
            stopVisible == isRunning && displayVisible == isRunning && startVisible == !isRunning)
    }

    /** `new TaskTimer(frm)`: the fields start stopped and empty; the section
        is built with Start shown and Stop and the display hidden, and
        `configure_status_field` hides it for a Completed task. The status
        query it sends is answered by `OnStatusResponse`. */
    constructor(taskName: string, status: string)
      ensures Valid()
      ensures this.taskName == taskName
      ensures !isRunning && startTime.None? && elapsedTime == 0 && timerInterval.None? && liveIntervals == {}
      ensures sectionVisible == (status != CompletedStatus)
      ensures startVisible && !stopVisible && !displayVisible
      ensures shownElapsed.None? && CurrentTimer() == "00:00:00" && totalTime == Calculating
    {
      this.taskName := taskName;
      isRunning := false;
      startTime := None;
      elapsedTime := 0;
      timerInterval := None;
      liveIntervals := {};
      sectionVisible := status != CompletedStatus;
      startVisible := true;
      stopVisible := false;
      displayVisible := false;
      shownElapsed := None;
      totalTime := Calculating;
    }

    /** `stop_timer_update`: clears the held interval, if any. */
    method StopTimerUpdate()
      requires HoldsOne()
      modifies this
      ensures timerInterval.None? && liveIntervals == {} && HoldsOne()
      ensures isRunning == old(isRunning) && startTime == old(startTime) && elapsedTime == old(elapsedTime)
      ensures sectionVisible == old(sectionVisible) && startVisible == old(startVisible)
      ensures stopVisible == old(stopVisible) && displayVisible == old(displayVisible)
      ensures shownElapsed == old(shownElapsed) && totalTime == old(totalTime) && taskName == old(taskName)
    {
      if timerInterval.Some? {
        liveIntervals := liveIntervals - {timerInterval.value};
        timerInterval := None;
      }
    }

    /** `start_timer_update`: clears the previous interval, then holds the new
        one `setInterval` returned. */
    method StartTimerUpdate(handle: nat)
      requires HoldsOne() && handle >= 1
      modifies this
      ensures timerInterval == Some(handle) && liveIntervals == {handle} && HoldsOne()
      ensures isRunning == old(isRunning) && startTime == old(startTime) && elapsedTime == old(elapsedTime)
      ensures sectionVisible == old(sectionVisible) && startVisible == old(startVisible)
      ensures stopVisible == old(stopVisible) && displayVisible == old(displayVisible)
      ensures shownElapsed == old(shownElapsed) && totalTime == old(totalTime) && taskName == old(taskName)
    {
      StopTimerUpdate();
      timerInterval := Some(handle);
      liveIntervals := liveIntervals + {handle};
    }

    /** `update_ui_for_running_timer` and `update_ui_for_stopped_timer`. */
    method ShowRunning(running: bool)
      modifies this
      ensures displayVisible == running && stopVisible == running && startVisible == !running
      ensures isRunning == old(isRunning) && startTime == old(startTime) && elapsedTime == old(elapsedTime)
      ensures timerInterval == old(timerInterval) && liveIntervals == old(liveIntervals)
      ensures sectionVisible == old(sectionVisible)
      ensures shownElapsed == old(shownElapsed) && totalTime == old(totalTime) && taskName == old(taskName)
    {
      displayVisible := running;
      startVisible := !running;
      stopVisible := running;
    }

    /** The reply to `start_timer`: on success the timer runs from `now` with
        elapsed time 0 and the interval `handle`; a failed reply, or a call
        that raised, changes nothing. */
    method OnStartResponse(success: bool, now: int, handle: nat)
      requires Valid() && handle >= 1
      modifies this
      ensures Valid()
      ensures success ==>
        && isRunning && startTime == Some(now) && elapsedTime == 0
        && timerInterval == Some(handle) && liveIntervals == {handle}
        && stopVisible && displayVisible && !startVisible
        && sectionVisible == old(sectionVisible)
        && shownElapsed == old(shownElapsed) && totalTime == old(totalTime) && taskName == old(taskName)
      ensures !success ==> unchanged(this)
    {
      if success {
        isRunning := true;
        startTime := Some(now);
        elapsedTime := 0;
        ShowRunning(true);
        StartTimerUpdate(handle);
      }
    }

    /** The reply to `stop_timer`: on success the timer stops, its interval
        is cleared and Start shows again; otherwise nothing changes. The
        total-time query sent afterwards is answered by `OnTotalTimeResponse`. */
    method OnStopResponse(success: bool)
      requires Valid()
      modifies this
      ensures Valid()
      ensures success ==>
        && !isRunning && startTime.None? && elapsedTime == old(elapsedTime)
        && timerInterval.None? && liveIntervals == {}
        && startVisible && !stopVisible && !displayVisible
        && sectionVisible == old(sectionVisible)
        && shownElapsed == old(shownElapsed) && totalTime == old(totalTime) && taskName == old(taskName)
      ensures !success ==> unchanged(this)
    {
      if success {
        isRunning := false;
        startTime := None;
        ShowRunning(false);
        StopTimerUpdate();
      }
    }

    /** The reply to `complete_task`: on success the timer stops, its interval
        is cleared and the whole section is hidden; the buttons keep their
        state. Otherwise nothing changes. */
    method OnCompleteResponse(success: bool)
      requires Valid()
      modifies this
      ensures Valid()
      ensures success ==>
        && !isRunning && startTime.None? && elapsedTime == old(elapsedTime)
        && timerInterval.None? && liveIntervals == {} && !sectionVisible
        && startVisible == old(startVisible) && stopVisible == old(stopVisible)
        && displayVisible == old(displayVisible)
        && shownElapsed == old(shownElapsed) && totalTime == old(totalTime) && taskName == old(taskName)
      ensures !success ==> unchanged(this)
    {
      if success {
        isRunning := false;
        startTime := None;
        sectionVisible := false;
        StopTimerUpdate();
      }
    }

    /** The reply to `get_timer_status`: when it says the task's timer runs,
        the widget adopts its start instant and holds the interval `handle`;
        otherwise nothing changes. */
    method OnStatusResponse(running: bool, serverStart: int, handle: nat)
      requires Valid() && handle >= 1
      modifies this
      ensures Valid()
      ensures running ==>
        && isRunning && startTime == Some(serverStart) && elapsedTime == old(elapsedTime)
        && timerInterval == Some(handle) && liveIntervals == {handle}
        && stopVisible && displayVisible && !startVisible
        && sectionVisible == old(sectionVisible)
        && shownElapsed == old(shownElapsed) && totalTime == old(totalTime) && taskName == old(taskName)
      ensures !running ==> unchanged(this)
    {
      if running {
        isRunning := true;
        startTime := Some(serverStart);
        ShowRunning(true);
        StartTimerUpdate(handle);
      }
    }

    /** The reply to `get_task_time_info`: with a message, the total shows
        its `total_time_formatted`, or "00:00:00" when that is empty. */
    method OnTotalTimeResponse(hasMessage: bool, formatted: string)
      modifies this
      ensures hasMessage ==> totalTime == (if formatted != "" then formatted else "00:00:00")
      ensures !hasMessage ==> totalTime == old(totalTime)
      ensures isRunning == old(isRunning) && startTime == old(startTime) && elapsedTime == old(elapsedTime)
      ensures timerInterval == old(timerInterval) && liveIntervals == old(liveIntervals)
      ensures sectionVisible == old(sectionVisible) && startVisible == old(startVisible)
      ensures stopVisible == old(stopVisible) && displayVisible == old(displayVisible)
      ensures shownElapsed == old(shownElapsed) && taskName == old(taskName)
    {
      if hasMessage {
        totalTime := if formatted != "" then formatted else "00:00:00";
      }
    }

    /** `update_timer_display`, run by the interval: nothing unless the timer
        runs with a start instant; then the display shows the time elapsed
        since the start. */
    method UpdateTimerDisplay(now: int)
      modifies this
      ensures isRunning && startTime.Some? ==> shownElapsed == Some(now - startTime.value)
      ensures !(isRunning && startTime.Some?) ==> shownElapsed == old(shownElapsed)
      ensures isRunning == old(isRunning) && startTime == old(startTime) && elapsedTime == old(elapsedTime)
      ensures timerInterval == old(timerInterval) && liveIntervals == old(liveIntervals)
      ensures sectionVisible == old(sectionVisible) && startVisible == old(startVisible)
      ensures stopVisible == old(stopVisible) && displayVisible == old(displayVisible)
      ensures totalTime == old(totalTime) && taskName == old(taskName)
    {
      if isRunning && startTime.Some? {
        shownElapsed := Some(now - startTime.value);
      }
    }
  }

  /** Once the display has rendered a start not after the instant of the
      rendering, its text reads back to the hours, minutes and seconds
      elapsed. */
  lemma DisplayReadsBack(t: TaskTimer)
    requires t.shownElapsed.Some? && t.shownElapsed.value >= 0
    ensures var es := t.shownElapsed.value / 1000;
      ReadClock(t.CurrentTimer()) == Some((es / 3600, (es % 3600) / 60, es % 60))
  {
    ElapsedClockFields(t.shownElapsed.value);
  }

  /** Two successful starts in a row leave one live interval, the later
      one, and the start instant of the later reply. */
  method StartTwice(t: TaskTimer, now1: int, h1: nat, now2: int, h2: nat)
    requires t.Valid() && h1 >= 1 && h2 >= 1
    modifies t
    ensures t.Valid() && t.liveIntervals == {h2} && t.startTime == Some(now2)
  {
    t.OnStartResponse(true, now1, h1);
    t.OnStartResponse(true, now2, h2);
  }
}
