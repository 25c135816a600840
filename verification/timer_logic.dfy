/** `PomodoroTimer`: the countdown and mode rotation of the Pomodoro window.
    The timer's fields live on the window object; here they are one value,
    and every method becomes a function from the old value to the new one.
    The notification sound and the screen refresh change no field and are
    left out. */
module TimerLogic {
  import opened PomodoroConfig
  import opened SessionTracker

  /** What `timer_job` holds: nothing, the handle of a tick callback that is
      scheduled and has not fired, or the handle of one that has already
      fired (cancelling that one does nothing). */
  datatype Job = NoJob | Live | Spent

  /** The timer state: the window's `durations`, `mode`, `remaining_seconds`,
      `running` and `session_count`; the timer's `timer_job`; `pending`, the
      number of tick callbacks scheduled with the event loop and neither
      fired nor cancelled; and the sessions file that mode completion
      updates. */
  datatype Pomodoro = Pomodoro(
    durations: Durations,
    mode: Mode,
    remaining: int,
    running: bool,
    sessionCount: int,
    pending: nat,
    job: Job,
    store: StoreFile)

  /** The state every entry point keeps: a tick is pending exactly while the
      timer runs, never more than one, and `timer_job` holds its handle; the
      countdown never exceeds the current mode's duration, and with positive
      durations it never sits at zero or below between callbacks. */
  predicate Valid(p: Pomodoro) {
    && ((p.running && p.pending == 1 && p.job == Live) || (!p.running && p.pending == 0 && p.job == NoJob))
    && p.remaining <= p.durations.Of(p.mode)
    && (p.durations.Positive() ==> 1 <= p.remaining)
  }

  /** `_schedule_tick`: one more callback is scheduled and `timer_job` now
      holds it; nothing else changes. */
  function ScheduleTick(p: Pomodoro): (r: Pomodoro)
    ensures r.pending == p.pending + 1 && r.job == Live
    ensures r.(pending := p.pending, job := p.job) == p
  {
    p.(pending := p.pending + 1, job := Live)
  }

  /** The `if self.timer_job: after_cancel(...)` step shared by pause, restart
      and skip: a live callback is withdrawn, a spent handle is just dropped. */
  function CancelJob(p: Pomodoro): (r: Pomodoro)
    ensures r.job == NoJob
    ensures p.job == Live && p.pending > 0 ==> r.pending == p.pending - 1
    ensures !(p.job == Live && p.pending > 0) ==> r.pending == p.pending
    ensures r.(pending := p.pending, job := p.job) == p
  {
    if p.job == NoJob then p
    else p.(pending := if p.job == Live && p.pending > 0 then p.pending - 1 else p.pending, job := NoJob)
  }

  /** `start`: sets `running` and schedules a tick, without looking at
      `running` first. */
  function Start(p: Pomodoro): (r: Pomodoro)
    ensures r.running && r.job == Live && r.pending == p.pending + 1
    ensures r.mode == p.mode && r.remaining == p.remaining && r.sessionCount == p.sessionCount
  {
    ScheduleTick(p.(running := true))
  }

  /** `pause`: clears `running` and cancels the tick `timer_job` holds. */
  function Pause(p: Pomodoro): (r: Pomodoro)
    ensures !r.running && r.job == NoJob
    ensures Valid(p) ==> r.pending == 0 && Valid(r)
    ensures r.mode == p.mode && r.remaining == p.remaining && r.sessionCount == p.sessionCount
  {
    CancelJob(p.(running := false))
  }

  /** `restart`: the countdown goes back to the full duration of the current
      mode; the pending tick is cancelled and re-armed only if running. */
  function Restart(p: Pomodoro): (r: Pomodoro)
    ensures r.remaining == p.durations.Of(p.mode)
    ensures r.mode == p.mode && r.running == p.running && r.sessionCount == p.sessionCount
    ensures r.job == (if p.running then Live else NoJob)
    ensures Valid(p) ==> Valid(r)
  {
    var cancelled := CancelJob(p.(remaining := p.durations.Of(p.mode)));
    if cancelled.running then ScheduleTick(cancelled) else cancelled
  }

  /** The mode that follows a completed work session, given the count after
      it: a long break on every `WorkSessionsPerLongBreak`-th session.
      (Python's `%` and Dafny's agree here: the divisor is positive.) */
  function BreakAfter(count: int): (m: Mode)
    ensures m != Work
    ensures m == LongBreak <==> count % WorkSessionsPerLongBreak == 0
    ensures m == ShortBreak <==> count % WorkSessionsPerLongBreak != 0
  {
    if count % WorkSessionsPerLongBreak == 0 then LongBreak else ShortBreak
  }

  /** `_on_mode_complete`: a finished work session is counted, in the window
      and in the sessions file, and followed by a break; a finished break is
      followed by work. The new mode starts from its full duration, and a
      tick is scheduled only if the timer is running. */
  function ModeComplete(p: Pomodoro, today: Date): (r: Pomodoro)
    ensures p.mode == Work ==> && r.sessionCount == p.sessionCount + 1
                               && r.mode != Work
                               && (r.mode == LongBreak <==> r.sessionCount % WorkSessionsPerLongBreak == 0)
                               && r.store == IncrementSession(p.store, today).file
    ensures p.mode != Work ==> r.mode == Work && r.sessionCount == p.sessionCount && r.store == p.store
    ensures r.remaining == p.durations.Of(r.mode)
    ensures r.durations == p.durations && r.running == p.running
    ensures p.running ==> r.job == Live && r.pending == p.pending + 1
    ensures !p.running ==> r.job == p.job && r.pending == p.pending
  {
    var completed :=
      if p.mode == Work then
        var count := p.sessionCount + 1;
        var stored := IncrementSession(p.store, today).file;
        p.(sessionCount := count, mode := BreakAfter(count), store := stored)
      else p.(mode := Work);
    var next := completed.(remaining := completed.durations.Of(completed.mode));
    if next.running then ScheduleTick(next) else next
  }

  /** `skip`: cancel the pending tick and complete the current mode now; the
      timer keeps running or stays paused, as it was. */
  function Skip(p: Pomodoro, today: Date): (r: Pomodoro)
    ensures r.running == p.running && r.mode != p.mode
    ensures r.mode == (if p.mode == Work then BreakAfter(p.sessionCount + 1) else Work)
    ensures r.remaining == p.durations.Of(r.mode)
    ensures r.sessionCount == p.sessionCount + (if p.mode == Work then 1 else 0)
    ensures r.store == (if p.mode == Work then IncrementSession(p.store, today).file else p.store)
    ensures Valid(p) ==> Valid(r)
  {
    ModeComplete(CancelJob(p), today)
  }

  /** `_tick`: nothing while paused; otherwise one second less, and either
      the mode completes (the countdown reached zero) or the next tick is
      scheduled with the mode unchanged. */
  function Tick(p: Pomodoro, today: Date): (r: Pomodoro)
    ensures !p.running ==> r == p
    ensures p.running && p.remaining - 1 > 0 ==>
      r == p.(remaining := p.remaining - 1, pending := p.pending + 1, job := Live)
    ensures p.running && p.remaining - 1 <= 0 ==>
      r == ModeComplete(p.(remaining := p.remaining - 1), today)
  {
    if !p.running then p
    else
      var counted := p.(remaining := p.remaining - 1);
      if counted.remaining <= 0 then ModeComplete(counted, today)
      else ScheduleTick(counted)
  }

  /** The event loop runs the oldest scheduled callback, which is `_tick`.
      Callbacks fire in the order they were scheduled, so the handle in
      `timer_job`, the newest, is spent once none is left. With nothing
      scheduled, nothing happens. */
  function Fire(p: Pomodoro, today: Date): (r: Pomodoro)
    ensures p.pending == 0 ==> r == p
    ensures Valid(p) ==> Valid(r)
    ensures Valid(p) && p.running ==> r.running && r.pending == 1
  {
    if p.pending == 0 then p
    else
      var left := p.pending - 1;
      var fired := p.(pending := left, job := if left == 0 && p.job == Live then Spent else p.job);
      Tick(fired, today)
  }
}
