/** The parts of the Pomodoro window that drive the timer: the initial state
    built by its constructor, and the three user commands (play/pause,
    restart, skip) besides the event loop's tick. Properties that hold over
    every sequence of these events are proved here. */
module PomodoroApp {
  import opened Wrappers
  import opened PomodoroConfig
  import opened SessionTracker
  import opened TimerLogic

  /** The window's initial timer state. `given` is the `durations` argument:
      `None` stands for an absent or empty mapping, both of which fall back
      to `DEFAULTS`. The session count is today's count from the sessions
      file, which loading may rewrite. */
  function Init(given: Option<Durations>, file: StoreFile, today: Date): (p: Pomodoro)
    ensures p.durations == given.GetOr(Defaults)
    ensures given.None? ==> p.durations.work == 1200 && p.durations.shortBreak == 300 && p.durations.longBreak == 900
    ensures p.mode == Work && p.remaining == p.durations.work && !p.running
    ensures p.sessionCount == LoadSessions(file, today).record.sessionsCount
    ensures p.store == LoadSessions(file, today).file
    ensures Valid(p)
  {
    var durations := given.GetOr(Defaults);
    var loaded := LoadSessions(file, today);
    Pomodoro(durations, Work, durations.Of(Work), false, loaded.record.sessionsCount, 0, NoJob, loaded.file)
  }

  /** `toggle` (the play/pause button and the space key): pause a running
      timer, start a paused one. Starting only from a paused timer is what
      keeps a single tick pending. */
  function Toggle(p: Pomodoro): (r: Pomodoro)
    ensures r.running == !p.running
    ensures r.mode == p.mode && r.remaining == p.remaining && r.sessionCount == p.sessionCount
    ensures Valid(p) ==> Valid(r)
  {
    if p.running then Pause(p) else Start(p)
  }

  /** Why the invariant is stated over `Toggle` and not over `Start`: starting
      a timer that already runs leaves the old callback scheduled beside the
      new one. */
  lemma {:induction false} StartWhileRunningOrphansTick(p: Pomodoro)
    requires Valid(p) && p.running
    ensures Start(p).pending == 2 && !Valid(Start(p))
  {
  }

  /** What can happen to the window: a key or button press, or the event
      loop running the next scheduled callback. */
  datatype Event = PressToggle | PressRestart | PressSkip | TimerFires

  /** The window's key bindings and button handlers (space or play/pause,
      `r` or restart, `s` or skip) and the event loop's callback. */
  function Step(p: Pomodoro, e: Event, today: Date): (r: Pomodoro)
    ensures e == PressToggle ==> r.running == !p.running && r.mode == p.mode
    ensures e == PressRestart ==> r.remaining == p.durations.Of(p.mode) && r.mode == p.mode
    ensures e == PressSkip ==> r.mode != p.mode && r.remaining == p.durations.Of(r.mode)
    ensures e == TimerFires && p.pending == 0 ==> r == p
    ensures e != TimerFires ==> r.durations == p.durations
    ensures Valid(p) ==> Valid(r)
  {
    match e
    case PressToggle => Toggle(p)
    case PressRestart => Restart(p)
    case PressSkip => Skip(p, today)
    case TimerFires => Fire(p, today)
  }

  /** The state after a sequence of events, all on the same day. */
  function Run(p: Pomodoro, events: seq<Event>, today: Date): Pomodoro
    decreases |events|
  {
    if |events| == 0 then p else Run(Step(p, events[0], today), events[1..], today)
  }

  /** Whatever the user does, at most one tick is ever pending, and one is
      pending exactly while the timer runs. */
  lemma {:induction false} RunKeepsValid(p: Pomodoro, events: seq<Event>, today: Date)
    requires Valid(p)
    ensures Valid(Run(p, events, today))
    ensures Run(p, events, today).pending <= 1
    ensures Run(p, events, today).pending == 1 <==> Run(p, events, today).running
    decreases |events|
  {
    if |events| > 0 {
      RunKeepsValid(Step(p, events[0], today), events[1..], today);
    }
  }

  /** The state after a sequence of events, each on the day it happens, so
      a window left open past midnight is covered. */
  function RunDated(p: Pomodoro, events: seq<(Event, Date)>): Pomodoro
    decreases |events|
  {
    if |events| == 0 then p else RunDated(Step(p, events[0].0, events[0].1), events[1..])
  }

  /** The tick invariant does not depend on the day: across any number of
      day changes, at most one tick is pending, exactly while running. */
  lemma {:induction false} RunDatedKeepsValid(p: Pomodoro, events: seq<(Event, Date)>)
    requires Valid(p)
    ensures Valid(RunDated(p, events))
    ensures RunDated(p, events).pending <= 1
    ensures RunDated(p, events).pending == 1 <==> RunDated(p, events).running
    decreases |events|
  {
    if |events| > 0 {
      RunDatedKeepsValid(Step(p, events[0].0, events[0].1), events[1..]);
    }
  }

  /** The window's count equals the count the sessions file gives for
      today. */
  predicate AgreesWithStore(p: Pomodoro, today: Date) {
    LoadSessions(p.store, today).record.sessionsCount == p.sessionCount
  }

  /** The window starts in agreement with the sessions file, and as long as
      the day does not change every event keeps it so. */
  lemma {:induction false} RunKeepsStoreAgreement(p: Pomodoro, events: seq<Event>, today: Date)
    requires AgreesWithStore(p, today)
    ensures AgreesWithStore(Run(p, events, today), today)
    decreases |events|
  {
    if |events| > 0 {
      StepKeepsStoreAgreement(p, events[0], today);
      RunKeepsStoreAgreement(Step(p, events[0], today), events[1..], today);
    }
  }

  lemma {:induction false} StepKeepsStoreAgreement(p: Pomodoro, e: Event, today: Date)
    requires AgreesWithStore(p, today)
    ensures AgreesWithStore(Step(p, e, today), today)
  {
    match e
    case PressToggle =>
    case PressRestart =>
    case PressSkip => CompletionKeepsStoreAgreement(CancelJob(p), today);
    case TimerFires =>
      if p.pending > 0 && p.running {
        var left := p.pending - 1;
        var fired := p.(pending := left, job := if left == 0 && p.job == Live then Spent else p.job);
        CompletionKeepsStoreAgreement(fired.(remaining := fired.remaining - 1), today);
      }
  }

  lemma {:induction false} CompletionKeepsStoreAgreement(p: Pomodoro, today: Date)
    requires AgreesWithStore(p, today)
    ensures AgreesWithStore(ModeComplete(p, today), today)
  {
    if p.mode == Work {
      IncrementThenLoad(p.store, today);
    }
  }

  /** The fresh window agrees with the sessions file it loaded. */
  lemma {:induction false} InitAgreesWithStore(given: Option<Durations>, file: StoreFile, today: Date)
    ensures AgreesWithStore(Init(given, file, today), today)
  {
    LoadIdempotent(file, today);
  }

  /** The break rotation: from work with a count that is a multiple of
      three, six skips give short break, work, short break, work, long
      break, work, and count three sessions. */
  lemma {:induction false} SkipRotation(p: Pomodoro, today: Date)
    requires p.mode == Work && p.sessionCount % WorkSessionsPerLongBreak == 0
    ensures var q1 := Skip(p, today); var q2 := Skip(q1, today); var q3 := Skip(q2, today);
            var q4 := Skip(q3, today); var q5 := Skip(q4, today); var q6 := Skip(q5, today);
            && q1.mode == ShortBreak && q2.mode == Work
            && q3.mode == ShortBreak && q4.mode == Work
            && q5.mode == LongBreak && q6.mode == Work
            && q6.sessionCount == p.sessionCount + 3
  {
    var c := p.sessionCount;
    assert (c + 1) % 3 == 1 && (c + 2) % 3 == 2 && (c + 3) % 3 == 0;
  }

  /** A scenario with work of 2 seconds and breaks of 1 second: start, two
      ticks finish the work session, then pause and skip leave the timer
      paused at the start of the next work session. */
  lemma {:induction false} ShortSessionScenario(today: Date)
    ensures var p0 := Init(Some(Durations(2, 1, 1)), Missing, today);
            var p1 := Run(p0, [PressToggle, TimerFires, TimerFires], today);
            var p2 := Run(p1, [PressToggle, PressSkip], today);
            && p1.mode == ShortBreak && p1.remaining == 1 && p1.sessionCount == 1 && p1.running
            && p2.mode == Work && p2.remaining == 2 && p2.sessionCount == 1 && !p2.running
            && LoadSessions(p2.store, today).record.sessionsCount == 1
  {
  }
}
