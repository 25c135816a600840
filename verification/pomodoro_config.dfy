/** The Pomodoro timer's configuration: its three modes, their default
    durations in seconds, and how many work sessions earn a long break. */
module PomodoroConfig {

  datatype Mode = Work | ShortBreak | LongBreak

  /** A duration in seconds for each mode. */
  datatype Durations = Durations(work: int, shortBreak: int, longBreak: int) {

    /** `durations[mode]`. */
    function Of(m: Mode): int {
      match m
      case Work => work
      case ShortBreak => shortBreak
      case LongBreak => longBreak
    }

    predicate Positive() {
      work > 0 && shortBreak > 0 && longBreak > 0
    }
  }

  /** `DEFAULTS`: 20, 5 and 15 minutes. */
  const Defaults: Durations := Durations(20 * 60, 5 * 60, 15 * 60)

  /** `WORK_SESSIONS_PER_LONG_BREAK`. */
  const WorkSessionsPerLongBreak: int := 3
}
