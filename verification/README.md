# Hocus-Focus core in Dafny

A model of the logic inside two small desktop programs, with proofs about it.

- **Pomodoro timer.** The timer is a countdown. It runs through work sessions, short breaks and long breaks. Every third completed work session earns a long break. Completed work sessions are counted per day in a sessions file. The window shows the remaining time as `MM:SS`.
- **Now-or-never to-do list.** A list of tasks, each with an id, a title, a done flag and a creation timestamp. A command-line program adds, marks, deletes and clears tasks. A window program lists the tasks sorted by creation time and edits them through the selected rows.

Everything is modelled as immutable values and pure functions. Each handler maps the old state to the new one.

- **Inputs.** The current day, the current timestamp, the successive `uuid4` draws, dialog answers and list-box selections are all parameters.
- **Files.** The JSON files are abstract values: a list of tasks, and a `StoreFile` for the sessions file.
- **Scheduling.** The Tk event loop is modelled by a count of scheduled tick callbacks (`pending`) and the state of the handle in `timer_job` (`Job`). `Fire` runs the oldest scheduled callback.

Modules, in dependency order:

| file | module | models |
|---|---|---|
| `wrappers.dfy` | `Wrappers` | `Option` |
| `text.dfy` | `Text` | `str.strip()` and `str.lower()` |
| `decimal.dfy` | `Decimal` | `str(n)`, `02d` padding and the value of a digit string |
| `ui_components.dfy` | `UiComponents` | `format_time`, with a parser as its inverse |
| `pomodoro_config.dfy` | `PomodoroConfig` | modes, `DEFAULTS`, `WORK_SESSIONS_PER_LONG_BREAK` |
| `session_tracker.dfy` | `SessionTracker` | `load_sessions`, `increment_session`, `_init_new_day` |
| `timer_logic.dfy` | `TimerLogic` | `PomodoroTimer` and the timer invariant |
| `pomodoro_app.dfy` | `PomodoroApp` | the window's initial state, `toggle`, and runs of events |
| `task_manager.dfy` | `TaskManager` | tasks, `generate_unique_id`, `add_task`, `delete_tasks` |
| `todo_cli.dfy` | `TodoCli` | `find_task` and the `cmd_*` commands |
| `task_order.dfy` | `TaskOrder` | the stable sort by `created_at` behind `refresh` |
| `todo_app.dfy` | `TodoApp` | the window handlers and `index_map` |

The command-line program exists as two identical files, `todo_cli.py` and `todo-cli.py`. The window program also exists twice:
- `todo_app.py` uses `task_manager.py`;
- `todo-gui.py` repeats the same list changes inline, including its own copy of `generate_unique_id`.

Each pair is modelled once, and the table below cites both copies.

Notes on behaviour that the model follows:

- **A corrupt sessions file is not rewritten.** `load_sessions` returns a fresh record for today after a decoding error. That record already carries today's date, so the date check does not save it (`SessionTracker.LoadSessions`).
- **`format_time` drops whole days.** It uses `timedelta(...).seconds`, so an input of 86400 seconds or more is shown modulo one day (`UiComponents.FormatTimeWrapsDaily`).
- **`start` does not check `running`.** Starting a running timer leaves the first tick callback scheduled beside the new one. Only `toggle` guards against this, so the "one tick pending exactly while running" invariant holds over the entry points `toggle`, `restart`, `skip` and the timer callback, not over `start` (`PomodoroApp.StartWhileRunningOrphansTick`).
- **The window's counter and the file agree only within one day.** After a day change, the file restarts at zero while `session_count` keeps counting. Agreement is proved for a fixed day (`PomodoroApp.RunKeepsStoreAgreement`).
- **Deletion compares whole task values.** `delete_tasks` removes a task if it is equal to a listed one. With distinct ids, which every operation preserves, this removes exactly the tasks at the selected positions (`TodoApp.DeleteRemovesChosen`).

## Model

| member | source | states |
|---|---|---|
| UiComponents.TimeOfDay | pomodoro/ui_components.py:28-29 | Negative input counts as zero, and the result is below one day. Input within one day is kept unchanged. |
| UiComponents.FormatTime | pomodoro/ui_components.py:27-30 | The text is `MM:SS`: the minute field holds the minutes of the time of day and the second field holds the remaining seconds. Seconds are below 60. Below 100 minutes the text is exactly five characters. A longer minute field has no leading zero. Negative input shows `00:00`. |
| UiComponents.FiveMinutesShown | pomodoro/ui_components.py:30 | 300 seconds show as exactly `05:00`. |
| UiComponents.WholeMinutesShown | pomodoro/ui_components.py:30 | Any whole number of minutes below ten shows as `0m:00`, with one zero of padding on the minutes and two zeros for the seconds. |
| UiComponents.FormatTimeRoundTrip | pomodoro/ui_components.py:27-30 | Parsing the displayed text gives back the clamped time of day, so no information within a day is lost. |
| UiComponents.FormatTimeInjectiveWithinDay | pomodoro/ui_components.py:27-30 | Two inputs within one day display the same text exactly when they are equal. |
| UiComponents.FormatTimeWrapsDaily | pomodoro/ui_components.py:28-29 | Inputs a whole number of days apart display the same text. |
| Decimal.TwoDigits | pomodoro/ui_components.py:30 | `02d` gives at least two digits that denote the number. Numbers below 100 take exactly two digits. Longer output is the plain notation of the number, with no leading zero. |
| Decimal.FromNat | pomodoro/ui_components.py:30 | The decimal notation of a number is non-empty, all digits and without a leading zero, and it denotes the number. |
| SessionTracker.InitNewDay | pomodoro/session_tracker.py:44-47 | A fresh record is dated today and has count 0. |
| SessionTracker.NewDayIsKept | pomodoro/session_tracker.py:44-47 | A saved new-day record is what a load on that day returns, and the load leaves the file as it is. |
| SessionTracker.LoadSessions | pomodoro/session_tracker.py:8-26 | The result is always dated today. A record of today is returned and kept as stored. A missing file or a record of another day gives count 0, and the file is rewritten with it. A corrupt file gives count 0 and is left as it is. |
| SessionTracker.IncrementSession | pomodoro/session_tracker.py:35-41 | The count is one more than the count loaded for today, and the file holds exactly the returned record. |
| SessionTracker.LoadIdempotent | pomodoro/session_tracker.py:8-26 | Loading again on the same day returns the same record and leaves the file as the first load left it. |
| SessionTracker.IncrementThenLoad | pomodoro/session_tracker.py:35-41 | What an increment saves is what the next load that day returns. |
| SessionTracker.FirstSessionOfDay | pomodoro/session_tracker.py:35-41 | When the file holds no record of today, an increment gives a record of today with count 1. |
| SessionTracker.IncrementsAccumulate | pomodoro/session_tracker.py:35-41 | n increments on one day raise the loaded count by exactly n. |
| TimerLogic.ScheduleTick | pomodoro/timer_logic.py:36-37 | One more callback is scheduled and `timer_job` holds it. Nothing else changes. |
| TimerLogic.CancelJob | pomodoro/timer_logic.py:18-20 | `timer_job` is cleared. One pending callback is withdrawn if the handle was unfired. Nothing else changes. |
| TimerLogic.Start | pomodoro/timer_logic.py:12-14 | The timer runs and one more tick is pending. Mode, countdown and count are unchanged. |
| TimerLogic.Pause | pomodoro/timer_logic.py:16-20 | The timer stops and `timer_job` is cleared. From a valid state no tick remains pending, and the invariant holds. |
| TimerLogic.Restart | pomodoro/timer_logic.py:22-28 | The countdown returns to the full duration of the current mode. Mode, running flag and count stay. A tick is re-armed exactly when running. The invariant is preserved. |
| TimerLogic.ModeComplete | pomodoro/timer_logic.py:49-69 | After work, the count rises by one and is recorded in the sessions file. A long break follows exactly when the new count is a multiple of 3, otherwise a short break. After a break, work follows and count and file stay. The new mode starts at its full duration. A tick is scheduled only when running. |
| TimerLogic.BreakAfter | pomodoro/timer_logic.py:56-59 | After a work session comes a break, never work. It is a long break exactly when the new count is a multiple of 3, and a short break otherwise. |
| TimerLogic.Skip | pomodoro/timer_logic.py:30-34 | The running flag stays and the mode always changes. Work is followed by the break `BreakAfter` picks for the raised count, and a break is followed by work. The countdown is the new mode's full duration. After work the count and the sessions file rise by one; after a break both stay. The invariant is preserved. |
| TimerLogic.Tick | pomodoro/timer_logic.py:39-47 | Nothing happens while paused. When running, the countdown drops by one second. At zero or below, the mode completes. Otherwise the next tick is scheduled and the mode is kept. |
| TimerLogic.Fire | pomodoro/timer_logic.py:36-47 | With nothing scheduled, nothing happens. Running the oldest callback preserves the invariant. A running timer keeps running with exactly one tick pending. |
| PomodoroApp.Init | pomodoro/pomodoro_app.py:15-19 | Durations are the given ones or the defaults 1200/300/900. The timer starts in work mode with the full work duration, paused. The count is today's count from the sessions file. The state satisfies the invariant. |
| PomodoroApp.Toggle | pomodoro/pomodoro_app.py:95-100 | The running flag flips. Mode, countdown and count stay. The invariant is preserved. |
| PomodoroApp.StartWhileRunningOrphansTick | pomodoro/timer_logic.py:12-14 | Calling `start` on a running timer leaves two ticks pending, which breaks the invariant. |
| PomodoroApp.Step | pomodoro/pomodoro_app.py:25-27 | Space toggles the running flag, `r` resets the countdown to the mode's full duration, and `s` moves to another mode at its full duration. A callback with nothing scheduled changes nothing. Every event keeps the invariant. |
| PomodoroApp.RunKeepsValid | pomodoro/pomodoro_app.py:95-108 | Over any sequence of toggle, restart and skip presses and timer callbacks on one day, at most one tick is pending, and one is pending exactly while running. |
| PomodoroApp.RunDatedKeepsValid | pomodoro/pomodoro_app.py:102-108 | The same holds when each event happens on its own day, so a window left open past midnight keeps the invariant too. |
| PomodoroApp.RunKeepsStoreAgreement | pomodoro/timer_logic.py:52-55 | Within one day, the window's session count stays equal to the count the sessions file gives, over any sequence of events. |
| PomodoroApp.InitAgreesWithStore | pomodoro/pomodoro_app.py:19 | The initial count agrees with the sessions file as loading left it. |
| PomodoroApp.SkipRotation | pomodoro/timer_logic.py:52-61 | From work at a count that is a multiple of 3, six skips give short break, work, short break, work, long break, work, and add three sessions. |
| PomodoroApp.ShortSessionScenario | pomodoro/timer_logic.py:39-69 | With 2-second work and 1-second breaks and no sessions file: start plus two callbacks finish one work session into a running short break. Then pause plus skip leave a paused work session at full duration, and the file holds count 1. |
| Text.Strip | now-or-never/todo_cli.py:60 | The result is the slice left after dropping leading and trailing whitespace, and it neither starts nor ends with whitespace. It is empty exactly when the input is all whitespace. |
| Text.StripIdempotent | now-or-never/todo_app.py:89 | Stripping twice is the same as stripping once. |
| Text.AsciiLower | now-or-never/todo_cli.py:104 | Same length. Each character is lower-cased: ASCII capitals move to small letters and everything else is kept. |
| TaskManager.GenerateUniqueId | now-or-never/task_manager.py:22-28 | Returns the first draw that is not an existing id. There is a result exactly when some draw is unused. |
| TaskManager.AddTask | now-or-never/task_manager.py:30-39 | Exactly one task is appended and earlier tasks are unchanged. It has the given title, is not done, has the given timestamp and a new id. Distinct ids stay distinct. |
| TaskManager.DeleteTasks | now-or-never/task_manager.py:41-44 | A task is kept exactly when it is in the list and not among those to delete. The list never grows. Distinct ids stay distinct. |
| TaskManager.DeleteIdempotent | now-or-never/task_manager.py:41-43 | Deleting twice is deleting once. |
| TaskManager.DeleteDistributes | now-or-never/task_manager.py:41-43 | Deletion of a concatenation is the concatenation of the deletions, so kept tasks keep their relative order. |
| TodoCli.FindTask | now-or-never/todo_cli.py:75-79 | Gives the position of the first task with the id, or nothing exactly when no task has it. |
| TodoCli.FindUnique | now-or-never/todo-cli.py:75-79 | With distinct ids, searching for a task's id finds that task. |
| TodoCli.CmdAdd | now-or-never/todo_cli.py:59-72 | A title that is empty after stripping leaves the list unchanged. Otherwise one task is appended with the stripped (non-empty) title, not done, the given timestamp and a new id. Distinct ids stay distinct. |
| TodoCli.CmdDone | now-or-never/todo_cli.py:82-89 | Only `done` of the first task with the id changes, to true. Every other field and task stays. An unknown id changes nothing. |
| TodoCli.CmdDoneIdempotent | now-or-never/todo-cli.py:82-89 | Marking the same id twice is marking it once. |
| TodoCli.RemoveFirst | now-or-never/todo_cli.py:97 | `list.remove` drops the first element equal to the value and keeps the rest in order. |
| TodoCli.CmdDelete | now-or-never/todo_cli.py:92-99 | A known id removes the first task with that id, and the length drops by one. An unknown id changes nothing. With distinct ids, the id disappears and every other id remains. |
| TodoCli.CmdClear | now-or-never/todo_cli.py:102-109 | The list becomes empty exactly when the answer is `yes` in any letter case. Otherwise it is unchanged. |
| TaskOrder.Refresh | now-or-never/todo_app.py:70-78 | The listing holds every position of the list exactly once, ordered by `created_at`. Equal timestamps keep list order. |
| TaskOrder.OrderedUnique | now-or-never/todo-gui.py:99-107 | Two sorted listings of the same positions are equal, so the stable sort has a single possible result. |
| TaskOrder.RefreshFollowsKeys | now-or-never/todo_app.py:74 | The listing depends only on the timestamps, so changing a title or done flag keeps every row in place. |
| TaskOrder.KeyLt | now-or-never/todo_app.py:74 | Python's string `<`: at the first position where the strings differ, the smaller code point comes first. When one string is a proper prefix of the other, it comes first. |
| TaskOrder.KeyLtTotal | now-or-never/todo_app.py:74 | Python string order is total: two different strings are ordered one way or the other. |
| TaskOrder.KeyLtTransitive | now-or-never/todo_app.py:74 | Python string order is transitive. |
| TaskOrder.Insert | now-or-never/todo-gui.py:103 | Inserting a position into a sorted listing keeps it sorted and adds exactly that position. |
| TodoApp.Lookup | now-or-never/todo_app.py:103 | A row maps to a task exactly when it is a displayed row, and then to a valid position. |
| TodoApp.AddTask | now-or-never/todo_app.py:88-95 | Blank entry text changes nothing. Otherwise one task is appended with the stripped title, not done, the given timestamp and a new id. The row map is rebuilt and distinct ids stay distinct. |
| TodoApp.ToggleDone | now-or-never/todo_app.py:97-107 | Only the task shown at the first selected row has its done flag flipped. No selection or an unmapped row changes nothing. Rows stay in place. |
| TodoApp.ToggleTwiceRestores | now-or-never/todo-gui.py:136-147 | Toggling the same row twice restores the window. |
| TodoApp.EditSelected | now-or-never/todo_app.py:109-122 | Ids, done flags and timestamps of all tasks stay, and rows stay in place. No selection, an unmapped row, a cancelled dialog or a blank answer changes nothing. |
| TodoApp.EditRetitlesSelected | now-or-never/todo-gui.py:149-174 | A non-blank answer sets the title of the task at the first selected row to the stripped answer, and every other task is unchanged. |
| TodoApp.Collect | now-or-never/todo_app.py:131 | The collected tasks are exactly the tasks shown at selected rows that exist. |
| TodoApp.DeleteByPositions | now-or-never/task_manager.py:43 | When membership among the deleted values matches a set of positions, deletion keeps exactly the other positions, in order. |
| TodoApp.DeleteRemovesChosen | now-or-never/todo-gui.py:190-194 | With distinct ids, deleting the collected tasks removes exactly the tasks at the selected rows and keeps the others in order. |
| TodoApp.DeleteSelected | now-or-never/todo_app.py:124-133 | No selection or a declined prompt changes nothing. Otherwise, with distinct ids, exactly the tasks shown at selected rows go and the rest keep their order. Distinct ids stay distinct. |
| TodoApp.ClearAll | now-or-never/todo_app.py:135-139 | A confirmed prompt empties the list and the rows. Otherwise nothing changes. |
| TodoApp.Step | now-or-never/todo-gui.py:120-204 | Each user action leaves the row map matching the list and keeps distinct ids distinct. |
| TodoApp.Run | now-or-never/todo_app.py:88-139 | Over any sequence of actions in which every add finds a fresh id, the row map always matches the list and distinct ids stay distinct. |

## Left out

- Tk widgets, layout, the progress arc, colours, hover effects, the notification sound and `update_ui`: none of them change the modelled state.
- Reading and writing `tasks.json` and `sessions.json`: the list and a `StoreFile` value stand for the file contents, and saving is the identity.
- The `hours` field of the sessions record: it is a rounded float, `round(sessions_count / 3, 2)`.
- Records in the sessions file that are not JSON objects, and a `durations` mapping that lacks a mode (the source raises `KeyError`).
- `datetime.now()` and `uuid.uuid4()`: the day, the timestamp and the sequence of draws are parameters.
- The clock reading twice in `load_sessions` (once in `_init_new_day`, once for the date check): one `today` stands for both, so a midnight between them is not modelled.
- UiComponents.FormatTime: `timedelta` raises `OverflowError` once the input reaches 86 400 000 000 000 seconds (more than 999 999 999 days). The model formats those inputs as well, without the error.
- UiComponents.FormatTimeWrapsDaily: holds for every number of days in the model. In the source it holds only while both inputs stay below the `timedelta` limit above.
- `int(seconds)` in `format_time`: the model takes an integer number of seconds.
- `cmd_list`, `print_help`, `main` and `load_tasks` of the command-line program: argument parsing and printing.
- `now-or-never/ui_helpers.py`, `add_hover_effect` in `pomodoro/ui_components.py`, and both `config.py` files beyond the constants used above.
- TaskManager.GenerateUniqueId: the source draws until an id is fresh. The model takes a finite sequence of draws and has no result when all of them clash, so `AddTask` and the commands that add require one fresh draw.
- Text.AsciiLower: folds only the ASCII capitals. Python's `str.lower()` also folds other scripts, which cannot turn anything into `yes`, so `CmdClear` is unaffected.
- PomodoroApp.Init: an empty `durations` mapping falls back to the defaults like `None` does, and both are written as `None`.
- TaskOrder.OrderedUnique: requires the two listings to have the same length, which every listing built by `Refresh` has.
