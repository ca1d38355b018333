# pomotrack core, modelled in Dafny

pomotrack is a Pomodoro tracker: a Vue front end with a timer, a Kanban board of tasks, a
log of completed sessions and a small `localStorage` wrapper, plus a Python back end whose
settings build the list of origins allowed for cross-origin requests. This project models
those five pieces and proves what they promise:

- `Timer.dfy` models `useTimer`: the six refs as a `State` value with one pure step
  function per control (`Started`, `Paused`, `Stopped`, `Ticked`, `Completed`,
  `ResetState`, `Skipped`, `WithSessionType`, `Reconfigured`). The `Timer` class keeps the
  refs as fields, and each of its methods is proved to take the state exactly where the
  step function says. It also models `formattedTime` and reads the face back
  (`ParseClock`).
- `Kanban.dfy` models `useKanban`: a `Board` class whose methods change `tasks` in place.
  Its invariant: ids are distinct and at most one task is in progress.
- `SessionHistory.dfy` models `useSessionHistory`:
  - `recordSession` and `clearHistory` are functions on a `History` value.
  - `todayStats` and `recentLabels` are methods with the loops of the source, each proved
    equal to a specification function.
- `Storage.dfy` models `useStorage`:
  - `localStorage` is a `LocalStorage` class over a `map<string, string>`.
  - JSON is an abstract `Codec`.
  - The browser accepting or refusing a write is a parameter.
- `BackendConfig.dfy` models `Settings.get_cors_origins`.
- `Text.dfy`, `Seqs.dfy` and `Wrappers.dfy` are shared helpers:
  - `Text.dfy`: ECMAScript `trim` and Python `strip`, decimal numerals, `padStart`, and
    `split`/`join` on one character.
  - `Seqs.dfy`: `filter`, first-occurrence deduplication, `slice(0, n)`.
  - `Wrappers.dfy`: `Option`.

The model takes these things as parameters:
- the clock (`Date.now()`, in milliseconds);
- the random part of generated ids;
- the start of the local day;
- whether the browser accepts a write.

Numbers are explicit:
- `Math.round(x / 1000)` and `Math.round(x / 60)` are `(x + 500) / 1000` and `(x + 30) / 60`.
- JavaScript truthiness is written out: an `endTime` of 0 is false, as is a label of `""`.
- `x % 0` in JavaScript is `NaN`, so `IsMultiple` is false when the divisor is 0.

## Model

| member | source | states |
|---|---|---|
| Timer.SessionDuration | frontend/src/composables/useTimer.ts:42-51 | full length of each session type in seconds, from the config minutes |
| Timer.RemainingAt | frontend/src/composables/useTimer.ts:66 | whole seconds left is 0 exactly when under half a second remains, otherwise within half a second of the true time |
| Timer.Initial | frontend/src/composables/useTimer.ts:32-37 | a new timer is stopped, has no end time, is in focus at full focus duration, and both counters are 0 |
| Timer.Stopped | frontend/src/composables/useTimer.ts:122-129 | `stop` clears the end time, stops the timer and changes nothing else |
| Timer.Started | frontend/src/composables/useTimer.ts:103-109 | `start` does nothing while running; otherwise it sets the end time to `now + remaining*1000`, keeps `isRunning` iff an end time is set, and touches no other ref |
| Timer.Paused | frontend/src/composables/useTimer.ts:111-120 | `pause` does nothing when stopped; otherwise it freezes `remaining` at the rounded seconds left (when the end time is truthy), stops, and keeps type and counters |
| Timer.Completed | frontend/src/composables/useTimer.ts:76-100 | focus adds exactly one pomodoro and goes to a long break iff the new count is a multiple of N, else a short break; a break adds exactly one break and goes to focus; the result is stopped at full duration |
| Timer.Ticked | frontend/src/composables/useTimer.ts:64-73 | without a truthy end time nothing changes; otherwise `remaining` is recomputed and the session completes, reporting its type, exactly when that is 0 |
| Timer.ResetState | frontend/src/composables/useTimer.ts:131-134 | stopped at the full duration of the same session type, counters unchanged |
| Timer.Skipped | frontend/src/composables/useTimer.ts:136-151 | stopped at full duration, counters unchanged, next type the same one completion would choose |
| Timer.WithSessionType | frontend/src/composables/useTimer.ts:153-157 | stopped, of the requested type, at its full duration, counters unchanged |
| Timer.Reconfigured | frontend/src/composables/useTimer.ts:160-164 | a config change leaves a running timer untouched and sets a stopped one to the new full duration; only `remaining` can change |
| Timer.SkipIsUncountedCompletion | frontend/src/composables/useTimer.ts:81-92 | skipping equals completing except that both counters keep their old values |
| Timer.SkipLongBreakBoundary | frontend/src/composables/useTimer.ts:141 | with N > 0, skip picks the long break iff the session is focus and the count is one short of a multiple of N |
| Timer.CountdownAfterWholeSeconds | frontend/src/composables/useTimer.ts:66 | k whole seconds after `start`, the timer reads exactly k seconds less, never below 0 |
| Timer.RemainingMonotone | frontend/src/composables/useTimer.ts:66 | as the clock advances, the remaining time never grows |
| Timer.PauseResume | frontend/src/composables/useTimer.ts:103-120 | pausing k seconds into a run leaves `remaining - k`, and resuming schedules the end that far ahead |
| Timer.TickAtEndCompletes | frontend/src/composables/useTimer.ts:64-71 | a tick at or after the end time completes the session |
| Timer.TwoDigits | frontend/src/composables/useTimer.ts:56 | `toString().padStart(2,'0')` is a decimal numeral of at least two digits that reads back as the number, exactly two below 100, and the plain numeral from 10 on |
| Timer.FormattedTime | frontend/src/composables/useTimer.ts:53-57 | `formattedTime` has ':' third from the end, is five characters below 6000 seconds, and from 10 minutes on starts with the unpadded minutes numeral (no leading '0'); with `ParseFormattedTime` this fixes the face for every input |
| Timer.ParseFormattedTime | frontend/src/composables/useTimer.ts:53-57 | parsing the clock face gives back the remaining seconds, so the face is injective |
| Timer.FormattedTimeShape | frontend/src/composables/useTimer.ts:53-57 | below 6000 seconds the face has five characters with ':' at index 2 |
| Timer.FormattedDefaultFocus | frontend/src/composables/useTimer.ts:53-57 | a default focus session shows "25:00" |
| Timer.Timer.constructor | frontend/src/composables/useTimer.ts:27-37 | the refs start as `Initial(config)` |
| Timer.Timer.Stop | frontend/src/composables/useTimer.ts:122-129 | the new refs are `Stopped` of the old |
| Timer.Timer.Start | frontend/src/composables/useTimer.ts:103-109 | the new refs are `Started` of the old; `isRunning` iff an end time is set is kept |
| Timer.Timer.Pause | frontend/src/composables/useTimer.ts:111-120 | the new refs are `Paused` of the old |
| Timer.Timer.CompleteSession | frontend/src/composables/useTimer.ts:76-100 | the new refs are `Completed` of the old, and the completed type is returned in place of the callback |
| Timer.Timer.Tick | frontend/src/composables/useTimer.ts:64-73 | refs and reported completion are `Ticked` of the old refs |
| Timer.Timer.Reset | frontend/src/composables/useTimer.ts:131-134 | the new refs are `ResetState` of the old |
| Timer.Timer.Skip | frontend/src/composables/useTimer.ts:136-151 | the new refs are `Skipped` of the old |
| Timer.Timer.SetSessionType | frontend/src/composables/useTimer.ts:153-157 | the new refs are `WithSessionType` of the old |
| Timer.Timer.SetConfig | frontend/src/composables/useTimer.ts:160-164 | the new refs are `Reconfigured` of the old under the new config |
| Kanban.IndexOfId | frontend/src/composables/useKanban.ts:64 | `find` by id: found iff some task has the id, and it is the first such task |
| Kanban.IndexInProgress | frontend/src/composables/useKanban.ts:69 | `find` by status: found iff some task is in progress, the only one under the invariant |
| Kanban.ActiveTask | frontend/src/composables/useKanban.ts:40-42 | `activeTask` is null iff no task is in progress, and otherwise an in-progress task of the board |
| Kanban.TodoTasks | frontend/src/composables/useKanban.ts:27-29 | `todoTasks` holds exactly the to-do tasks of the board, never more tasks than the board |
| Kanban.InProgressTasks | frontend/src/composables/useKanban.ts:31-33 | `inProgressTasks` holds exactly the in-progress tasks of the board |
| Kanban.DoneTasks | frontend/src/composables/useKanban.ts:35-37 | `doneTasks` holds exactly the done tasks of the board |
| Kanban.ViewsPartition | frontend/src/composables/useKanban.ts:27-37 | the three status views together hold every task exactly as often as the board does |
| Kanban.InProgressColumn | frontend/src/composables/useKanban.ts:31-42 | under the invariant the in-progress view holds at most one task, and one exactly when there is an active task |
| Kanban.FilterKeepsInvariant | frontend/src/composables/useKanban.ts:102-104 | removing tasks keeps ids distinct and at most one task in progress |
| Kanban.Moved | frontend/src/composables/useKanban.ts:67-82 | the board after `moveTask`: same length and ids; the target keeps everything but its status, which becomes the new one, and its completion time, which becomes `now` when done and is cleared otherwise; any other task that differs was in progress and is now to-do, and only when the target went to in progress |
| Kanban.MovedKeepsInvariant | frontend/src/composables/useKanban.ts:67-75 | after a move, ids are unchanged and at most one task is in progress, the moved one when it went to in progress |
| Kanban.Board.constructor | frontend/src/composables/useKanban.ts:19-21 | the default board is empty |
| Kanban.Board.AddTask | frontend/src/composables/useKanban.ts:48-60 | a title that trims to empty changes nothing; otherwise one to-do task with the trimmed title, 0 pomodoros and no completion time is appended; the invariant is kept |
| Kanban.Board.MoveTask | frontend/src/composables/useKanban.ts:63-83 | unknown id: nothing changes; otherwise the first task with the id takes the new status, with a completion time iff done; another in-progress task is demoted when moving to in progress; order and all other tasks are kept; the invariant is kept |
| Kanban.Board.DeleteTask | frontend/src/composables/useKanban.ts:86-91 | removes the first task with the id, keeping the rest in order; unknown id changes nothing; the invariant is kept |
| Kanban.Board.IncrementActiveTaskPomodoros | frontend/src/composables/useKanban.ts:94-99 | exactly one more pomodoro on the in-progress task, nothing else changes; no-op without one |
| Kanban.Board.ClearDoneTasks | frontend/src/composables/useKanban.ts:102-104 | keeps exactly the tasks not done, in order, and the invariant |
| Kanban.Board.ClearAllTasks | frontend/src/composables/useKanban.ts:107-109 | empties the board |
| SessionHistory.RecordSession | frontend/src/composables/useSessionHistory.ts:66-88 | the new entry has the trimmed label, given type, duration and start, and is placed at index 0; the old entries follow in order; the length is min(old + 1, 100); `lastCleared` is kept |
| SessionHistory.RecordKeepsBound | frontend/src/composables/useSessionHistory.ts:19 | recording never takes the log past `MAX_ENTRIES`, and entry k moves to k + 1 |
| SessionHistory.ClearHistory | frontend/src/composables/useSessionHistory.ts:91-96 | entries become empty and `lastCleared` becomes now |
| SessionHistory.ClearedHistoryIsEmpty | frontend/src/composables/useSessionHistory.ts:91-107 | a cleared log has no entries today and no label presets |
| SessionHistory.TodayEntries | frontend/src/composables/useSessionHistory.ts:29-37 | `todayEntries` holds exactly the logged entries completed at or after the start of the day |
| SessionHistory.TodayEntriesExact | frontend/src/composables/useSessionHistory.ts:29-37 | an entry is among today's iff it is logged and completed at or after the start of the day; the filter keeps order across concatenation |
| SessionHistory.LabelOf | frontend/src/composables/useSessionHistory.ts:50 | `label \|\| 'Unlabeled'` is the label itself when non-empty, and "Unlabeled" for an empty label |
| SessionHistory.UnlabeledCount | frontend/src/composables/useSessionHistory.ts:48-52 | the count under "Unlabeled" is the number of sessions whose label is empty or is "Unlabeled" itself: the map merges the two |
| SessionHistory.RoundedMinutes | frontend/src/composables/useSessionHistory.ts:57 | `Math.round(s / 60)` is within half a minute of the true value |
| SessionHistory.BreakdownProperties | frontend/src/composables/useSessionHistory.ts:58-61 | the label breakdown names each label once, never the empty label, with positive counts that add up to the number of focus sessions |
| SessionHistory.CountedIsLabelMap | frontend/src/composables/useSessionHistory.ts:48-52 | counting labels one at a time into a `Map` yields the distinct labels in first-seen order, each with its number of occurrences |
| SessionHistory.CountLabels | frontend/src/composables/useSessionHistory.ts:48-52 | the loop's map, listed in insertion order, is the breakdown of the labels |
| SessionHistory.TodayStats | frontend/src/composables/useSessionHistory.ts:40-63 | focus count is the focus entries of today; focus + break count is today's entries; minutes are the rounded focus seconds; the breakdown's counts add up to the focus count |
| SessionHistory.PresetLabelsFromEntries | frontend/src/composables/useSessionHistory.ts:102-103 | every preset label is non-blank and carried by some entry |
| SessionHistory.RecentLabels | frontend/src/composables/useSessionHistory.ts:99-107 | the first ten distinct non-blank labels in first-seen order: at most ten, distinct, each a non-blank label of an entry |
| Storage.StorageKey | frontend/src/composables/useStorage.ts:3-11 | every key carries the `pomotrack-` prefix followed by the caller's key |
| Storage.StorageKeyInjective | frontend/src/composables/useStorage.ts:11 | two keys share a storage slot iff they are equal |
| Storage.GetStorageValue | frontend/src/composables/useStorage.ts:64-77 | the default when the prefixed key is absent or its text does not decode, else the decoded value |
| Storage.Written | frontend/src/composables/useStorage.ts:82-89 | an accepted write stores the encoding under the prefixed key only; a refused one changes nothing |
| Storage.Cleared | frontend/src/composables/useStorage.ts:48-59 | exactly the keys without the prefix remain, with their values |
| Storage.SetThenGet | frontend/src/composables/useStorage.ts:64-89 | with a codec that round-trips, reading after a write gives the written value |
| Storage.FailedWriteKeepsValues | frontend/src/composables/useStorage.ts:84-88 | a refused write changes no value that can be read |
| Storage.WriteIsolated | frontend/src/composables/useStorage.ts:82-89 | writing one key leaves every other key reading as before |
| Storage.ClearIdempotent | frontend/src/composables/useStorage.ts:48-59 | clearing twice is clearing once |
| Storage.GetAfterClear | frontend/src/composables/useStorage.ts:48-77 | after clearing, every key reads as its default |
| Storage.LocalStorage.SetStorageValue | frontend/src/composables/useStorage.ts:82-89 | the store becomes `Written` of the old store |
| Storage.LocalStorage.ClearAllStorage | frontend/src/composables/useStorage.ts:48-59 | whatever order the keys are visited in, the store becomes `Cleared` of the old store |
| Storage.StoredRef.UseStorage | frontend/src/composables/useStorage.ts:10-26 | the ref starts from the stored value by the same rule as `getStorageValue` |
| Storage.StoredRef.Assign | frontend/src/composables/useStorage.ts:29-40 | the ref takes the new value, and the watcher writes it like `setStorageValue`, swallowing a refusal |
| BackendConfig.GetCorsOrigins | backend/app/config.py:18-29 | the four defaults come first, in order, and the stripped extras follow; empty `cors_origins` gives the four defaults |
| BackendConfig.DefaultOrigins | backend/app/config.py:20-25 | four origins: `localhost` and `127.0.0.1` on the backend's own port, then both on the Vite port 5173 |
| BackendConfig.DefaultSettingsOrigins | backend/app/config.py:10-25 | with default settings the origins are the two on port 7070 and the two on 5173 |
| BackendConfig.ExtraOrigins | backend/app/config.py:26-27 | the extras from `cors_origins.split(",")`: at most one per piece, each the `strip()` of some piece, non-empty, already stripped and free of commas |
| BackendConfig.StrippedNonBlank | backend/app/config.py:27 | the comprehension `[o.strip() for o in pieces if o.strip()]`: never longer than its input, and each result is the non-empty stripped text of one of the pieces |
| BackendConfig.StrippedSingle | backend/app/config.py:27 | one piece yields its stripped text, or nothing when that is empty |
| BackendConfig.StrippedWellFormed | backend/app/config.py:27 | each kept piece is non-empty and stripping it again changes nothing |
| BackendConfig.StrippedAppend | backend/app/config.py:27 | the comprehension keeps the pieces in order, so it distributes over concatenation |
| BackendConfig.StrippedCount | backend/app/config.py:27 | one extra origin per non-blank piece |
| BackendConfig.CorsOriginsCount | backend/app/config.py:26-28 | the length is 4 plus the number of non-blank comma-separated pieces |
| BackendConfig.ExtraOriginsConcat | backend/app/config.py:27-28 | origins listed in two comma-joined strings are the extras of each, in input order |

## Left out

- Vue reactivity (`ref`, `computed`, `watch`, `onUnmounted`) is not modelled. Each watcher becomes an explicit method (`Timer.Timer.SetConfig`, `Storage.StoredRef.Assign`).
- The 250 ms `setInterval`, `intervalId` and `clearInterval` are not modelled. The caller calls `Timer.Timer.Tick(now)`.
- `progress` in `useTimer` is left out: it is floating-point division, and it divides by zero when a duration is 0.
- The `onSessionComplete` callback is not modelled. `Tick` and `CompleteSession` return the completed session type instead.
- `Date.now()`, `Math.random()` ids and the local-midnight computation are parameters. The id strings are not built.
- Kanban.Board.AddTask: requires an id that no task on the board has. The source draws a random id, so a duplicate id has negligible odds.
- Both Kanban's and the session history's persistence through `useStorage` are not modelled. Storage is modelled on its own in `Storage.dfy`.
- Storage.LocalStorage.ClearAllStorage: the browser's `key(i)` enumeration order is any order, chosen by `:|`.
- `JSON.stringify` and `JSON.parse` are an abstract `Codec`.
- A `JSON.parse` exception is `decode` returning `None`.
- A refused `setItem` is the `accepted` parameter. The `console.warn` it triggers is not modelled.
- Timer.Config: durations and `pomodorosUntilLongBreak` are natural numbers, while the source takes any JavaScript number. Negative or fractional durations are not modelled. A negative or fractional long-break count is not modelled either: under JavaScript `%`, a count of -4 behaves like 4, and 2.5 gives a long break after 5 pomodoros.
- The whitespace sets of ECMAScript `trim` and Python `str.strip` are the explicit character lists in `Text.dfy`.
- Reading `Settings` from `POMOTRACK_` environment variables is not modelled. A `Settings` value is a parameter.
- `log_level` is carried but unused, as in the source.
- The test suites expect some features the source does not implement: debounced writes, a versioned storage envelope, `exportAllData`, `urgencyLevel`, auto-start and a history cap of 500. These are not modelled.
- SessionHistory.Entry: the source's `label` field is named `labelText`, because `label` is reserved in Dafny.
- SessionHistory.CountLabels: loops over the list of labels that have already been computed (`label || 'Unlabeled'`), not over the entries.
- The other composables and the back-end routes are not part of this model.
