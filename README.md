# Stopwatch timing engine, modelled in Dafny

This project models the logic of a browser stopwatch component (`src/App.jsx`).
It covers two parts:

- **The timing and lap-accounting engine** (module `Stopwatch`, file `stopwatch.dfy`).
  The state is the elapsed time `time` in milliseconds, the running flag `isActive` and the lap history `laps`.
  The history is stored newest-first, because the source prepends every new lap.
  A `Session` class holds these three fields. It has one method per command: `HandleStartStop`, `HandleReset`, `HandleLap` and `HandleCompleteLap`.
  An `Advance(d)` step stands for the interval callback. That callback only runs while the session is active.
  Each lap is `Lap(lap, duration, totalTime)`. A new lap gets number `|laps| + 1`, duration `time − Σ durations` and total `time` (`NewLap`).
  The class invariant is `WellFormed(time, laps)`. It says four things:
  - lap numbers run `|laps|` down to 1 in stored order;
  - durations are non-negative;
  - the durations of a lap and of all older laps add up to that lap's `totalTime`;
  - no lap total exceeds `time`.

  The constructor establishes the invariant and every method keeps it, so it holds after any sequence of commands and clock steps.
  The derived values are functions of a snapshot of the state: `CurrentLapTime`, `AverageSoFar` and `OverallAverage` (over `real`).
  The min/max scan is the loop method `MinMaxLap`.
- **The display formatter** (module `TimeFormat`, file `time_format.dfy`).
  `FormatTime(ms)` renders `MM:SS.CC` through the UTC getters of a `Date`:
  - minutes are `(ms div 60000) mod 60`, so they wrap every hour;
  - seconds are `(ms div 1000) mod 60`;
  - centiseconds are `(ms mod 1000) div 10`;
  - each field goes through `toString().padStart(2, "0")`.

  A time beyond the largest valid `Date` (8.64·10^15 ms) gives an invalid date. Each getter then yields `NaN`, and the result is `"NaN:NaN.NaN"`.
  `ParseClock` reads a display back. It is the inverse used to prove what the display determines.

`optional.dfy` holds the `Option` type that stands for the source's `null`.
`scenarios.dfy` holds verified client scenarios of the engine, whose assertions follow from the contracts alone (`LapThenComplete`, `TieBreak`).

Two behaviours of the code are easy to misread:

- **Min/max tie-break.** The scan runs over the newest-first list with strict `<` and `>`. A tie therefore goes to the **most recently recorded** of the tied laps, where a reader might expect the first-recorded one.
  Take laps 1, 2 and 3 of 500, 500 and 900 ms. The code gives `minLap == 2` (`StopwatchScenarios.TieBreak`).
- **Complete lap while paused.** `handleCompleteLap` guards on `isActive || time > 0`. Calling it twice while paused therefore records a second lap of duration 0 (`CurrentLapTimeAfterLap`, `LapThenComplete`).

## Model

| member | source | states |
|---|---|---|
| `Stopwatch.Session.constructor` | src/App.jsx:25-27 | The session starts with time 0, not running, no laps, and satisfies the invariant |
| `Stopwatch.Session.HandleStartStop` | src/App.jsx:44-46 | Flips `isActive`; `time` and `laps` are unchanged; the invariant is kept |
| `Stopwatch.Session.HandleReset` | src/App.jsx:48-52 | From any state, the result is `(0, false, [])`, which satisfies the invariant |
| `Stopwatch.Session.HandleLap` | src/App.jsx:54-70 | While running, it prepends `NewLap(time, laps)`: number `\|laps\|+1`, duration `time − Σ durations`, total `time`. The older laps, `time` and `isActive` are unchanged. While paused nothing changes. The invariant is kept |
| `Stopwatch.Session.HandleCompleteLap` | src/App.jsx:72-89 | When `isActive \|\| time > 0`, it prepends the same lap record and stops the clock. Otherwise nothing changes. `time` is never changed and the invariant is kept |
| `Stopwatch.Session.Advance` | src/App.jsx:32-42 | Allowed only while running. It adds the elapsed step `d` to `time` and keeps `isActive`, the laps and the invariant |
| `Stopwatch.SumDurations` | src/App.jsx:57-60 | The `reduce` over the lap durations is 0 with no laps, and non-negative when every duration is |
| `Stopwatch.NewLap` | src/App.jsx:63-67 | The new lap has number `\|laps\|+1` and total `time`, and its duration added to the recorded durations gives `time` |
| `Stopwatch.NewLapKeepsWellFormed` | src/App.jsx:56-68 | Prepending the new lap keeps dense numbering, non-negative durations, suffix sums equal to totals, and totals ≤ time |
| `Stopwatch.NewLapClosesPartition` | src/App.jsx:56-66 | Under the invariant, the new lap's duration is ≥ 0 and after it the durations add up exactly to `time` |
| `Stopwatch.SumIsNewestTotal` | src/App.jsx:57-61 | Under the invariant, the sum of durations equals the newest lap's total and lies between 0 and `time` |
| `Stopwatch.TotalsNonIncreasing` | src/App.jsx:63-68 | Under the invariant, totals never increase along the stored newest-first order, so they never decrease in recording order |
| `Stopwatch.CurrentLapTime` | src/App.jsx:91-100 | The current lap time is `time − Σ durations` in both branches; with no laps that is `time` |
| `Stopwatch.CurrentLapTimeSinceNewest` | src/App.jsx:91-100 | Under the invariant, the current lap time is between 0 and `time`, and equals `time` minus the newest lap's total |
| `Stopwatch.CurrentLapTimeAfterLap` | src/App.jsx:72-100 | Right after a lap is recorded, the current lap time is 0. A second lap at the same time has duration 0 |
| `Stopwatch.AverageSoFar` | src/App.jsx:104-116 | 0 with no laps; otherwise `avg · \|laps\| == Σ durations` |
| `Stopwatch.OverallAverage` | src/App.jsx:103-127 | With no laps and paused it is 0. While running, `avg · (\|laps\|+1) == time`, which is `time` itself when there are no laps. Paused with laps, it equals `AverageSoFar` |
| `Stopwatch.OverallAverageCountsCurrentLap` | src/App.jsx:118-121 | While running, the overall average is the mean over the recorded laps plus the lap in progress |
| `Stopwatch.AverageSoFarOfPartition` | src/App.jsx:111-116 | Under the invariant, `AverageSoFar · \|laps\| ==` the newest total, and the average lies between 0 and `time` |
| `Stopwatch.MinMaxLap` | src/App.jsx:185-194 | Both results are null exactly when there are fewer than 2 laps. Otherwise `minLap` is the number of a shortest lap with every earlier-stored lap strictly longer, i.e. a tie goes to the most recent lap. `maxLap` is the same for a longest lap |
| `StopwatchScenarios.AverageExample` | src/App.jsx:103-127 | Laps of 1000, 2000 and 3000 ms average 2000. Running at 9000 ms, the overall average is 2250 |
| `TimeFormat.DecimalString` | src/App.jsx:15-18 | For integers below 10^21, `toString()` is a non-empty string of digits that denotes the integer, with no leading zero. It has one digit exactly when the number is below 10 |
| `TimeFormat.PadStart2` | src/App.jsx:15-19 | `padStart(2, "0")` keeps strings of length ≥ 2, and left-pads shorter ones with `'0'` characters to length 2 |
| `TimeFormat.UtcMinutes` | src/App.jsx:15 | `getUTCMinutes()` is below 60 and counts the whole minutes within the current hour |
| `TimeFormat.UtcSeconds` | src/App.jsx:16 | `getUTCSeconds()` is below 60 and counts the whole seconds within the current minute |
| `TimeFormat.UtcMilliseconds` | src/App.jsx:17 | `getUTCMilliseconds()` is below 1000 and leaves a whole number of seconds |
| `TimeFormat.Centiseconds` | src/App.jsx:17-19 | `Math.floor(getUTCMilliseconds() / 10)` is below 100 and counts the whole tens of milliseconds |
| `TimeFormat.Pad2` | src/App.jsx:15-19 | A field's `toString()` padded by `padStart(2, "0")` is at least two digits and still denotes the field's value. A field below 100 becomes exactly its two decimal digits |
| `TimeFormat.Pad2TwoDigits` | src/App.jsx:15-19 | A field below 100 is rendered as exactly its two decimal digits |
| `TimeFormat.FormatTime` | src/App.jsx:13-21 | A valid time gives the 8 characters `MM:SS.CC`: the two decimal digits of the UTC minutes, `':'`, those of the seconds, `'.'`, those of the centiseconds. An invalid date gives `"NaN:NaN.NaN"` |
| `TimeFormat.FieldsOfHourCentis` | src/App.jsx:14-17 | Minutes, seconds and centiseconds are the mixed-radix digits of `(ms mod 3600000) div 10` |
| `TimeFormat.ParseFormatRoundTrip` | src/App.jsx:13-21 | Parsing the output of `FormatTime` gives back the centiseconds within the hour |
| `TimeFormat.FormatTimeSameDisplay` | src/App.jsx:13-21 | Two valid times display the same text if and only if they agree on `(ms mod 3600000) div 10` |
| `TimeFormat.FormatTimeWrapsHourly` | src/App.jsx:14-15 | One hour later, the same text is displayed |
| `TimeFormat.FormatTimeExample` | src/App.jsx:13-21 | `FormatTime(65432) == "01:05.43"` |
| `TimeFormat.FormatTimeZeroAndOneHour` | src/App.jsx:13-21 | `FormatTime(0) == FormatTime(3600000) == "00:00.00"` |

## Left out

- Rendering: JSX, CSS classes, icons and the buttons' `disabled` attributes (src/App.jsx:196-366). These are presentation. The model keeps the handlers' own guards, so a handler invoked while its button would be disabled behaves as modelled.
- Timers: `setInterval`, `clearInterval`, `Date.now` and the effect lifecycle (src/App.jsx:32-42). These are wall-clock I/O and scheduling.
  `Advance(d)` stands for one tick. `d` is the amount the tick adds to `time`: the clock reading minus the reference start, minus the old `time`.
  Two effects are outside the model:
  - the wall clock going backwards, which in the source would make `time` decrease;
  - the wall-clock time between a tick and the effect re-basing `startTimeRef` on the new `time`.
- React state batching and stale closures. Each handler is one atomic step on the current state.
- CSV export (src/App.jsx:129-182). It is Blob, object URL and DOM I/O, plus JavaScript number-to-string and ISO-date formatting.
- Stopwatch.AverageSoFar: exact `real` arithmetic, not IEEE-754 division.
- Stopwatch.OverallAverage: exact `real` arithmetic, not IEEE-754 division.
- Stopwatch.SumDurations: exact integer addition. The source adds JavaScript numbers, which are exact only up to 2^53 ms.
- TimeFormat.DecimalString: models `toString()` as plain decimal digits. From 10^21 on, JavaScript switches to exponent notation (`"1e+21"`), which is not modelled. The formatter only renders fields below 100.
- TimeFormat.FormatTime: takes non-negative integer milliseconds only. The source also formats the fractional averages, where `Date` first truncates the value, and it would format negative values as times before 1970.
