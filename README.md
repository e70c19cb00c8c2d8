# Timer-countdown in Dafny

This project models the logic of a browser timer application. It has two widgets:

- a **stopwatch** that counts elapsed time up in 10 ms steps (`src/components/Timer.tsx`);
- a **countdown** with an adjustable duration (`src/components/Countdown.tsx`), whose duration is set through a
  **duration editor**. The editor has a minutes field, a seconds field and a slider (`src/components/InputTimeControl.tsx`).

Module layout:

- `Intervals`: the runtime's interval timers. `Option`, the `Handle` that `setInterval` returns, and `Cancel` for
  `clearInterval`.
- `Clock`: the building blocks of the displays. `Decimal` and `IntString` model JavaScript's `String(n)`, `PadStart2`
  models `padStart(2, '0')`, and `JsRem` models the truncating `%`. `Value` reads a digit string back. `Shows2` and
  `Shows3` say which numbers a display shows, so that each display can be proved to read back as what it shows.
- `DurationEditor`: the editor as pure functions from the current total and the parsed entry to the emitted total.
  The lemmas state what every edit keeps and what it changes.
- `CountdownEngine` and `StopwatchEngine`: each engine's state as a datatype, with one step function per handler and
  `Run` over a trace of user and timer events. The lemmas about single steps and whole traces live here. Each module
  also has a class (`Countdown`, `Stopwatch`) whose fields are the component's state. Every handler method of the
  class is proved to perform exactly its step function: `Snapshot() == Configure(old(Snapshot()), seconds)` for
  `HandleTimeChange`, and likewise `Start`, `Tick`, `Pause` and `Reset` for the other handlers. Finally, a client method drives
  a freshly mounted component through its ticks.

The runtime's timer is modelled explicitly. The field `scheduled` is the interval the runtime still fires. It is
separate from `intervalId`, which is the handle the component has stored. A tick (`OnTick`) can only be called while
an interval is scheduled. In a trace, a firing after cancellation changes nothing (`IdleIgnoresTicks`). The
completion sound is counted in the field `cues`. Both `scheduled` and `cues` are ghost fields: they record what the
runtime and the audio do, not state the component keeps. New handles come from `nextHandle`, which stands for the
runtime's supply of fresh identifiers; it stays a compiled field because the compiled `intervalId` is drawn from it.

The model follows the code as written. Four places where the code does less than its surroundings suggest:

- The minutes field declares `inputProps={{ min: 0, max: 720 }}` (`InputTimeControl.tsx:51`), and the seconds
  handler clamps with `Math.max(0, Math.min(59, …))` (`InputTimeControl.tsx:27`). The minutes handler, however, clamps
  only from above (`InputTimeControl.tsx:21`, see Findings), and `min: 0` does not stop a typed "-1". Negative totals
  can therefore reach the countdown. On a negative total that is not a whole number of
  minutes, the floored minutes and the truncated seconds do not recombine (`SplitOfNegativeTotal`), and a later
  minutes entry of at least 1 does not keep the seconds (`MinutesEditOnNegativeTotal`: -1 minutes on 30 s gives -30 s,
  and 2 minutes on that gives 90 s, whose minutes are 1). On any negative total, a seconds entry of at least 1 does not
  read back as entered (`SecondsEditOnNegativeTotal`: 10 seconds on -30 s gives -50 s, which splits into -1 minutes
  and -50 seconds). With the lower clamp, the minutes entries -1 and then 2 on 30 s give 30 s and then 150 s, i.e. 2 minutes 30 seconds
  (`MinutesEditClampedExample`). The display shows `-5:-55` for -295 s (`FormatMmSsNegative`).
- The start button is `disabled={totalTime === 0}` (`Countdown.tsx:151`), so a zero duration is a state the component
  expects. The progress quotient at `Countdown.tsx:52` is nevertheless computed without a zero check, and the label
  then shows "NaN%" (see Findings).
- The duration editor is `disabled={isRunning}` (`Countdown.tsx:120`), which keeps the user from changing the
  duration while the countdown runs. `handleTimeChange` itself does not check `isRunning`. Called while running, a
  new duration takes effect at once, and the running interval goes on counting it down (`ConfigureIgnoresRunState`,
  `CountdownFromConfigure`, which holds from running states too).
- When the countdown completes, the callback cancels its own interval but leaves `intervalId` set. The idle engine
  then holds a stale handle (`TickCountsDown`: `intervalId.Some?` with nothing scheduled). This is harmless:
  `pauseTimer` ignores an idle engine, `resetTimer` cancels the stale handle (a no-op, `CancelUnscheduled`) and drops
  it, and `startTimer` replaces it with a fresh one (`StartIsGuarded`).

## Model

| member | source | states |
|---|---|---|
| Intervals.Cancel | src/components/Countdown.tsx:85 | after clearInterval(h) the interval named h is not scheduled, and no interval is ever started by it: the result is nothing or the interval scheduled before |
| Intervals.CancelUnscheduled | src/components/Countdown.tsx:91-93 | clearInterval on a handle that names no scheduled interval, such as the stale handle left after completion, changes nothing |
| Intervals.CancelIdempotent | src/components/Countdown.tsx:91-93 | cancelling an already cancelled handle is a no-op |
| Clock.Decimal | src/components/Countdown.tsx:108 | String(n) gives at least one character, all digits, with a leading '0' only for n = 0; the rendering has one character below 10 and at most two below 100 |
| Clock.ValueOfDecimal | src/components/Countdown.tsx:108 | reading the decimal rendering of n gives n back |
| Clock.PadStart2 | src/components/Countdown.tsx:108 | padStart(2, '0') gives a string of length max(2, length of s) that ends with s, and everything before s is '0' |
| Clock.IntString | src/components/Countdown.tsx:108 | definition of String(i) for an integer: a minus sign before `Decimal` of a negative number; its properties are in `PaddedValue` and `FormatMmSsNegative` |
| Clock.PaddedValue | src/components/Countdown.tsx:108 | a padded rendering of n is all digits, reads back as n, and is exactly two characters iff n < 100 |
| Clock.Join2 | src/components/Countdown.tsx:108 | definition of the two-field template `${String(a).padStart(2, '0')}:${String(b).padStart(2, '0')}`; its properties are in `Join2ReadsBack` |
| Clock.Join3 | src/components/Timer.tsx:63 | definition of the three-field template; its properties are in `Join3ReadsBack` |
| Clock.Join2ReadsBack | src/components/Countdown.tsx:108 | two padded fields a ≥ 0 and 0 ≤ b < 100 joined by ':' show a before the colon and b in the last two digits; the result is at least 5 characters, exactly 5 iff a < 100 |
| Clock.Join3ReadsBack | src/components/Timer.tsx:63 | three padded fields, the last two below 100, joined by ':' show a, b and c in their three digit groups; the result is at least 8 characters |
| Clock.JsRem | src/components/Countdown.tsx:107 | JavaScript's `%` has the sign of the dividend, magnitude below the divisor, and dividend = truncated quotient · divisor + remainder |
| DurationEditor.MinutesOf | src/components/InputTimeControl.tsx:17 | definition of Math.floor(totalSeconds / 60); its properties are in `SplitRecombines` and `SplitOfNegativeTotal` |
| DurationEditor.SecondsOf | src/components/InputTimeControl.tsx:18 | the derived seconds lie in [-59, 59] |
| DurationEditor.SplitRecombines | src/components/InputTimeControl.tsx:17-18 | for total ≥ 0: minutes ≥ 0, 0 ≤ seconds ≤ 59, minutes·60 + seconds = total |
| DurationEditor.SplitOfNegativeTotal | src/components/InputTimeControl.tsx:17-18 | for a negative total that is not a whole number of minutes, the seconds are negative and minutes·60 + seconds = total − 60 |
| DurationEditor.MinutesEdit | src/components/InputTimeControl.tsx:20-23 | definition of handleMinutesChange: min(720, v) minutes plus the current seconds; its properties are in `MinutesEditKeepsSeconds`, `MinutesEditAcceptsNegative` and `MinutesEditOnNegativeTotal` |
| DurationEditor.MinutesEditKeepsSeconds | src/components/InputTimeControl.tsx:21-23 | for total ≥ 0 and v ≥ 0 the emitted total is in [0, 720·60+59], its minutes are min(720, v) and its seconds are the old seconds |
| DurationEditor.MinutesEditAcceptsNegative | src/components/InputTimeControl.tsx:21-23 | for every current total, a negative entry v emits v·60 + the current seconds, which is negative |
| DurationEditor.MinutesEditOnNegativeTotal | src/components/InputTimeControl.tsx:21-23 | on a negative total that is not a whole number of minutes, an entry v ≥ 1 loses a minute and raises the seconds by 60, so the seconds are not kept |
| DurationEditor.MinutesEditOnNegativeTotalExample | src/components/InputTimeControl.tsx:21-23 | -1 minutes entered on 30 s emit -30 s; 2 minutes entered on -30 s then emit 90 s, i.e. 1 minute 30 seconds |
| DurationEditor.MinutesEditNegativeExample | src/components/InputTimeControl.tsx:21 | entering -1 minutes on a zero total emits -60 |
| DurationEditor.Clamp | src/components/InputTimeControl.tsx:27 | Math.max(lo, Math.min(hi, v)) lies in [lo, hi], equals v inside the range and the nearer bound outside it |
| DurationEditor.MinutesEditClamped | src/components/InputTimeControl.tsx:20-23 | definition of the corrected minutes handler: the entry clamped to [0, 720] minutes plus the current seconds; its properties are in `MinutesEditClampedInRange` and `MinutesEditClampedExample` |
| DurationEditor.MinutesEditClampedInRange | src/components/InputTimeControl.tsx:21-23 | with the lower clamp, every edit of a total ≥ 0 emits a total in [0, 720·60+59] with clamped minutes and unchanged seconds; it agrees with the code for v ≥ 0 |
| DurationEditor.MinutesEditClampedExample | src/components/InputTimeControl.tsx:21-23 | with the lower clamp, -1 minutes on 30 s keeps 30 s, and 2 minutes on that give 150 s, whose minutes are the 2 entered |
| DurationEditor.SecondsEdit | src/components/InputTimeControl.tsx:26-30 | definition of handleSecondsChange: the current minutes plus the entry clamped to [0, 59]; its properties are in `SecondsEditKeepsMinutes` |
| DurationEditor.SecondsEditKeepsMinutes | src/components/InputTimeControl.tsx:26-30 | for every total the emitted total keeps the (floored) minutes and has clamp(v, 0, 59) as its Euclidean remainder modulo 60; when the total is ≥ 0, the emitted total is ≥ 0 and its seconds are clamp(v, 0, 59) |
| DurationEditor.SecondsEditOnNegativeTotal | src/components/InputTimeControl.tsx:26-30 | on a negative total, an entry v ≥ 1 emits a negative total with the same minutes whose seconds read back as clamp(v, 0, 59) − 60, not as the entry |
| DurationEditor.SecondsEditOnNegativeTotalExample | src/components/InputTimeControl.tsx:26-30 | 10 seconds entered on -30 s emit -50 s, which splits into -1 minutes and -50 seconds |
| DurationEditor.Round | src/components/InputTimeControl.tsx:34 | definition of Math.round as the floor of x + 0.5; its behaviour on the slider is in `SliderIsIntegerRounding` |
| DurationEditor.SliderEdit | src/components/InputTimeControl.tsx:33-36 | definition of handleSliderChange: Math.round(v / 15) · 15; its properties are in `SliderSnaps`, `SliderIsNearest`, `SliderStaysInRange` and `SliderIdempotent` |
| DurationEditor.SliderIsIntegerRounding | src/components/InputTimeControl.tsx:34 | Math.round(v/15)·15 equals ((2v+15) div 30)·15 on integers |
| DurationEditor.SliderSnaps | src/components/InputTimeControl.tsx:34 | the slider emits a multiple of 15 within 7 of v |
| DurationEditor.SliderIsNearest | src/components/InputTimeControl.tsx:34 | no multiple of 15 is nearer to v than the emitted value |
| DurationEditor.SliderStaysInRange | src/components/InputTimeControl.tsx:70-72 | entries in [0, 3600] emit totals in [0, 3600] |
| DurationEditor.SliderIdempotent | src/components/InputTimeControl.tsx:34 | a multiple of 15 is emitted unchanged, so rounding twice equals rounding once |
| DurationEditor.EditsKeepDurationNonNegative | src/components/InputTimeControl.tsx:17-36 | from a total ≥ 0, the seconds edit, the clamped minutes edit, a non-negative minutes entry and an in-range slider entry all emit totals ≥ 0 |
| CountdownEngine.Elapsed | src/components/Countdown.tsx:52 | the elapsed amount totalTime − timeLeft lies in [0, totalTime] whenever 0 ≤ timeLeft ≤ totalTime |
| CountdownEngine.Configure | src/components/Countdown.tsx:58-61 | definition of handleTimeChange on the state; its properties are in `ConfigureIgnoresRunState` |
| CountdownEngine.Start | src/components/Countdown.tsx:63-80 | definition of startTimer on the state; its properties are in `StartIsGuarded` |
| CountdownEngine.Tick | src/components/Countdown.tsx:66-76 | definition of the interval callback on the state; its properties are in `TickCountsDown` and `TicksCountDown` |
| CountdownEngine.Pause | src/components/Countdown.tsx:82-88 | definition of pauseTimer on the state; its properties are in `PauseSpec` |
| CountdownEngine.Reset | src/components/Countdown.tsx:90-97 | definition of resetTimer on the state; its properties are in `ResetSpec` |
| CountdownEngine.ConfigureIgnoresRunState | src/components/Countdown.tsx:58-61 | configure sets totalTime and timeLeft to the value and leaves the run state, handles and cues alone; it keeps the invariant, and the bounds when the value is ≥ 0 |
| CountdownEngine.StartIsGuarded | src/components/Countdown.tsx:63-80 | start is a no-op when running or when timeLeft ≤ 0; otherwise it runs, schedules and stores the fresh handle `nextHandle`, which differs from the handle stored before, and leaves timeLeft and totalTime unchanged |
| CountdownEngine.TickCountsDown | src/components/Countdown.tsx:67-75 | a tick above 1 takes off exactly one second and keeps running; at 1 or below it sets 0, stops, cancels the interval, plays the cue once and keeps the stale intervalId |
| CountdownEngine.PauseSpec | src/components/Countdown.tsx:82-88 | pause does nothing when idle; otherwise it cancels and drops the handle and stops, with timeLeft and totalTime kept; pausing twice equals pausing once |
| CountdownEngine.ResetSpec | src/components/Countdown.tsx:90-97 | reset leaves timeLeft = totalTime, idle, nothing scheduled, no handle, totalTime unchanged; it is idempotent |
| CountdownEngine.CleanupAfterStepIsNoOp | src/components/Countdown.tsx:99-103 | whenever a step changes the stored handle, the effect's clearInterval of the previous handle changes nothing, because that handle names no interval still scheduled |
| CountdownEngine.RunKeepsInvariants | src/components/Countdown.tsx:51-97 | every trace keeps the handle invariant; if only durations ≥ 0 are configured, 0 ≤ timeLeft ≤ totalTime and the elapsed amount lies in [0, totalTime] |
| CountdownEngine.IdleIgnoresTicks | src/components/Countdown.tsx:69 | with nothing scheduled, any number of firings changes nothing |
| CountdownEngine.TicksCountDown | src/components/Countdown.tsx:66-76 | from running with m > 0 seconds left: k < m ticks leave m − k and running; k ≥ m ticks leave 0, idle, nothing scheduled, and the cue played exactly once |
| CountdownEngine.CountdownFromConfigure | src/components/Countdown.tsx:58-80 | configure(n > 0), start and k ticks: n − k left and running for k < n; 0 left, idle and one cue for k ≥ n |
| CountdownEngine.FormatMmSs | src/components/Countdown.tsx:105-109 | definition of formattedTime: Math.floor(t / 60) and t % 60, padded and joined; its properties are in `FormatMmSsReadsBack`, `FormatMmSsExamples` and `FormatMmSsNegative` |
| CountdownEngine.FormatMmSsReadsBack | src/components/Countdown.tsx:105-109 | for t ≥ 0 the display is digits ':' two digits that read back as t div 60 and t mod 60, and the count it stands for (`SecondsShown`) is t; it is 5 characters iff t < 6000 |
| CountdownEngine.FormatMmSsExamples | src/components/Countdown.tsx:105-109 | 65 shows "01:05", 60 shows "01:00", 0 shows "00:00" |
| CountdownEngine.FormatMmSsNegative | src/components/Countdown.tsx:106-108 | -295 shows "-5:-55" |
| CountdownEngine.ProgressPercent | src/components/Countdown.tsx:51-54 | the percentage is finite exactly when totalTime ≠ 0, and then percentage · totalTime = (totalTime − timeLeft) · 100 |
| CountdownEngine.ProgressOfZeroDuration | src/components/Countdown.tsx:52 | with totalTime = timeLeft = 0 the progress is NaN |
| CountdownEngine.ProgressPercentGuarded | src/components/Countdown.tsx:52 | the guarded percentage is always finite and 0 for a zero duration; otherwise percentage · totalTime = (totalTime − timeLeft) · 100, as written; within 0 ≤ timeLeft ≤ totalTime it lies in [0, 100], 0 at the start and 100 at the end |
| CountdownEngine.SixtyFiveSecondExample | src/components/Countdown.tsx:58-109 | configure(65) shows "01:05"; after start and 5 ticks it shows "01:00", is running, and the progress expression as written gives 500/65 % |
| CountdownEngine.Countdown.constructor | src/components/Countdown.tsx:46-49 | a mounted countdown has 60 s total and left, is idle, and has no handle |
| CountdownEngine.Countdown.HandleTimeChange | src/components/Countdown.tsx:58-61 | the fields become exactly Configure of the old state |
| CountdownEngine.Countdown.StartTimer | src/components/Countdown.tsx:63-80 | the fields become exactly Start of the old state |
| CountdownEngine.Countdown.OnTick | src/components/Countdown.tsx:66-76 | callable only while an interval is scheduled; the fields become exactly Tick of the old state |
| CountdownEngine.Countdown.PauseTimer | src/components/Countdown.tsx:82-88 | the fields become exactly Pause of the old state |
| CountdownEngine.Countdown.ResetTimer | src/components/Countdown.tsx:90-97 | the fields become exactly Reset of the old state |
| CountdownEngine.Countdown.FormattedTime | src/components/Countdown.tsx:105-109 | while the remaining time is not negative, the display shows its minutes and its seconds below 60, and stands for exactly that many seconds |
| CountdownEngine.RunCountdown | src/components/Countdown.tsx:58-109 | a mounted countdown configured with n > 0, started and ticked k ≤ n times has n − k left and runs with no cue for k < n; for k = n it has 0 left, is idle, has played one cue, and shows "00:00" |
| StopwatchEngine.Start | src/components/Timer.tsx:30-39 | definition of startTimer on the state; its properties are in `StartIsGuarded` |
| StopwatchEngine.Tick | src/components/Timer.tsx:33-35 | definition of the interval callback on the state; its properties are in `TickAddsTen` and `TicksAccumulate` |
| StopwatchEngine.Pause | src/components/Timer.tsx:41-47 | definition of pauseTimer on the state; its properties are in `PauseSpec` |
| StopwatchEngine.Reset | src/components/Timer.tsx:49-56 | definition of resetTimer on the state; its properties are in `ResetSpec` |
| StopwatchEngine.StartIsGuarded | src/components/Timer.tsx:30-39 | start is a no-op when running; otherwise it runs, schedules and stores the fresh handle `nextHandle`, which differs from the handle stored before, and time is unchanged |
| StopwatchEngine.TickAddsTen | src/components/Timer.tsx:33-35 | a tick adds exactly 10 ms and keeps running on the same interval |
| StopwatchEngine.PauseSpec | src/components/Timer.tsx:41-47 | pause does nothing when idle; otherwise it cancels and drops the handle and stops, with time kept; pausing twice equals pausing once |
| StopwatchEngine.ResetSpec | src/components/Timer.tsx:49-56 | reset leaves time 0, idle, nothing scheduled and no handle; it is idempotent |
| StopwatchEngine.RunKeepsInvariant | src/components/Timer.tsx:26-56 | every trace keeps time a non-negative multiple of 10, and the engine runs exactly while its stored handle is scheduled |
| StopwatchEngine.IdleIgnoresTicks | src/components/Timer.tsx:44 | with nothing scheduled, any number of firings changes nothing |
| StopwatchEngine.TicksAccumulate | src/components/Timer.tsx:33-35 | k ticks while running add exactly 10·k ms and change nothing else |
| StopwatchEngine.FromResetTicks | src/components/Timer.tsx:30-56 | reset, start and k ticks give time 10·k, still running |
| StopwatchEngine.Fields | src/components/Timer.tsx:59-61 | seconds < 60, hundredths < 100, and minutes·60000 + seconds·1000 + hundredths·10 + t mod 10 = t |
| StopwatchEngine.FormatMmSsCc | src/components/Timer.tsx:58-64 | definition of formattedTime: the three fields of `Fields`, padded and joined; its properties are in `FormatMmSsCcReadsBack`, `FormatMmSsCcRecombines` and `FormatMmSsCcExample` |
| StopwatchEngine.FormatMmSsCcReadsBack | src/components/Timer.tsx:58-64 | the display is three colon-separated digit groups that read back as t div 60000, (t mod 60000) div 1000 < 60 and (t mod 1000) div 10 < 100 |
| StopwatchEngine.FormatMmSsCcRecombines | src/components/Timer.tsx:58-64 | for t a multiple of 10 the milliseconds the display stands for (`MillisShown`) are exactly t |
| StopwatchEngine.FormatMmSsCcExample | src/components/Timer.tsx:58-64 | 1500 ms shows "00:01:50" |
| StopwatchEngine.Stopwatch.constructor | src/components/Timer.tsx:26-28 | a mounted stopwatch has time 0, is idle, and has no handle |
| StopwatchEngine.Stopwatch.StartTimer | src/components/Timer.tsx:30-39 | the fields become exactly Start of the old state |
| StopwatchEngine.Stopwatch.OnTick | src/components/Timer.tsx:33-35 | callable only while an interval is scheduled; the fields become exactly Tick of the old state |
| StopwatchEngine.Stopwatch.PauseTimer | src/components/Timer.tsx:41-47 | the fields become exactly Pause of the old state |
| StopwatchEngine.Stopwatch.ResetTimer | src/components/Timer.tsx:49-56 | the fields become exactly Reset of the old state |
| StopwatchEngine.Stopwatch.FormattedTime | src/components/Timer.tsx:58-64 | the display of a valid stopwatch shows its minutes, seconds and hundredths, and reads back as its elapsed time |
| StopwatchEngine.RunStopwatch | src/components/Timer.tsx:26-64 | a mounted stopwatch started and ticked k times has 10·k ms and runs; after 150 ticks it shows "00:01:50" |

## Findings

| source | as written | input that shows it | evidently intended | confidence | as-written member | corrected member |
|---|---|---|---|---|---|---|
| src/components/InputTimeControl.tsx:21 | the minutes entry is clamped only from above, `Math.min(720, v)` | entering -1 minutes on a total of 0 hands -60 s to the countdown; on a total of 0:30, entering -1 minutes hands -30 s, and a further entry of 2 minutes then gives 90 s (1:30): the minutes field shows 1, not the 2 just entered | clamp to [0, 720], as the field's `min: 0` and the seconds field's own clamp indicate | not executed | DurationEditor.MinutesEditNegativeExample | DurationEditor.MinutesEditClampedInRange |
| src/components/Countdown.tsx:52 | `((totalTime - timeLeft) / totalTime) * 100` with no zero guard | a duration of 0 (slider at 0), reset: 0/0 is NaN and the label shows "NaN%" | progress 0 for a zero duration | not executed | CountdownEngine.ProgressOfZeroDuration | CountdownEngine.ProgressPercentGuarded |

## Left out

- Audio playback (`useSound`, the `Audio` object and the caught, logged playback failure) is a foreign call. It is
  modelled only as the `cues` counter of cue requests.
- Real-time scheduling is runtime behaviour: the 1000 ms and 10 ms periods and `setInterval` drift. Ticks are explicit
  `OnTick` calls, or `IntervalFired` events in a trace.
- React hook semantics are left out: batching of state updates, `useCallback`/`useMemo` dependencies, stale closures,
  and StrictMode's double invocation of state updaters. Handlers are modelled as acting on the current state at once.
- The effect at `Countdown.tsx:99-103` is not a step of the countdown engine. Its cleanup runs
  each time `intervalId` changes and clears the previous handle; `CleanupAfterStepIsNoOp` proves that this clearing
  changes nothing after any step of a reachable engine. The final cleanup on unmount is left out, since nothing of
  the component is observable afterwards.
- `Timer.tsx` has no cleanup effect at all, so a stopwatch unmounted while running leaves its 10 ms interval firing.
  Unmounting is not modelled for either component.
- Parsing (`Number(e.target.value) || 0`) and fractional or exponent entries are left out. Entries are parsed
  integers, with 0 standing for empty or non-numeric input. The slider's array form (`newValue[0]`) is taken as its
  single value.
- Floating point is left out. The progress percentage is computed on exact reals, so the percentage's rounding and
  `Math.round(progress)` for the label are not modelled. `String(n)` is modelled for integers in plain decimal
  notation, without the exponent form JavaScript uses from 10^21.
- The `disabled` props of the inputs and of the start button (`InputTimeControl.tsx:50, 61, 73`,
  `Countdown.tsx:151`) are enforced by the UI toolkit and not by the handlers, so the handlers are modelled without
  them. Which handler a button calls (start or pause) is likewise not modelled.
- Styling, JSX rendering, labels and `src/index.tsx` (bootstrap and font imports) carry no logic.
