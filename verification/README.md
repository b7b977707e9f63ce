# Pomodoro countdown timer — a Dafny model

This project models the `PomodoroTimer` class of a browser Pomodoro timer
(`script.js`) as an immutable state record with one pure transition per
operation, and proves properties of it.

The state (`Timer.TimerState`) holds:
- `timeLeft` and `totalTime`, in whole seconds;
- `isRunning`;
- `mode` (`Work` or `Rest`, the source's `currentMode` strings);
- `sessionCount`;
- `labelText`, the text of the timer label.

The operations are `start`, `pause`, `reset`, `complete`, `switchMode` and
`toggleMode`, plus one firing of the interval callback (`Tick`). The
interval exists only between `start()` and the `clearInterval` in `pause()`.
So `Controller` models the callback as an event `IntervalFired` that can
only happen while `isRunning` holds. `Controller.Run` replays a sequence of
button and interval events and yields `None` if an interval event arrives
while the timer is idle.

`updateDisplay` publishes two values, modelled in `Display`:
- the `MM:SS` text, built from JavaScript's `Math.floor(t / 60)`, its
  truncating `t % 60`, `toString` and `padStart(2, '0')`;
- the progress width `(totalTime - timeLeft) / totalTime * 100`, as an
  exact `real`.

The text is modelled for every value the timer's `timeLeft` takes, -1 to 1500, including the transient -1.
`Display.ParseClock` reads an `MM:SS` text back into seconds. It is the
independent reading that the formatting is proved against, in both
directions.

Modules: `Optional` (the `Option` type), `Display`, `Timer` and
`Controller` (the events and runs).

Three behaviours of the code are worth stating:
- A tick completes when `timeLeft <= 0`, not only when it reaches 0.
  Starting at 00:00 therefore passes through -1 and completes again.
- Completion counts a session when the label text is "Work Time", not when
  `currentMode` is `'work'`. In every reachable state the two agree
  (`Controller.ReachableIsValid`).
- Because of the first point, a restart at 00:00 in work mode counts a
  second session (`Controller.RestartAtZeroCountsAgain`).

The label's initial text comes from page markup that is not part of this
model. The model takes it to be "Work Time", which matches the initial
`currentMode = 'work'`.

## Model

| member | source | states |
|---|---|---|
| `Timer.Valid` | script.js:118-127 | the invariant every whole operation keeps: `0 <= timeLeft <= totalTime`, with `totalTime` the mode's preset and the label the mode's label, as `switchMode` sets them together; proved kept by `OperationsPreserveValid`, `RunPreservesValid` and `ReachableIsValid` |
| `Timer.Init` | script.js:2-8 | the constructed timer is idle in work mode, with 1500 s left of 1500 and no sessions; it satisfies the invariant |
| `Timer.Preset` | script.js:118 | a countdown is 1500 s exactly for work and 300 s exactly for rest, always positive |
| `Timer.Opposite` | script.js:106 | the toggled-to mode always differs from the current one |
| `Timer.Capitalize` | script.js:119 | upper-casing the first character keeps the length and leaves every later character unchanged |
| `Timer.LabelOf` | script.js:119 | the label a switch writes is "Work Time" exactly for work and "Rest Time" exactly for rest |
| `Timer.Start` | script.js:51-66 | after start the timer runs; nothing but the run state changes; starting a running timer changes nothing |
| `Timer.Pause` | script.js:68-75 | after pause the timer is idle; nothing but the run state changes; pausing an idle timer changes nothing |
| `Timer.Reset` | script.js:77-81 | reset leaves the timer idle with `timeLeft == totalTime`, whatever the run state; total, mode, label and count are kept |
| `Timer.SessionIncrement` | script.js:89-92 | completion adds at most one session; for the label of either mode it adds one exactly for the work mode's label, so the label test at line 89 counts work completions only |
| `Timer.Complete` | script.js:83-92 | completion stops the timer, clamps `timeLeft` to 0 and adds one session exactly when the label reads "Work Time"; total, mode and label are kept |
| `Timer.Tick` | script.js:57-63 | a tick lowers `timeLeft` by one; at or below zero it completes, so the result is clamped to 0, the timer stops and the session rule applies; otherwise it keeps running |
| `Timer.SwitchMode` | script.js:110-132 | a switch stops the timer and loads the target's preset into both `totalTime` and `timeLeft`, its label and mode; the count is kept; the invariant holds afterwards from any prior state |
| `Timer.ToggleMode` | script.js:104-108 | a toggle lands in the other mode, idle, with a full countdown and the same count |
| `Timer.Render` | script.js:134-141 | in a valid state the published text is five characters and reads back as `timeLeft`; the progress lies in [0,100]; it is 0 exactly at full time and 100 exactly at zero |
| `Timer.LabelKeysMode` | script.js:89 | in a valid state the label test "Work Time" holds exactly in work mode, so counting by label counts work completions |
| `Timer.OperationsPreserveValid` | script.js:51-92 | start, pause, reset and a tick each keep `0 <= timeLeft <= totalTime`, with total and label matching the mode |
| `Timer.TickFromZeroDipsBelowZero` | script.js:57-63 | a tick started at 00:00 takes `timeLeft` to -1, which breaks the invariant, then completion clamps it back to a valid 0 |
| `Timer.StartPauseIdempotent` | script.js:51-81 | repeating start, pause or reset has no further effect |
| `Timer.StartPauseInverse` | script.js:51-75 | pause undoes a start from idle; start undoes a pause from running |
| `Timer.SwitchToSameModeResets` | script.js:110-132 | switching to the current mode is not a no-op: it equals a reset |
| `Timer.ToggleTwiceIsReset` | script.js:104-132 | two toggles return to the original mode with the full preset, not the time that was left: the same as a reset |
| `Timer.SwitchModeForgetsCountdown` | script.js:124-130 | the state after a switch depends only on the target mode and the session count |
| `Display.Digits` | script.js:137 | the decimal numeral is non-empty, one character long exactly below 10, and has no leading zero for positive numbers |
| `Display.DigitsAreDigits` | script.js:137 | the numeral consists of decimal digits only |
| `Display.DigitsRoundTrip` | script.js:137 | the value of the numeral of `n` is `n` |
| `Display.IntToString` | script.js:137 | integer `toString`: an optional minus sign, then the digits of the magnitude; specified by `IntToStringShape` |
| `Display.IntToStringShape` | script.js:137 | a non-negative number prints as digits that read back as the number; a negative one as a minus sign followed by the digits of its magnitude |
| `Display.PadStart2` | script.js:137 | padding gives length two or the length of `s`, whichever is larger |
| `Display.PadStart2Shape` | script.js:137 | the padded text ends with `s` and has only zeros in front of it |
| `Display.Minutes` | script.js:135 | the minutes are the floor quotient: `q*60 <= t < q*60 + 60` |
| `Display.Seconds` | script.js:136 | the seconds lie in [0,60) for non-negative time and in (-60,0] for negative time, and are congruent to the time modulo 60 |
| `Display.MinutesSecondsRecombine` | script.js:135-136 | the seconds are odd in the time; for `t >= 0`, `minutes*60 + seconds == t`; at -1 they give -61 instead, because the quotient floors and the remainder truncates |
| `Display.TwoPlaces` | script.js:137 | the two places of a number below 100 are two decimal digits |
| `Display.TwoDigits` | script.js:137 | a number below 100, padded, is its tens digit followed by its units digit |
| `Display.FormatClock` | script.js:135-137 | the countdown text of `updateDisplay`: padded minutes, a colon, padded seconds; specified by `ClockShape`, `ClockRoundTrip`, `ParseClockCanonical`, `ClockWidensFrom100Minutes` and `ClockAtMinusOne` |
| `Display.ClockShape` | script.js:135-137 | for `0 <= t < 6000` the text is `MM:SS` with digits of `t/60` and `t%60` |
| `Display.ClockRoundTrip` | script.js:135-137 | for `0 <= t < 6000` reading the text back gives `minutes*60 + seconds == t` |
| `Display.ParseTwoPlaces` | script.js:137 | two-place minutes and seconds with a colon between read back as `minutes*60 + seconds` |
| `Display.ParsedClockFields` | script.js:137 | a text that reads as `t` is the two places of `t/60`, a colon and the two places of `t%60` |
| `Display.ParseClockCanonical` | script.js:135-137 | every well-formed `MM:SS` text is the display of exactly the time it reads as |
| `Display.ClockWidensFrom100Minutes` | script.js:135-137 | from 6000 s upward the text is longer than five characters |
| `Display.ClockExample125` | script.js:135-137 | 125 s shows "02:05" |
| `Display.ClockExampleZero` | script.js:135-137 | 0 s shows "00:00" |
| `Display.ClockExampleWork` | script.js:135-137 | the full work preset, 1500 s, shows "25:00" |
| `Display.ClockExampleRest` | script.js:135-137 | 299 s shows "04:59" |
| `Display.ClockAtMinusOne` | script.js:135-137 | the transient -1 s shows "-1:-1" |
| `Display.Progress` | script.js:140 | the progress width of `updateDisplay`, the elapsed share of the total in percent; specified by `ProgressBounds`, `ProgressEnds` and `ProgressStep` |
| `Display.ProgressBounds` | script.js:140 | progress lies in [0,100] exactly when `0 <= timeLeft <= totalTime` |
| `Display.ProgressEnds` | script.js:140 | progress is 0 exactly at full time and 100 exactly at zero |
| `Display.ProgressStep` | script.js:140 | each second off the countdown adds `100 / totalTime` to the progress |
| `Display.ProgressExamples` | script.js:140 | with 1500 s total, 1500 s left is 0 %, 0 s left is 100 %, 750 s left is 50 % |
| `Controller.Step` | script.js:35-64 | a button event always applies; start and pause set the run state and change nothing else; reset stops the timer and refills `timeLeft` from the total, keeping every other field; the mode button stops the timer and loads the other mode, its preset into both times and its label, keeping the count; the interval event applies only while running, and it is a tick |
| `Controller.Run` | script.js:35-64 | the timer driven by a sequence of button presses and interval firings, `None` if an interval fires while idle; specified by `RunSingle`, `RunAppend`, `RunPreservesValid` and `LastStartPauseWins` |
| `Controller.StepPreservesValid` | script.js:51-132 | every event keeps the invariant |
| `Controller.RunPreservesValid` | script.js:51-132 | every event sequence keeps `0 <= timeLeft <= totalTime` with total and label matching the mode |
| `Controller.ReachableIsValid` | script.js:2-8 | every state reachable from page load is valid, and there the label is "Work Time" exactly in work mode |
| `Controller.SessionCountMonotone` | script.js:89-92 | the session count never decreases, and without interval events it does not change |
| `Controller.LastStartPauseWins` | script.js:51-75 | after start/pause presses the timer runs exactly when the last press was start; nothing else changes |
| `Controller.TicksCountDown` | script.js:57-63 | while more than `n` seconds remain, `n` ticks subtract `n` and the timer keeps running |
| `Controller.RunSingle` | script.js:35-64 | a one-event sequence runs as that event's step |
| `Controller.RunAppend` | script.js:35-64 | running one sequence and then another is running their concatenation |
| `Controller.LastTickCompletes` | script.js:57-63 | a tick with one second left stops the timer at 0 and applies the session rule |
| `Controller.CountdownCompletes` | script.js:57-92 | a running countdown with `k >= 1` seconds left completes after exactly `k` ticks: idle at 0, with one more session when the label is "Work Time" |
| `Controller.StartedCountdownCompletes` | script.js:51-92 | start from idle with `k >= 1` seconds left, then `k` ticks, leaves the timer idle at 0 with the session rule applied and nothing else changed |
| `Controller.FirstWorkSession` | script.js:51-92 | from page load, start then 1500 ticks leaves the timer idle at 00:00 with one session counted |
| `Controller.RestartAtZeroCountsAgain` | script.js:51-92 | starting again at 00:00 completes after one tick and, in work mode, counts another session |
| `Controller.DoubleTogglePress` | script.js:104-132 | two presses of the mode button amount to a reset |

## Left out

- DOM lookups, event-listener registration, console logging, the start/pause button `disabled` flags, and the mode button's text and class (script.js:11-49, 54-55, 71-72, 113-115). These are presentation only. The listener wiring is reflected as the `Controller.Event` alternatives.
- Notifications (script.js:144-159, 195-197). This covers the permission check, the asynchronous permission request and its single retry. They are browser services with asynchronous callbacks and do not touch the timer state.
- The Web Audio beep (script.js:165-186). It is a foreign API with floating-point gain and timing, behind a try/catch that swallows every failure.
- The 500 ms completion animation (script.js:98-101). It is a fire-and-forget style change.
- The wall-clock behaviour of `setInterval`. Ticks are discrete events.
- Display.IntToString: prints plain decimal digits for every integer. JavaScript's `toString` switches to exponent form ("1e+21") from 10^21 upward, and a double holds integers exactly only up to 2^53. Neither limit is reachable, because `timeLeft` stays between -1 and 1500 and the minutes and seconds derived from it are smaller still.
- Timer.Capitalize: upper-cases ASCII letters only. JavaScript's `toUpperCase` also maps non-ASCII letters and can lengthen a string ('ß' becomes "SS"). This is harmless here, because only "work" and "rest" are ever capitalised.
- Timer.SwitchMode: takes a `Mode`, not an arbitrary string. The source's `switchMode` is only called from `toggleMode`, which passes 'work' or 'rest'.
- Display.Progress: exact real arithmetic, not IEEE double. The `%` string written to the style attribute is not modelled. Its precondition `totalTime != 0` always holds, because `totalTime` is always 1500 or 300.
- Timer.TimerState: `sessionCount` is an unbounded natural. The source stores a double, which is exact up to 2^53.
