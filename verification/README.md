# Countdown timer screen — Dafny model

A model of the timer core of the single-screen Android countdown app
(`MainActivity`). The user types a number of minutes, presses Set, then Start.
The pause/resume toggle and Reset control the countdown. The remaining time is
shown as `HH:MM:SS` or `MM:SS`. When the screen stops (backgrounding, rotation)
five fields are written to the shared-preferences store. When it starts again
they are read back, and a countdown that was running is reconciled with the
wall clock.

Every operation is a pure function of the state. The wall clock
(`System.currentTimeMillis`) is an explicit `now` parameter.

| file | module | what it holds |
|---|---|---|
| `outcomes.dfy` | `Outcomes` | `Option`, `Result` |
| `decimal.dfy` | `Decimal` | ASCII digit strings, their value (`Long.parseLong`), decimal rendering, round trip |
| `timer_model.dfy` | `TimerModel` | constants, `TimerState` (the five fields), toasts, `Create` (`onCreate`), the invariant `Valid` / `ValidAt` |
| `minutes_input.dfy` | `MinutesInput` | the Set button's validation of the minutes field |
| `transitions.dfy` | `Transitions` | `setTimer`, `startTimer`, `pauseTimer`, the toggle, `resetTimer`, `onTick`, `onFinish` |
| `countdown.dfy` | `Countdown` | `updateCountdown`: Java `(int)` cast, truncating `/` and `%`, `%02d`, the zero check |
| `persistence.dfy` | `Persistence` | `onStop` (save), `onStart` (load and reconcile), the layout choice |
| `lifecycle.dfy` | `Lifecycle` | the screen as an event system; the invariant holds along every run |

The invariant (`TimerModel.ValidAt`) says four things:
- the running and paused flags are never both set;
- the start time is in `[0, 360000000]`;
- the remaining time is the sentinel `-1` or in `[0, 360000000]`;
- the sentinel never goes with either flag.

It also says that a running countdown ends at most 100 hours after `now`. That
clause is what keeps the remaining time recomputed in `onStart` within the cap.
It needs the clock not to run backwards between save and load.

Quirks of the code that the model keeps as written:
- `startTimer` writes the end time before it checks for the sentinel. A refused
  start therefore leaves `endTime == now - 1`.
- `resetTimer` clears neither the start time nor the end time.
- `onStart` reads the end time only for a running countdown. Otherwise the
  in-memory end time stays. A fresh instance holds `-1` there (from
  `onCreate`), and the same instance keeps its old value. `OnStart` takes the
  in-memory state as a parameter for this reason.
- `onStart` restarts a countdown whose recomputed remaining time is exactly 0,
  because the test is `< 0`.
- `onStart` reads the clock twice. The first read (line 235) computes what is
  left. The second read, inside `startTimer` (line 115), sets the new end time.
  `OnStart` takes both instants, `now` and `restartAt`. A restarted countdown's
  end time is the saved one moved later by `restartAt - now`
  (`DriftOnRestart`).
- The formatter narrows to `int` and then divides with truncation. The sentinel
  `-1` becomes 0 seconds and shows `00:00`. Floor division would show `59:59`.

Behaviour one might expect of a timer screen that the code does not have:
- Reset does not return the start and end times to their initial values.
- Pause has no "no-op when not running" branch. `pauseTimer` always pauses, and
  only the toggle guards it with the running flag.
- Save then load restores the remaining time of a running countdown only when
  its end time is `now + remaining`, because the code recomputes the remaining
  time as `end - now` at the first clock read. The second clock read does not
  affect it (`RemainingRestoredAnyRestart`). Restoring the end time as well
  needs both reads to give the same instant (`StopStartRoundTrip`).
  `ResumeAfterAway` covers the general case.
- Hours and minutes are not computed as `floor(ms/3600000)` and
  `floor(ms/60000) mod 60`. The code computes `ms/1000/3600` and
  `ms/1000 % 3600 / 60` after an `int` cast, with truncation. On
  `[0, 360000000]` the two agree (`SplitInRange`, via `HoursFloor` and
  `MinutesFloor`). For negative values they differ.

## Model

| member | source | states |
|---|---|---|
| MinutesInput.ParseMinutes | Timer/app/src/main/java/com/brian/timer/MainActivity.java:59-74 | Accepted iff the input is non-empty, all digits, and denotes a non-zero value; then the result is minutes × 60000. A non-digit gives "Invalid format"; empty or zero gives "Time cannot be empty". |
| MinutesInput.ValidateMinutes | Timer/app/src/main/java/com/brian/timer/MainActivity.java:59-74 | The digit scan and the left-to-right parse, as loops, give the same verdict and value as `ParseMinutes` for every input. |
| MinutesInput.ParseShownMinutes | Timer/app/src/main/java/com/brian/timer/MainActivity.java:70-74 | Typing the decimal form of m minutes gives exactly m × 60000 ms; typing 0 is refused as an empty time. |
| MinutesInput.ZeroMinutesRejected | Timer/app/src/main/java/com/brian/timer/MainActivity.java:70-74 | A non-empty digit string is refused as empty exactly when every digit is '0'. |
| MinutesInput.RejectedExamples | Timer/app/src/main/java/com/brian/timer/MainActivity.java:60-69 | "" is refused as empty and "12a3" as an invalid format. |
| Decimal.Value | Timer/app/src/main/java/com/brian/timer/MainActivity.java:70 | The value `Long.parseLong` gives an n-digit string is below 10^n, and at least 10^(n-1) when the first digit is not '0'. |
| Transitions.SetTimer | Timer/app/src/main/java/com/brian/timer/MainActivity.java:105-107 | The start time is the minimum of the argument and 360000000, the remaining time equals it, and the flags and end time are unchanged. |
| Transitions.SetClicked | Timer/app/src/main/java/com/brian/timer/MainActivity.java:59-75 | A refused input shows its message and leaves the state unchanged. An accepted one of m ms sets the remaining time to exactly min(m, 360000000), equal to the start time. Flags and end time stay untouched, and there is no toast. |
| Transitions.StartTimer | Timer/app/src/main/java/com/brian/timer/MainActivity.java:112-140 | The end time is always now + remaining, even on refusal. With the sentinel it shows "Input a time first" and keeps the flags; otherwise it is running and not paused. The times are kept. |
| Transitions.PauseTimer | Timer/app/src/main/java/com/brian/timer/MainActivity.java:142-148 | Not running, paused, and all three time fields unchanged. |
| Transitions.ToggleClicked | Timer/app/src/main/java/com/brian/timer/MainActivity.java:89-93 | Running: it pauses with no toast, keeping all three times. Not running: the end time becomes now + remaining, so a refused start leaves it at now - 1. With a time set it then runs, not paused, keeping the remaining and start times. With the sentinel it shows "Input a time first" and stays stopped, with the paused flag, start time and sentinel unchanged. |
| Transitions.ResetTimer | Timer/app/src/main/java/com/brian/timer/MainActivity.java:150-158 | Neither running nor paused, the remaining time is the sentinel, and the start and end times are unchanged. |
| Transitions.Tick | Timer/app/src/main/java/com/brian/timer/MainActivity.java:125-128 | The remaining time becomes the reported value; nothing else changes. |
| Transitions.Finish | Timer/app/src/main/java/com/brian/timer/MainActivity.java:131-134 | Both flags are cleared; the times are unchanged. |
| Transitions.ResetIdempotent | Timer/app/src/main/java/com/brian/timer/MainActivity.java:150-155 | Resetting twice is the same as resetting once. |
| Transitions.StartAfterResetRefused | Timer/app/src/main/java/com/brian/timer/MainActivity.java:115-120 | After a reset, start is refused with "Input a time first" and does not run. |
| Transitions.PauseThenResetIsFresh | Timer/app/src/main/java/com/brian/timer/MainActivity.java:142-155 | Pause then reset leaves the remaining time and flags of a new screen. |
| Transitions.PauseThenResume | Timer/app/src/main/java/com/brian/timer/MainActivity.java:89-93 | Pressing the toggle twice on a running countdown equals a start at the second press, and the pause keeps the remaining time. |
| Transitions.SetThenStart | Timer/app/src/main/java/com/brian/timer/MainActivity.java:105-140 | An accepted set followed by a start runs the capped duration, ending at now plus that duration. |
| TimerModel.Create | Timer/app/src/main/java/com/brian/timer/MainActivity.java:47-48 | A new screen has the sentinel as remaining and end time, neither flag set, and start time 0 (Java's field default). |
| Countdown.ToInt | Timer/app/src/main/java/com/brian/timer/MainActivity.java:183-185 | The `(int)` cast gives a 32-bit value congruent to its argument modulo 2^32. |
| Countdown.Quot | Timer/app/src/main/java/com/brian/timer/MainActivity.java:183-185 | Java `/`: the quotient rounds toward zero, so the remainder has the sign of the dividend. |
| Countdown.Rem | Timer/app/src/main/java/com/brian/timer/MainActivity.java:184-185 | Java `%`: dividend = divisor × quotient + remainder, with the remainder's sign following the dividend. |
| Countdown.UpdateCountdown | Timer/app/src/main/java/com/brian/timer/MainActivity.java:181-195 | The pause button is hidden exactly when the narrowed time is within one second of zero. |
| Countdown.Split | Timer/app/src/main/java/com/brian/timer/MainActivity.java:183-185 | For any long: 3600·hours + 60·minutes + seconds is the narrowed time in whole seconds, rounded toward zero. Minutes and seconds are below 60 in magnitude, and all three fields take the time's sign. |
| Countdown.Render | Timer/app/src/main/java/com/brian/timer/MainActivity.java:187-190 | The rendering has at least five characters, and at least eight when there are hours. |
| Countdown.HoursFloor | Timer/app/src/main/java/com/brian/timer/MainActivity.java:183 | For ms ≥ 0, whole hours via whole seconds, ms/1000/3600, equal ms/3600000. |
| Countdown.MinutesFloor | Timer/app/src/main/java/com/brian/timer/MainActivity.java:184 | For ms ≥ 0, ms/1000%3600/60 equals ms/60000 mod 60. |
| Countdown.Pad2 | Timer/app/src/main/java/com/brian/timer/MainActivity.java:188-190 | `%02d` gives at least two characters. A non-negative number gives digits that read back as the number, exactly two below 100. A negative one gives '-' followed by digits that read back as its magnitude. From 10 up, and after a minus sign, there is no leading zero. |
| Countdown.SplitInRange | Timer/app/src/main/java/com/brian/timer/MainActivity.java:183-185 | For 0 ≤ ms ≤ 360000000 the fields are the floor quotients h = ms/1000/3600 = ms/3600000, m = ms/1000%3600/60 = ms/60000 mod 60 and s = ms/1000%60. Also h ≤ 100, m < 60, s < 60, 3600h + 60m + s = ms/1000, and h > 0 iff ms ≥ 1 hour. |
| Countdown.RenderRoundTrip | Timer/app/src/main/java/com/brian/timer/MainActivity.java:186-190 | A rendered clock parses back to its total seconds and has the 5-character `MM:SS` shape exactly when there are no hours. |
| Countdown.CountdownRoundTrip | Timer/app/src/main/java/com/brian/timer/MainActivity.java:181-194 | For 0 ≤ ms ≤ 360000000 the display reads back as ms/1000 whole seconds. It is `MM:SS` exactly below one hour, and the pause button is hidden exactly below one second. |
| Countdown.SentinelShowsZero | Timer/app/src/main/java/com/brian/timer/MainActivity.java:183-193 | The sentinel -1 shows "00:00" and hides the pause button. |
| Countdown.DisplayExamples | Timer/app/src/main/java/com/brian/timer/MainActivity.java:183-190 | 3661000 ms shows "01:01:01" and 59000 ms shows "00:59". |
| Countdown.CapShows | Timer/app/src/main/java/com/brian/timer/MainActivity.java:183-188 | At the 100-hour cap the display reads "100:00:00": three hour digits, with no padding beyond the width. |
| Persistence.OnStop | Timer/app/src/main/java/com/brian/timer/MainActivity.java:210-219 | The three long keys and two boolean keys are written; every other entry of the store is kept. |
| Persistence.GetLong | Timer/app/src/main/java/com/brian/timer/MainActivity.java:228-229 | A stored long entry is returned as stored; a missing one gives the default. |
| Persistence.GetBool | Timer/app/src/main/java/com/brian/timer/MainActivity.java:230-231 | A stored boolean entry is returned as stored; a missing one gives the default. |
| Persistence.Saved | Timer/app/src/main/java/com/brian/timer/MainActivity.java:228-234 | Each of the five fields is read as stored when its key is present. Missing keys read as start time 0, end time 0, the sentinel, and both flags false. |
| Persistence.OnStart | Timer/app/src/main/java/com/brian/timer/MainActivity.java:225-250 | The start time is the stored one (default 0). A countdown not running reloads the stored fields and keeps the in-memory end time. A running one that has not expired at the first read runs, not paused, with saved end − first read left, and its end time moves by the gap between the two reads. The input layout is chosen exactly when the result is neither running nor paused. |
| Persistence.SavedAfterStop | Timer/app/src/main/java/com/brian/timer/MainActivity.java:214-234 | Reading the five keys with the load defaults gives back exactly the state that was saved. |
| Persistence.StopStartRoundTrip | Timer/app/src/main/java/com/brian/timer/MainActivity.java:212-243 | Save then load on the same screen, with both clock reads at the same instant and a synchronised end time, restores all five fields. |
| Persistence.RemainingRestoredAnyRestart | Timer/app/src/main/java/com/brian/timer/MainActivity.java:233-242 | Save then load of a running countdown whose end time is the first clock read plus what is left restores the remaining time, running flag, paused flag and start time for any second read. Only the end time moves, by the gap between the reads. |
| Persistence.RecreatedRoundTrip | Timer/app/src/main/java/com/brian/timer/MainActivity.java:227-243 | Loading into a new screen restores the same fields. The end time is the sentinel unless the countdown was running. |
| Persistence.LoadEmptyStore | Timer/app/src/main/java/com/brian/timer/MainActivity.java:227-246 | An empty store gives start time 0, the sentinel, both flags false and the input layout; the in-memory end time is kept. |
| Persistence.ExpiredWhileAway | Timer/app/src/main/java/com/brian/timer/MainActivity.java:233-240 | A running countdown whose end time has passed loads as stopped at 0, with the saved paused flag, start time and end time. |
| Persistence.EndingNowRestarts | Timer/app/src/main/java/com/brian/timer/MainActivity.java:235-242 | A running countdown ending exactly at the first clock read is restarted with 0 left, and its end time becomes the second clock read. |
| Persistence.StoredEndRead | Timer/app/src/main/java/com/brian/timer/MainActivity.java:233-242 | When the store says running and holds an end time not before the first clock read, the reload runs with that stored end time minus the first read left, and its end time is the stored one moved by the gap between the reads. |
| Persistence.DriftOnRestart | Timer/app/src/main/java/com/brian/timer/MainActivity.java:233-242 | For any two clock reads, a restarted countdown's end time differs from the saved one by exactly the second read minus the first, and equals the second read plus the time left. |
| Persistence.ResumeAfterAway | Timer/app/src/main/java/com/brian/timer/MainActivity.java:233-242 | Start with r ms left, save, and load d ms later, the restart reading the clock l ms after that. It is running with r - d left iff d ≤ r, otherwise stopped at 0, and it is not paused. Its end time is the original one, plus l when it restarted. |
| Persistence.AwayExamples | Timer/app/src/main/java/com/brian/timer/MainActivity.java:233-242 | 5000 ms left and 7000 ms away gives 0, stopped; 10000 ms left and 3000 ms away gives 7000, running. |
| Persistence.OnStartPreservesValid | Timer/app/src/main/java/com/brian/timer/MainActivity.java:225-243 | Loading a valid store gives a state valid at the second clock read, provided the clock has not gone back since saving nor between the two reads. |
| Lifecycle.StepPreservesInv | Timer/app/src/main/java/com/brian/timer/MainActivity.java:89-158 | Every enabled event (buttons, tick, finish, stop, start) keeps the invariant on the screen state and on the stored state, provided no clock read goes back. |
| Lifecycle.InitialInv | Timer/app/src/main/java/com/brian/timer/MainActivity.java:47-48 | A new screen with an empty store satisfies the invariant. |
| Lifecycle.Step | Timer/app/src/main/java/com/brian/timer/MainActivity.java:210-222 | Only the stop event writes the store, and it leaves the screen's fields unchanged. |
| Lifecycle.RunPreservesInv | Timer/app/src/main/java/com/brian/timer/MainActivity.java:29-33 | Along any admissible run whose clock reads never go backwards, the five fields keep the invariant: never running and paused at once, remaining time within the cap. |

## Left out

- Widgets, visibility changes (`resetLayout`, `updateLayout`), button labels and keyboard hiding (`closeKeyboard`): these are UI effects. The layout choice of `onStart` is the `Layout` value, and a toast is a `Toast` value.
- `CountDownTimer` scheduling, tick timing and `cancel()`: this is library code. `onTick(l)` sets the remaining time and `onFinish` clears both flags. The library's promise that ticks come only while running, with `0 ≤ l ≤` the time left, is the `Enabled` condition. There is no timer handle, so the cancellations in pause, reset and `onStop` are not modelled.
- `updateCountdown` runs after set, reset, each tick and `onStart`. Its output is a function of the remaining time alone (`UpdateCountdown(s.remaining)`), so the transitions do not carry it.
- The preference store's file name and `apply()`: writes are taken as complete and in order. The store is two maps of typed entries, so a type clash under one key cannot occur.
- 64-bit `long` arithmetic: `Long.parseLong` overflow on very long input, wrap-around of `minutes * 60000`, and `now + remaining` are computed on unbounded integers. The cap invariant (`StepPreservesInv`, `RunPreservesInv`) depends on this. In the program, the input "153722867280913" passes the checks, `* 60000` wraps to -9223372036854771616, and `Math.min` keeps it, so the remaining time goes negative.
- `Character.isDigit` accepts non-ASCII digits; the model accepts only '0'–'9'.
- `Locale.getDefault()` formatting may use non-ASCII digits; the model renders ASCII.
- Callback cancellation: `Enabled` allows a finish in any state and a tick whenever running. That admits more runs than the program produces, where callbacks stop after a cancel. The invariant is proved for all of these runs.
