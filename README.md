# Countdown timer

A model of the countdown timer of a scoreboard application: the `useCountdown`
composable, which holds a number of remaining seconds, a running flag and the
identifier of a one-second periodic timer. It is controlled by `start`,
`pause`, `reset`, `addTime` and `subtractTime`. The periodic timer calls an
internal `tick`. When the owning view is unmounted, a teardown (`clear`)
releases the periodic timer.

The project has two modules:

- `CountdownSpec` (`countdown_spec.dfy`) is the timer as a pure state machine.
  - A `State` record holds `initialTime`, `time`, `isRunning` and `hasHandle`.
  - `hasHandle` stands for "the interval identifier is not null".
  - There is one function per operation, with the invariant `Valid`.
  - `Elapse`/`ElapseN` describe host time passing: the periodic timer fires
    once per second exactly while the handle is held.
  - `Run` applies an arbitrary sequence of view operations and elapsed
    seconds.
  - The lemmas state what the timer promises across many steps.
- `UseCountdown` (`countdown.dfy`) is the closure as a class `Countdown`.
  - Its four mutable fields are the closure's variables, and its methods are
    the closure's functions, with the same branches.
  - Each method is proved to change the fields exactly as the matching
    `CountdownSpec` function changes a `State`.
  - `Tick`, `Start`, `Pause`, `Reset`, `AddTime`, `SubtractTime` and
    `AdvanceSeconds` are also proved to keep `Valid()`. `Clear` and `Dispose`
    are not: releasing the handle of a running timer leaves `isRunning` set.
  - Client methods at the end replay the scenarios the timer is meant to
    satisfy: run-out after N seconds, starting twice, clamped adjustments, no
    tick after teardown.

The source checks `time <= 0` (not `time == 0`) before `start` restores the
initial duration. The model follows the code.

## Model

| member | source | states |
|---|---|---|
| `CountdownSpec.Init` | src/composables/useCountdown.js:3-7 | a new timer is idle, holds no handle, has `time == initialTime == initialSeconds`, and is valid |
| `CountdownSpec.Clear` | src/composables/useCountdown.js:9-14 | afterwards no handle is held; the times and the running flag are unchanged; it is a no-op when no handle was held |
| `CountdownSpec.Tick` | src/composables/useCountdown.js:16-28 | with `time > 0` it takes off exactly one second; otherwise it clamps to 0; the timer keeps running iff it ran and had more than one second left; the handle is released exactly when a running timer reaches zero; `initialTime` is unchanged; validity is kept |
| `CountdownSpec.Start` | src/composables/useCountdown.js:30-41 | a no-op while running; from idle the timer runs and holds a handle, with time restored to `initialTime` when it was `<= 0` and otherwise unchanged; validity is kept |
| `CountdownSpec.Pause` | src/composables/useCountdown.js:43-50 | the timer is idle afterwards; a no-op when idle; from running no handle remains; the times are unchanged; validity is kept |
| `CountdownSpec.Reset` | src/composables/useCountdown.js:52-55 | from any state the timer is idle with `time == initialTime` and `initialTime` unchanged; a handle remains exactly when one was held while idle; validity is kept |
| `CountdownSpec.ElapseKeepsValid` | src/composables/useCountdown.js:16-28 | any amount of host time keeps a valid timer valid and leaves `initialTime` unchanged, whether it runs or not |
| `CountdownSpec.AddTime` | src/composables/useCountdown.js:57-62 | a no-op while running; when idle the new time is the larger of 0 and `time + seconds`; flags and `initialTime` unchanged; validity is kept |
| `CountdownSpec.SubtractTime` | src/composables/useCountdown.js:64-69 | a no-op while running; when idle the new time is the larger of 0 and `time - seconds`; flags and `initialTime` unchanged; validity is kept |
| `CountdownSpec.StartIdempotent` | src/composables/useCountdown.js:30-33 | starting twice in a row equals starting once |
| `CountdownSpec.PauseIdempotent` | src/composables/useCountdown.js:43-46 | pausing twice in a row equals pausing once |
| `CountdownSpec.StartAcquiresOnlyWhenFree` | src/composables/useCountdown.js:31-40 | on a valid timer, `start` acquires a handle only when none is held, so at most one periodic timer exists |
| `CountdownSpec.AddThenSubtract` | src/composables/useCountdown.js:57-69 | on a valid idle timer, adding `n >= 0` seconds and then subtracting them restores the timer exactly; on a running timer both are no-ops |
| `CountdownSpec.ElapseWithoutHandle` | src/composables/useCountdown.js:9-14 | a timer that holds no handle is unchanged by any amount of host time |
| `CountdownSpec.RunDown` | src/composables/useCountdown.js:16-28 | a valid running timer, after n seconds, has `time == max(0, time - n)`, is still running iff `n < max(1, time)`, stays valid, and keeps `initialTime` |
| `CountdownSpec.ExpiresAfterTime` | src/composables/useCountdown.js:23-27 | a running timer with `t > 0` seconds left is idle at 0 without a handle after exactly t seconds, and still running at 1 after t - 1 seconds |
| `CountdownSpec.FreshTimerRunsOut` | src/composables/useCountdown.js:3-41 | a new timer of n > 0 seconds, started, is idle at 0 after n seconds, with `initialTime == n` |
| `CountdownSpec.NoTickAfterTeardown` | src/composables/useCountdown.js:71-73 | after the teardown no further tick happens: host time changes nothing, and the remaining time is what it was at teardown |
| `CountdownSpec.ResetAfterRunning` | src/composables/useCountdown.js:52-55 | `reset` after any number of seconds of running leaves the timer idle and valid, with no handle and its full duration |
| `CountdownSpec.RunKeepsValid` | src/composables/useCountdown.js:3-69 | after any sequence of the timer's operations (start, pause, reset, adjustments) and elapsed seconds, a valid timer stays valid (`time >= 0`, handle iff running), and `initialTime` is never reassigned |
| `CountdownSpec.ResetAfterAnyRun` | src/composables/useCountdown.js:52-55 | `reset` after any history of a new timer restores `time == initialSeconds`, leaves it idle, and holds no handle |
| `UseCountdown.Countdown.constructor` | src/composables/useCountdown.js:3-7 | the fields equal `Init(initialSeconds)`, and the timer is valid |
| `UseCountdown.Countdown.Default` | src/composables/useCountdown.js:3 | without an argument, the duration is 6 * 60 = 360 seconds |
| `UseCountdown.Countdown.Clear` | src/composables/useCountdown.js:9-14 | the fields change as `Clear` says: the handle is released, nothing else changes |
| `UseCountdown.Countdown.Tick` | src/composables/useCountdown.js:16-28 | callable only while the handle is held; the fields change as `Tick` says; validity is kept |
| `UseCountdown.Countdown.Start` | src/composables/useCountdown.js:30-41 | the fields change as `Start` says; afterwards the timer runs; validity is kept |
| `UseCountdown.Countdown.Pause` | src/composables/useCountdown.js:43-50 | the fields change as `Pause` says; afterwards idle with the time unchanged; validity is kept |
| `UseCountdown.Countdown.Reset` | src/composables/useCountdown.js:52-55 | the fields change as `Reset` says; afterwards idle with `time == initialTime`; a valid timer holds no handle afterwards |
| `UseCountdown.Countdown.AddTime` | src/composables/useCountdown.js:57-62 | the fields change as `AddTime` says; validity is kept |
| `UseCountdown.Countdown.SubtractTime` | src/composables/useCountdown.js:64-69 | the fields change as `SubtractTime` says; validity is kept |
| `UseCountdown.Countdown.Dispose` | src/composables/useCountdown.js:71-73 | the teardown releases any handle unconditionally and changes nothing else |
| `UseCountdown.Countdown.AdvanceSeconds` | src/composables/useCountdown.js:40 | n seconds of the host's interval timer change the fields as `ElapseN` says: `tick` fires once per second while the handle is held; validity is kept |
| `UseCountdown.StartAndRunOut` | src/composables/useCountdown.js:16-41 | a timer of n > 0 seconds, started and run for n seconds, ends at 0, idle, holding no handle |
| `UseCountdown.StartTwice` | src/composables/useCountdown.js:30-41 | calling `start` twice leaves the same state as calling it once |
| `UseCountdown.Adjustments` | src/composables/useCountdown.js:57-69 | idle 10 + 30 gives 40; idle 30 - 50 clamps to 0; adding 30 while running leaves 10 |
| `UseCountdown.TeardownWhileRunning` | src/composables/useCountdown.js:71-73 | after teardown while running (possibly right after `start`), later host time leaves the remaining time unchanged, and the running flag stays set |

## Left out

- Vue reactivity (`ref` and `.value`) is left out. The reactive values are plain fields, and re-rendering is a concern of the view.
- The registration with `onUnmounted` is left out. The teardown is the explicit method `Dispose`, which the owner calls once.
- `setInterval`, `clearInterval` and the 1000 ms period are left out. An interval identifier is the boolean `hasHandle`, and a second of host time is one call of `Tick` while the handle is held. Wall-clock timing is not modelled.
- JavaScript numbers are left out. Seconds are unbounded integers, so non-integer, NaN and infinite values are not modelled, and neither is the truthiness test on the interval identifier: a held identifier is treated as truthy, as the host's identifiers are.
- Direct writes by the view to the returned `time`, `initialTime` and `isRunning` refs are not modelled. Those refs are writable in the source, and such a write could break the invariant. The model's fields change only through the timer's own operations.
- The constructor requires `initialSeconds >= 0`. A negative duration would let `start` and `reset` write a negative `time`.
- `UseCountdown.Countdown.Dispose` does not promise `Valid()`. A timer torn down while running keeps `isRunning` true without a handle, exactly as the source does. Its contract states the whole new state instead.
- `UseCountdown.Countdown.Tick` requires the handle to be held, because only the periodic timer calls it; the source's function does not check this itself.
