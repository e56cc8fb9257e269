# drift: the two scheduling loops, modelled in Dafny

`drift` runs a unit of work over and over in a background task. There are two kinds of schedule:

- `schedule_drifter` runs the work at a fixed interval. It compensates for drift: after each execution it measures how long the work took and subtracts that from the interval, so the next wait is shorter. Both the success path and the failure path compute this wait with `Duration::saturating_sub`. The first wait is zero.
- `schedule_drifter_cron` walks the upcoming fire instants of a cron expression. It skips any instant that is not strictly in the future when it is examined. Otherwise it sleeps until that instant and runs the work once. It then moves on to the next instant, whether the work succeeded or failed.

Each wait in either loop races a cancellation token against the timer with `tokio::select!`. Cancellation is observed only there, never during an execution.

The model is a deterministic simulation of both loops over abstract time. Durations and instants are whole numbers of nanoseconds on one clock, and that clock advances only through sleeps and executions. Three things are inputs:

- The outside world, given as one `Timing.Tick` per pass. A tick holds the duration of the work, whether it failed, and how `select!` breaks a tie.
- The cron crate's upcoming instants, given as a sequence.
- The time at which the cancellation is requested.

Files:

- `timing.dfy`: saturating subtraction and the cancellation/timer race.
- `interval.dfy`: the interval loop. `IntervalFrom` defines its trace recursively. The method `ScheduleDrifter` is the loop as the source writes it, and it is proved equal to that definition. The remaining members are lemmas about the trace.
- `cron.dfy`: the cron loop, with the same layout: `CronFrom`, the loop method `RunCron`, the entry point `ScheduleDrifterCron`, and lemmas.

### The race at the wait point

The timer fires at `wake = now + wait`. The cancellation branch becomes ready at `max(now, cancelAt)`: immediately if cancellation was requested while the work was running. The branch that is ready first wins. `tokio::select!` polls its branches in random order, so when both become ready at the same instant either may win. The tick's `cancelOnTie` bit makes that choice.

### Behaviour at the edges

- **Cancellation after an overrun.** In the interval loop, an execution that outlasts the interval leaves a wait of zero (`interval.saturating_sub(elapsed)`, lib.rs:136 and lib.rs:142). A cancellation requested during that execution is then raced against a zero wait. In the model a zero wait is ready at once, so both branches are ready together, and the tie bit may let the timer win once more. This is a property of the model's zero-overhead clock. The real timer behind `time::sleep` is not part of this model: it rounds deadlines up to its own tick, and then the already-cancelled branch would usually be ready first. `Interval.RunAfterCancelOnTie` is a concrete instance in the model. `Interval.CancelObserved` and `Interval.CancelBeforeWakeStops` hold for every tie bit, so they stand either way. `Interval.BiasedSelectNeverRunsLate` shows that preferring the cancellation on every tie rules such an execution out. The source's own test (lib.rs:266-276) cancels while the loop is waiting, a case `Interval.CancelAt75RunsTwice` covers. The cron loop has no zero waits, because it skips instants that are not in the future before it starts a wait (`Cron.NeverRunsAfterCancel`).
- **Failure policy.** Neither loop has a cancel-on-error path. The interval loop logs the failure and recomputes the wait as on success (lib.rs:134-139). The cron loop logs it and goes on to the next instant (lib.rs:88-91). `Interval.FailureIsNotFatal` and `Cron.FailureIsNotFatal` prove that the work's outcomes change nothing about timing or termination.
- **Which instants are skipped.** The test is `datetime - now <= 0` (lib.rs:59), so an instant equal to the current time is skipped as well as one before it. The model does the same.

## Model

| member | source | states |
|---|---|---|
| Timing.SaturatingSub | crates/drift/src/lib.rs:142 | elapsed + wait equals the larger of interval and elapsed; the wait never exceeds the interval and is zero exactly when elapsed reaches the interval |
| Timing.CancelWins | crates/drift/src/lib.rs:124-130 | a cancellation strictly before a pending timer wins; a timer strictly before the cancellation wins; a simultaneous readiness is decided by the tie bit; the cancellation wins only if it came no later than the wake time |
| Interval.IntervalFrom | crates/drift/src/lib.rs:117-151 | the loop runs at most one execution per tick, and it stops on cancellation exactly when it has not used up its ticks |
| Interval.ScheduleDrifter | crates/drift/src/lib.rs:105-156 | the loop, with its failure path and success path, produces exactly the trace `Schedule` defines, starting from a zero wait |
| Interval.RunAt | crates/drift/src/lib.rs:131-142 | the k-th execution has the k-th tick's duration and outcome; its next wait is `saturating_sub(interval, elapsed)` on failure as on success; it starts at the end of the previous execution plus the wait computed after it; its timer won the race |
| Interval.StopAt | crates/drift/src/lib.rs:124-128 | a loop that stopped on cancellation still had a tick, and the cancellation won the race of that pass |
| Interval.StartSpacing | crates/drift/src/lib.rs:121-142 | each start is the previous start plus max(interval, previous elapsed); starts are at least one interval apart, and an execution ends before the next starts (no catch-up burst) |
| Interval.NoDrift | crates/drift/src/lib.rs:117-142 | when none of the executions before the k-th outlasts the interval, the k-th start is exactly k intervals after the first |
| Interval.FirstTickImmediate | crates/drift/src/lib.rs:117-121 | the first execution of a schedule starts at the schedule's starting time |
| Interval.CancelObserved | crates/drift/src/lib.rs:124-130 | an execution starts at or after the cancellation only when the timer won a tie, and strictly after it only when the wait was zero; a loop that stopped on cancellation saw it no later than its wake time |
| Interval.CancelBeforeWakeStops | crates/drift/src/lib.rs:124-128 | a cancellation strictly before a positive wait's wake time stops the loop at that pass, and no further execution starts |
| Interval.BiasedSelectNeverRunsLate | crates/drift/src/lib.rs:124-130 | if every tie went to the cancellation, every execution would start strictly before the cancellation |
| Interval.FailureIsNotFatal | crates/drift/src/lib.rs:134-139 | changing the work's outcomes changes neither the starts, nor the waits, nor the number of executions, nor why the loop stops |
| Interval.CancelAt75RunsTwice | crates/drift/src/lib.rs:266-276 | with a 50 ms interval, executions within the interval and cancellation at 75 ms, the work runs exactly twice, at 0 and 50 ms, and the loop stops on cancellation |
| Interval.RunAfterCancelOnTie | crates/drift/src/lib.rs:124-142 | a 60 ms execution against a 50 ms interval with cancellation at 30 ms can be followed by a second execution at 60 ms |
| Cron.CronFrom | crates/drift/src/lib.rs:55-99 | each instant gets at most one fate, in order; the loop stops on cancellation exactly when instants remain |
| Cron.RunCron | crates/drift/src/lib.rs:51-100 | the `for` loop with its skip `continue`, its race and its failure `continue` produces exactly the trace `CronFrom` defines |
| Cron.ScheduleDrifterCron | crates/drift/src/lib.rs:35-104 | a malformed expression yields a parse error and starts no loop; otherwise the result is the loop's trace over the upcoming instants |
| Cron.FateAt | crates/drift/src/lib.rs:55-96 | the k-th instant is examined when the previous one was done with; it is skipped exactly when it is not strictly after that time; when it runs, it starts at its own instant with its tick's duration and outcome, after the timer won |
| Cron.StopAt | crates/drift/src/lib.rs:78-83 | a loop that stopped on cancellation stopped on an instant still in the future, and the cancellation won that race |
| Cron.ClockMonotone | crates/drift/src/lib.rs:56-96 | the clock an earlier instant leaves is at most the time any later instant is examined |
| Cron.Serialized | crates/drift/src/lib.rs:55-99 | every execution ends strictly before any later execution starts: at most one is in flight |
| Cron.OverrunSkipsNext | crates/drift/src/lib.rs:56-66 | an execution that reaches or passes the following instant makes the loop skip that instant rather than run it late, concurrently, or stop |
| Cron.NeverRunsAfterCancel | crates/drift/src/lib.rs:58-84 | every executed instant was strictly in the future when examined and no later than the cancellation, and equal to it only when the timer won the tie |
| Cron.CancelBeforeInstantStops | crates/drift/src/lib.rs:78-83 | a cancellation strictly before the next future instant stops the loop on that instant, which is not run |
| Cron.FailureIsNotFatal | crates/drift/src/lib.rs:88-91 | changing the work's outcomes changes neither which instants run, nor the clock, nor why the loop stops |
| Cron.AllRunWhenWorkFits | crates/drift/src/lib.rs:55-96 | when the first instant is ahead, each execution ends before the next instant, and cancellation comes later, every instant runs and the loop ends with its instants |
| Cron.EveryOtherSecondWhenWorkTakes1500 | crates/drift/src/lib.rs:352-364 | an every-second schedule with 1.5 s of work runs the 1st, 3rd and 5th instants and skips the others |

## Left out

- The async runtime is not modelled: `tokio::spawn`, `time::sleep` and the real clocks (`Utc::now`, `Instant::now`). Sleeps and executions advance one abstract clock, and the scheduler's own overhead is taken to be zero.
- `tokio::select!` is modelled only through the tie bit of each `Tick`. The order in which it polls its branches is not modelled otherwise.
- `CancellationToken` and its tree of `child_token`s are not modelled. Cancellation is a single time, `cancelAt`, at which it is requested. The child tokens handed to the work are never cancelled by the loops, and the work can only observe them.
- The cron parser (`Schedule::from_str`) and `Schedule::upcoming` are not modelled. The loop takes the parser's outcome as a `Cron.Parsed` value: an error or a sequence of instants. The loop does not rely on those instants being increasing, so no lemma requires it.
- `schedule` and `schedule_cron`, `FuncDrifter`, the `Drifter` trait and the `DriftError` wrapping are not modelled. They only forward to the two loops. Work is modelled as a duration and a success flag.
- Logging (`tracing`), the chrono `Local` conversion of the next run time, and the two `expect` conversions are not modelled. For intervals within the range of chrono's `TimeDelta`, none of them affects the schedule. Beyond that range, the `expect` at lib.rs:145 panics on the success path and ends the spawned task without cancelling the token; the model does not capture that panic.
- Interval.ScheduleDrifter: the real loop never ends on its own. The model stops with `OutOfTicks` when its finite sequence of ticks runs out, so each trace is a prefix of the real run.
- The wrap-around of `Instant` and `Duration` arithmetic is not modelled. Integers are unbounded, and the source panics rather than wrapping.
