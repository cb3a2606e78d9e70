# Pomodoro interval engine: a Dafny model

This project models `pomodoro/interval.go` from a Pomodoro command-line
timer written in Go, and proves properties of it. The file has three parts.

- **Configuration** (`NewConfig`). Each category has a duration: the
  argument when it is positive, else 25, 5 or 15 minutes.
- **Category selection** (`nextCategory`). It chooses the category of the
  next interval from the repository's `Last()` and `Breaks(3)` answers: work
  after a break or on an empty history, and a short break after work unless
  the three most recent breaks are all short, in which case a long break.
- **The interval runner** (`tick`). It fetches the interval, calls the
  `start` callback, then services ticker, expiry and cancellation events.
  Each event re-reads the interval through the repository. A tick adds one
  second and stores the result. Expiry marks the interval done. Cancellation
  fetches the interval and drops a cancelled copy.

Files and modules:

| file | module | contents |
|---|---|---|
| `wrappers.dfy` | `Wrappers` | `Option` (a nil or non-nil Go `error`) and `Result` |
| `interval.dfy` | `Intervals` | category and state constants, `Interval`, `Error`, int64 `time.Duration` arithmetic |
| `repository.dfy` | `Repository` | the repository's abstract state `Store`, its `ByID`/`Update` semantics, and the class `MemRepo` that changes in place |
| `config.dfy` | `Config` | `IntervalConfig`, `NewConfig` |
| `category.dfy` | `Category` | `NextCategory`, and the rotation it produces over a history |
| `tick.dfy` | `Runner` | the specification functions `StepSpec`, `LoopSpec`, `TickSpec`, and the methods `Step` and `Tick` proved equal to them |
| `tick_properties.dfy` | `RunnerProperties` | lemmas about the runner |

How the model is built:

- Categories are strings and states are integers, as in the source.
  `StateNotStarted` is 0, `StateDone` 1, `StateRunning` 2, `StatePaused` 3
  and `StateCancelled` 4.
- A `time.Duration` is an `int` counting nanoseconds. The two operations
  `tick` performs on durations (`+= time.Second` and the deadline
  subtraction) wrap around at 64 bits, as Go's `int64` does.
- The repository is a map from id to interval, plus a call counter. Errors
  are injected by call number: `faults[n]` is the error that the `n`-th
  `ByID` or `Update` call returns. `ByID` and `Update` fail with
  `InvalidID` when the id is absent.
- `nextCategory` is the function `NextCategory`. It takes the two results
  (`Result<Interval, Error>` and `Result<seq<Interval>, Error>`) and returns
  the pair (category, error).
- The timers and the context become a sequence of events. Each `select`
  picks the next event in the sequence. When the events run out while the
  loop is still waiting, the run's status is `Waiting`.
- `Tick` also returns the expiry deadline it computed at entry. The
  callbacks are a ghost trace of (hook, snapshot) pairs.

## Model

| member | source | states |
|---|---|---|
| `Intervals.Wrap64` | pomodoro/interval.go:30-31 | the result is in the `int64` range, agrees with the argument modulo 2^64, and equals it when the argument is already in range |
| `Config.NewConfig` | pomodoro/interval.go:62-77 | stores the repository as given; each duration is the argument when the argument is positive, else 25, 5 or 15 minutes |
| `Config.NewConfigPositive` | pomodoro/interval.go:62-77 | every duration of a constructed configuration is positive |
| `Config.NewConfigIdempotent` | pomodoro/interval.go:62-77 | rebuilding a configuration from its own durations gives it back unchanged |
| `Category.HasLongBreak` | pomodoro/interval.go:109-113 | the early-return search is true exactly when some interval in the list is a long break |
| `Category.NextCategory` | pomodoro/interval.go:86-116 | a nil error comes with one of the three category constants; an error comes with the empty category and is either a `Last()` error other than `NoIntervals` or a `Breaks` error that was actually asked for |
| `Category.NextCategoryFromLast` | pomodoro/interval.go:87-98 | `NoIntervals` gives work with no error; any other `Last()` error is returned unchanged with `""`; a last break gives work |
| `Category.NextCategoryFromBreaks` | pomodoro/interval.go:100-115 | when the last interval is not a break: a `Breaks` error is returned unchanged, fewer than three breaks give a short break, any long break among them gives a short break, otherwise a long break |
| `Category.LongBreakExactly` | pomodoro/interval.go:96-115 | a long break is chosen if and only if the last interval is not a break and at least three breaks came back, none of them long |
| `Category.BreaksNotConsulted` | pomodoro/interval.go:87-98 | when `Last()` failed or returned a break, the result does not depend on what `Breaks(3)` would return |
| `Category.BreaksOf` | pomodoro/interval.go:41 | the reference `Breaks(n)` over a history returns at most `n` intervals, all of them breaks |
| `Category.BreaksOfIsRecentBreaks` | pomodoro/interval.go:41 | that reference answer is exactly the history's breaks, newest first, cut to the first `n`, or all of them when there are fewer: the history reversed, filtered to breaks, then its first `n` elements |
| `Category.SelectContinuesCycle` | pomodoro/interval.go:86-116 | on a history that follows the cycle work, short, work, short, work, short, work, long, the selector picks the next category of the cycle, with no error |
| `Category.RotationFollowsCycle` | pomodoro/interval.go:78-116 | intervals created one after another with the selected category follow that cycle from an empty history: after each work interval a short break, after every fourth a long one |
| `Repository.MemRepo.ByID` | pomodoro/interval.go:39 | returns the stored interval, or the injected error, or `InvalidID` for an absent id; changes no record |
| `Repository.MemRepo.Update` | pomodoro/interval.go:38 | replaces the record under the interval's id unless an error is injected or the id is absent; the result is the error |
| `Repository.UpdateWritesOneRecord` | pomodoro/interval.go:38 | an update keeps the set of ids, replaces only the written record, changes nothing when it fails, and keeps every record under its own id |
| `Runner.Step` | pomodoro/interval.go:142-176 | one `select` iteration equals `StepSpec`: the control decision, the new repository state and the callbacks invoked |
| `Runner.Tick` | pomodoro/interval.go:128-178 | the whole run equals `TickSpec` for the given events; the deadline is `PlannedDuration - ActualDuration` of the entry snapshot, computed once, and there is none when the entry fetch fails |
| `RunnerProperties.StepFetchFailure` | pomodoro/interval.go:142-174 | for every event, a failed re-fetch returns exactly that error, writes nothing and invokes no callback |
| `RunnerProperties.StepTickerPaused` | pomodoro/interval.go:149-151 | a tick that finds the interval paused returns nil and writes nothing |
| `RunnerProperties.StepTickerAdvances` | pomodoro/interval.go:153-158 | otherwise the stored elapsed time grows by one second (64-bit) and no other field or record changes; `periodic` sees the stored record once `Update` succeeds; an `Update` error is returned and nothing is stored |
| `RunnerProperties.TickAddsOneSecond` | pomodoro/interval.go:153 | without overflow the tick adds exactly one second |
| `RunnerProperties.StepExpired` | pomodoro/interval.go:159-169 | expiry stores the record with state done and every other field kept; `end` gets that record even when `Update` then fails; the result is exactly `Update`'s error |
| `RunnerProperties.StepContextDone` | pomodoro/interval.go:170-175 | cancellation writes nothing, invokes no callback and does not end the loop |
| `RunnerProperties.LoopPreserves` | pomodoro/interval.go:141-177 | across the loop, ids, start times, planned durations and categories never change; no record other than the run's own is touched; the state can only become done |
| `RunnerProperties.TickPreserves` | pomodoro/interval.go:128-178 | the same for the whole of `tick` |
| `RunnerProperties.LoopCountsTicks` | pomodoro/interval.go:143-158 | without overflow, the stored elapsed time ends exactly one second per `periodic` call above where it started, so it never decreases |
| `RunnerProperties.StepErrorIsLastCall` | pomodoro/interval.go:142-176 | every iteration makes at least one repository call, and the error it returns is the one its last call reported: the fault injected for that call, or `InvalidID` |
| `RunnerProperties.LoopErrorIsLastCall` | pomodoro/interval.go:141-177 | the loop never adds faults, and an error it returns is the one reported by the last repository call of the run, not by any other call |
| `RunnerProperties.LoopAppend` | pomodoro/interval.go:141-177 | once an iteration returns, later events are never looked at; a loop still waiting continues with the next events from the state it reached |
| `RunnerProperties.TickEntryFailure` | pomodoro/interval.go:132-135 | a failed fetch at entry returns that error before `start` is called, with an empty trace |
| `RunnerProperties.TickStartsWithEntry` | pomodoro/interval.go:132-139 | otherwise the first callback is `start`, given the entry snapshot |
| `RunnerProperties.TickPausedAtEntry` | pomodoro/interval.go:132-151 | an interval already paused at entry still gets `start`, and the first tick then returns nil |
| `RunnerProperties.TickTraceAt` | pomodoro/interval.go:153-158 | the `j`-th of `k` undisturbed ticks reports the interval with `j + 1` seconds added |
| `RunnerProperties.UninterruptedRun` | pomodoro/interval.go:141-169 | with no errors, `k` ticks and then expiry return nil, store the interval done with `k` seconds added, and report `k` `periodic` calls and one `end` call |
| `RunnerProperties.ThreeSecondPomodoro` | pomodoro/interval.go:128-178 | a 3-second interval from zero gets ticks at 1 and 2 seconds; if expiry wins the tie at 3 seconds, `end` sees it done with 2 seconds elapsed |
| `RunnerProperties.CancelKeepsTicking` | pomodoro/interval.go:170-175 | after a cancellation a further tick still advances and stores the interval, and the loop keeps waiting |

The model follows the code where it does less than its own comments say:

- Cancellation. The comment on `tick` (`pomodoro/interval.go:121-127`) says
  the loop ends by canceling when the context signals. The branch at
  `pomodoro/interval.go:170-175` changes only a local copy, never calls
  `Update` and keeps looping (`StepContextDone`, `CancelKeepsTicking`).
- Category choice. The comment on `nextCategory`
  (`pomodoro/interval.go:78-85`) speaks of a short break after each Pomodoro.
  The code consults the recent breaks whenever the last category is neither
  `ShortBreak` nor `LongBreak`, so any other string counts as work
  (`NextCategoryFromBreaks`).
- Finished intervals. The tick branch checks only for `StatePaused`
  (`pomodoro/interval.go:149-151`), so a tick would advance an interval that
  is already done or cancelled.
- Elapsed time at the end. `end` sees the elapsed time the ticks stored. With
  a 3-second plan and expiry winning the tie with the third tick, that is
  2 seconds (`ThreeSecondPomodoro`). It equals the plan only when the third
  tick comes first (`UninterruptedRun` with `k = 3`).

## Left out

- `time.NewTicker`, `time.After` and `ticker.Stop`: wall-clock timing is not
  modelled. Events are an input sequence, so the model does not link how
  many ticks come before expiry to the deadline.
- `context.Context`: only its `Done` channel appears, as the `ContextDone`
  event. Concurrency between runners, and writes by other actors during a
  run (such as an external pause), are not modelled. A record that is
  already paused when a step fetches it is covered.
- Callback behaviour: the callbacks are recorded, not run, so a callback
  that itself writes to the repository is not modelled.
- `StartTime`: carried as an opaque `Time` value that nothing changes.
- `Create`, `Last` and `Breaks` of concrete repositories: their code is not
  part of this model. `NextCategory` takes their results as arguments. For
  the rotation lemmas, `LastOf` and `BreaksOf` are reference answers over an
  in-memory history, most recent break first.
- The error values are compared as values, like Go's `err == ErrNoIntervals`
  on the sentinel variables. `Error.Message` gives their texts, but nothing
  depends on the texts.
- Field widths: ids and durations are unbounded integers. The code's two
  duration operations wrap at 64 bits; no invariant keeps stored values in
  the `int64` range.
- `RunnerProperties.LoopCountsTicks`: states the exact count only when no
  overflow occurs (a precondition bounds the starting elapsed time). In
  general, `StepTickerAdvances` gives the wrapped value.
