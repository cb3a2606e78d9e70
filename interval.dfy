/** The data model of `pomodoro/interval.go`: the category and state
    constants, the `Interval` record, the error values and the
    `time.Duration` arithmetic the runner uses. */
module Intervals {

  // Categories are plain strings in the source.
  const CategoryPomodoro: string := "Pomodoro"
  const CategoryShortBreak: string := "ShortBreak"
  const CategoryLongBreak: string := "LongBreak"

  // States are integers numbered in declaration order (Go's iota).
  const StateNotStarted: int := 0
  const StateDone: int := 1
  const StateRunning: int := 2
  const StatePaused: int := 3
  const StateCancelled: int := 4

  /** One of the three category constants. */
  predicate IsCategory(c: string) {
    c == CategoryPomodoro || c == CategoryShortBreak || c == CategoryLongBreak
  }

  /** A break category: the only categories after which work comes next. */
  predicate IsBreak(c: string) {
    c == CategoryShortBreak || c == CategoryLongBreak
  }

  // A `time.Duration` is a signed 64-bit count of nanoseconds.
  const MinInt64: int := -0x8000_0000_0000_0000
  const MaxInt64: int := 0x7fff_ffff_ffff_ffff
  const TwoTo64: int := 0x1_0000_0000_0000_0000

  const Nanosecond: int := 1
  const Second: int := 1_000_000_000 * Nanosecond
  const Minute: int := 60 * Second

  /** Two's-complement reduction of an integer to 64 bits, as Go's int64
      arithmetic does on overflow. */
  function Wrap64(x: int): (r: int)
    ensures MinInt64 <= r <= MaxInt64
    ensures (x - r) % TwoTo64 == 0
    ensures MinInt64 <= x <= MaxInt64 ==> r == x
  {
    var r := (x - MinInt64) % TwoTo64 + MinInt64;
    assert x - r == TwoTo64 * ((x - MinInt64) / TwoTo64);
    r
  }

  /** `a + b` on `time.Duration`. */
  function AddDuration(a: int, b: int): int {
    Wrap64(a + b)
  }

  /** `a - b` on `time.Duration`. */
  function SubDuration(a: int, b: int): int {
    Wrap64(a - b)
  }

  /** Wall-clock time. The core only carries it along and never changes it. */
  datatype Time = Time(unixNanos: int)

  /** One work or break session as stored by the repository. */
  datatype Interval = Interval(
    id: int,
    startTime: Time,
    plannedDuration: int,
    actualDuration: int,
    category: string,
    state: int)

  /** The error values of the business logic, plus any other failure a
      repository may report. */
  datatype Error =
    | NoIntervals
    | IntervalNotRunning
    | IntervalCompleted
    | InvalidState
    | InvalidID
    | StorageError(message: string)
  {
    /** The text of the error. */
    function Message(): string {
      match this
      case NoIntervals => "No intervals"
      case IntervalNotRunning => "Interval not running"
      case IntervalCompleted => "Interval is completed or cancelled"
      case InvalidState => "Invalid state"
      case InvalidID => "Invalid ID"
      case StorageError(m) => m
    }
  }
}
