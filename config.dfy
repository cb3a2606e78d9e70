/** `IntervalConfig` and `NewConfig`: the duration of each category, with
    defaults for durations that are not positive. */
module Config {
  import opened Intervals
  import Repository

  const DefaultPomodoroDuration: int := 25 * Minute
  const DefaultShortBreakDuration: int := 5 * Minute
  const DefaultLongBreakDuration: int := 15 * Minute

  /** What is needed to create and run intervals. It is never changed after
      construction. */
  datatype IntervalConfig = IntervalConfig(
    repo: Repository.MemRepo,
    pomodoroDuration: int,
    shortBreakDuration: int,
    longBreakDuration: int)

  /** Starts from the defaults and overwrites each duration whose argument
      is positive. */
  function NewConfig(repo: Repository.MemRepo, pomodoro: int, shortBreak: int, longBreak: int): (c: IntervalConfig)
    ensures c.repo == repo
    ensures pomodoro > 0 ==> c.pomodoroDuration == pomodoro
    ensures pomodoro <= 0 ==> c.pomodoroDuration == DefaultPomodoroDuration
    ensures shortBreak > 0 ==> c.shortBreakDuration == shortBreak
    ensures shortBreak <= 0 ==> c.shortBreakDuration == DefaultShortBreakDuration
    ensures longBreak > 0 ==> c.longBreakDuration == longBreak
    ensures longBreak <= 0 ==> c.longBreakDuration == DefaultLongBreakDuration
  {
    var c := IntervalConfig(repo, DefaultPomodoroDuration, DefaultShortBreakDuration, DefaultLongBreakDuration);
    var c := if pomodoro > 0 then c.(pomodoroDuration := pomodoro) else c;
    var c := if shortBreak > 0 then c.(shortBreakDuration := shortBreak) else c;
    var c := if longBreak > 0 then c.(longBreakDuration := longBreak) else c;
    c
  }

  /** Every duration of a constructed configuration is positive. */
  lemma NewConfigPositive(repo: Repository.MemRepo, pomodoro: int, shortBreak: int, longBreak: int)
    ensures var c := NewConfig(repo, pomodoro, shortBreak, longBreak);
      c.pomodoroDuration > 0 && c.shortBreakDuration > 0 && c.longBreakDuration > 0
  {
  }

  /** Building a configuration from the durations of a constructed one gives
      it back: defaults are a fixed point. */
  lemma NewConfigIdempotent(repo: Repository.MemRepo, pomodoro: int, shortBreak: int, longBreak: int)
    ensures var c := NewConfig(repo, pomodoro, shortBreak, longBreak);
      NewConfig(c.repo, c.pomodoroDuration, c.shortBreakDuration, c.longBreakDuration) == c
  {
  }
}
