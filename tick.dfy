/** The event-handling body of `tick`: fetch the interval at entry, report
    it to `start`, then service ticker, expiry and cancellation events one
    at a time, reading and writing the interval through the repository. */
module Runner {
  import opened Wrappers
  import opened Intervals
  import opened Repository
  import Config

  /** The channel the `select` statement receives from. */
  datatype Event = TickerFired | Expired | ContextDone

  /** The three callbacks passed to `tick`. */
  datatype Hook = Start | Periodic | End

  /** One callback invocation and the interval it was given. */
  datatype Callback = Callback(hook: Hook, snapshot: Interval)

  /** Whether the loop goes on after an event, or `tick` returns. */
  datatype Control = Continue | Return(err: Option<Error>)

  /** What servicing one event does: the control decision, the repository
      state after it, and the callbacks invoked. */
  datatype Transition = Transition(control: Control, store: Store, emitted: seq<Callback>)

  /** `Waiting` when the events ran out while the loop was still blocked in
      `select`; otherwise the value `tick` returned. */
  datatype Status = Waiting | Returned(err: Option<Error>)

  /** A run of `tick`: its status, the final repository state and every
      callback invocation in order. */
  datatype Run = Run(status: Status, store: Store, trace: seq<Callback>)

  /** The time until the expiry timer fires, taken from the entry snapshot. */
  function Deadline(entry: Interval): int {
    SubDuration(entry.plannedDuration, entry.actualDuration)
  }

  /** One iteration of the `for`/`select` loop for event `e`. */
  function StepSpec(s: Store, id: int, e: Event): Transition {
    var fetched := Fetch(s, id);
    var s1 := Tally(s);
    match fetched
    case Failure(err) => Transition(Return(Some(err)), s1, [])
    case Success(interval) =>
      match e
      case TickerFired =>
        if interval.state == StatePaused then Transition(Return(None), s1, [])
        else
          var next := interval.(actualDuration := AddDuration(interval.actualDuration, Second));
          var err := UpdateResult(s1, next);
          if err.Some? then Transition(Return(err), AfterUpdate(s1, next), [])
          else Transition(Continue, AfterUpdate(s1, next), [Callback(Periodic, next)])
      case Expired =>
        var done := interval.(state := StateDone);
        Transition(Return(UpdateResult(s1, done)), AfterUpdate(s1, done), [Callback(End, done)])
      case ContextDone =>
        // The cancelled copy is made and dropped: nothing is written.
        Transition(Continue, s1, [])
  }

  /** Puts `emitted` in front of a run's trace. */
  function Then(emitted: seq<Callback>, r: Run): Run {
    Run(r.status, r.store, emitted + r.trace)
  }

  /** The loop consuming `events` in order until an iteration returns. */
  function LoopSpec(s: Store, id: int, events: seq<Event>): Run
    decreases |events|
  {
    if events == [] then Run(Waiting, s, [])
    else
      var t := StepSpec(s, id, events[0]);
      match t.control
      case Return(err) => Run(Returned(err), t.store, t.emitted)
      case Continue => Then(t.emitted, LoopSpec(t.store, id, events[1..]))
  }

  /** The whole of `tick` for interval `id` when the events arrive in the
      order `events`. */
  function TickSpec(s: Store, id: int, events: seq<Event>): Run {
    match Fetch(s, id)
    case Failure(err) => Run(Returned(Some(err)), Tally(s), [])
    case Success(entry) => Then([Callback(Start, entry)], LoopSpec(Tally(s), id, events))
  }

  /** Services one event. */
  method Step(repo: MemRepo, id: int, e: Event) returns (control: Control, ghost emitted: seq<Callback>)
    modifies repo
    ensures Transition(control, repo.State(), emitted) == StepSpec(old(repo.State()), id, e)
  {
    var fetched := repo.ByID(id);
    if fetched.Failure? {
      return Return(Some(fetched.error)), [];
    }
    var interval := fetched.value;
    match e {
      case TickerFired =>
        if interval.state == StatePaused {
          return Return(None), [];
        }
        interval := interval.(actualDuration := AddDuration(interval.actualDuration, Second));
        var err := repo.Update(interval);
        if err.Some? {
          return Return(err), [];
        }
        control, emitted := Continue, [Callback(Periodic, interval)];
      case Expired =>
        interval := interval.(state := StateDone);
        emitted := [Callback(End, interval)];
        var err := repo.Update(interval);
        control := Return(err);
      case ContextDone =>
        interval := interval.(state := StateCancelled);
        control, emitted := Continue, [];
    }
  }

  /** Runs interval `id` against the events `events`. Returns the status,
      the expiry deadline computed at entry (none when the entry fetch
      failed) and, as ghost state, the callbacks invoked. */
  method Tick(config: Config.IntervalConfig, id: int, events: seq<Event>)
    returns (status: Status, deadline: Option<int>, ghost trace: seq<Callback>)
    modifies config.repo
    ensures Run(status, config.repo.State(), trace) == TickSpec(old(config.repo.State()), id, events)
    ensures deadline == match Fetch(old(config.repo.State()), id)
                        case Success(entry) => Some(Deadline(entry))
                        case Failure(_) => None
  {
    var repo := config.repo;
    ghost var s0 := repo.State();
    var fetched := repo.ByID(id);
    if fetched.Failure? {
      return Returned(Some(fetched.error)), None, [];
    }
    var interval := fetched.value;
    deadline := Some(Deadline(interval));
    trace := [Callback(Start, interval)];
    status := Waiting;
    var i := 0;
    while i < |events|
      invariant 0 <= i <= |events|
      invariant TickSpec(s0, id, events) == Then(trace, LoopSpec(repo.State(), id, events[i..]))
      invariant status == Waiting
    {
      var control, emitted := Step(repo, id, events[i]);
      assert events[i..][0] == events[i] && events[i..][1..] == events[i + 1..];
      trace := trace + emitted;
      if control.Return? {
        return Returned(control.err), deadline, trace;
      }
      i := i + 1;
    }
  }
}
