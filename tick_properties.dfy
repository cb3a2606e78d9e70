/** What `tick` promises, stated over its specification functions. */
module RunnerProperties {
  import opened Wrappers
  import opened Intervals
  import opened Repository
  import opened Runner

  // ---------------------------------------------------------------------
  // One event at a time.

  /** A failed fetch ends the loop with exactly that error, writing nothing
      and invoking no callback, whatever the event. */
  lemma StepFetchFailure(s: Store, id: int, e: Event)
    requires Fetch(s, id).Failure?
    ensures StepSpec(s, id, e) == Transition(Return(Some(Fetch(s, id).error)), Tally(s), [])
  {
  }

  /** A tick that finds the interval paused returns nil and writes nothing. */
  lemma StepTickerPaused(s: Store, id: int)
    requires Fetch(s, id).Success? && Fetch(s, id).value.state == StatePaused
    ensures StepSpec(s, id, TickerFired) == Transition(Return(None), Tally(s), [])
  {
  }

  /** A tick that finds the interval not paused adds one second to its
      elapsed time and changes no other field. When the update is stored,
      `periodic` sees the stored record and the loop goes on; when it fails,
      `tick` returns that error and nothing is stored. */
  lemma StepTickerAdvances(s: Store, id: int)
    requires WellKeyed(s.intervals)
    requires Fetch(s, id).Success? && Fetch(s, id).value.state != StatePaused
    ensures var t := StepSpec(s, id, TickerFired);
      var i := s.intervals[id];
      var fault := Injected(Tally(s));
      && t.store.intervals.Keys == s.intervals.Keys
      && (fault.None? ==>
            && t.control == Continue
            && t.store.intervals[id].actualDuration == AddDuration(i.actualDuration, Second)
            && t.store.intervals[id].(actualDuration := i.actualDuration) == i
            && (forall k | k in s.intervals && k != id :: t.store.intervals[k] == s.intervals[k])
            && t.emitted == [Callback(Periodic, t.store.intervals[id])])
      && (fault.Some? ==>
            && t.control == Return(fault)
            && t.store.intervals == s.intervals
            && t.emitted == [])
  {
  }

  /** Without overflow, a tick adds exactly one second. */
  lemma TickAddsOneSecond(d: int)
    requires MinInt64 <= d && d + Second <= MaxInt64
    ensures AddDuration(d, Second) == d + Second
  {
  }

  /** On expiry the interval is marked done with every other field kept;
      `end` sees that record whether or not the update then succeeds, and
      `tick` returns exactly the update's error. */
  lemma StepExpired(s: Store, id: int)
    requires WellKeyed(s.intervals)
    requires Fetch(s, id).Success?
    ensures var t := StepSpec(s, id, Expired);
      var done := s.intervals[id].(state := StateDone);
      var fault := Injected(Tally(s));
      && t.emitted == [Callback(End, done)]
      && t.control == Return(fault)
      && (fault.None? ==> t.store.intervals == s.intervals[id := done])
      && (fault.Some? ==> t.store.intervals == s.intervals)
  {
  }

  /** Cancellation fetches the interval but writes nothing, invokes no
      callback and does not end the loop. */
  lemma StepContextDone(s: Store, id: int)
    requires Fetch(s, id).Success?
    ensures StepSpec(s, id, ContextDone) == Transition(Continue, Tally(s), [])
  {
  }

  // ---------------------------------------------------------------------
  // What a run keeps.

  /** `b` differs from `a` at most in the elapsed time and state of each
      record (the state only by becoming done) and changes no record but
      the one under `id`. */
  predicate Preserved(a: map<int, Interval>, b: map<int, Interval>, id: int) {
    && a.Keys == b.Keys
    && (forall k | k in a ::
          && b[k].id == a[k].id
          && b[k].startTime == a[k].startTime
          && b[k].plannedDuration == a[k].plannedDuration
          && b[k].category == a[k].category
          && (b[k].state == a[k].state || b[k].state == StateDone))
    && (forall k | k in a && k != id :: b[k] == a[k])
  }

  lemma PreservedTransitive(a: map<int, Interval>, b: map<int, Interval>, c: map<int, Interval>, id: int)
    requires Preserved(a, b, id) && Preserved(b, c, id)
    ensures Preserved(a, c, id)
  {
  }

  lemma StepPreserves(s: Store, id: int, e: Event)
    requires WellKeyed(s.intervals)
    ensures var t := StepSpec(s, id, e);
      WellKeyed(t.store.intervals) && Preserved(s.intervals, t.store.intervals, id) &&
      t.store.faults == s.faults
  {
  }

  /** Over a whole loop, ids, start times, planned durations and categories
      never change, no record other than `id` is touched, and the state can
      only become done. */
  lemma {:induction false} LoopPreserves(s: Store, id: int, events: seq<Event>)
    requires WellKeyed(s.intervals)
    ensures var r := LoopSpec(s, id, events);
      WellKeyed(r.store.intervals) && Preserved(s.intervals, r.store.intervals, id) &&
      r.store.faults == s.faults
    decreases |events|
  {
    if events != [] {
      var t := StepSpec(s, id, events[0]);
      StepPreserves(s, id, events[0]);
      if t.control.Continue? {
        LoopPreserves(t.store, id, events[1..]);
        PreservedTransitive(s.intervals, t.store.intervals, LoopSpec(t.store, id, events[1..]).store.intervals, id);
      }
    }
  }

  lemma TickPreserves(s: Store, id: int, events: seq<Event>)
    requires WellKeyed(s.intervals)
    ensures var r := TickSpec(s, id, events);
      WellKeyed(r.store.intervals) && Preserved(s.intervals, r.store.intervals, id)
  {
    if Fetch(s, id).Success? {
      LoopPreserves(Tally(s), id, events);
    }
  }

  /** The number of `periodic` invocations in a trace. */
  function Ticks(trace: seq<Callback>): (n: nat)
    ensures n <= |trace|
  {
    if trace == [] then 0
    else (if trace[0].hook == Periodic then 1 else 0) + Ticks(trace[1..])
  }

  lemma {:induction false} TicksAppend(a: seq<Callback>, b: seq<Callback>)
    ensures Ticks(a + b) == Ticks(a) + Ticks(b)
  {
    if a == [] {
      assert a + b == b;
    } else {
      assert (a + b)[0] == a[0] && (a + b)[1..] == a[1..] + b;
      TicksAppend(a[1..], b);
    }
  }

  /** Without overflow, the stored elapsed time grows by exactly one second
      per `periodic` invocation, so it never decreases during a run. */
  lemma {:induction false} LoopCountsTicks(s: Store, id: int, events: seq<Event>)
    requires WellKeyed(s.intervals) && id in s.intervals
    requires MinInt64 <= s.intervals[id].actualDuration
    requires s.intervals[id].actualDuration + |events| * Second <= MaxInt64
    ensures var r := LoopSpec(s, id, events);
      && id in r.store.intervals
      && Ticks(r.trace) <= |events|
      && r.store.intervals[id].actualDuration == s.intervals[id].actualDuration + Ticks(r.trace) * Second
    decreases |events|
  {
    if events != [] {
      var t := StepSpec(s, id, events[0]);
      StepPreserves(s, id, events[0]);
      var a := s.intervals[id].actualDuration;
      assert Ticks(t.emitted) <= 1;
      assert t.store.intervals[id].actualDuration == a + Ticks(t.emitted) * Second;
      if t.control.Continue? {
        var rest := LoopSpec(t.store, id, events[1..]);
        LoopCountsTicks(t.store, id, events[1..]);
        TicksAppend(t.emitted, rest.trace);
      }
    }
  }

  /** The error repository call number `call` reports when it fails: the
      injected fault, or `InvalidID` for an absent record. */
  function CallError(s: Store, call: nat): Error {
    if call in s.faults then s.faults[call] else InvalidID
  }

  /** The error an iteration returns is the one its last repository call
      reported. */
  lemma StepErrorIsLastCall(s: Store, id: int, e: Event)
    ensures var t := StepSpec(s, id, e);
      && t.store.faults == s.faults && t.store.calls > s.calls
      && (t.control.Return? && t.control.err.Some? ==> t.control.err.value == CallError(s, t.store.calls - 1))
  {
  }

  /** The loop makes repository calls and no others, and the error it returns
      is the one reported by the last call it made. */
  lemma {:induction false} LoopErrorIsLastCall(s: Store, id: int, events: seq<Event>)
    ensures var r := LoopSpec(s, id, events);
      && r.store.faults == s.faults && r.store.calls >= s.calls
      && (r.status.Returned? && r.status.err.Some? ==>
            r.store.calls > s.calls && r.status.err.value == CallError(s, r.store.calls - 1))
    decreases |events|
  {
    if events != [] {
      var t := StepSpec(s, id, events[0]);
      StepErrorIsLastCall(s, id, events[0]);
      if t.control.Continue? {
        LoopErrorIsLastCall(t.store, id, events[1..]);
      }
    }
  }

  // ---------------------------------------------------------------------
  // Runs and event sequences.

  /** Events after the one that ends the loop are never looked at; a loop
      that is still waiting after `a` carries on with `b` from where it was. */
  lemma {:induction false} LoopAppend(s: Store, id: int, a: seq<Event>, b: seq<Event>)
    ensures var r := LoopSpec(s, id, a);
      LoopSpec(s, id, a + b) == if r.status.Returned? then r else Then(r.trace, LoopSpec(r.store, id, b))
    decreases |a|
  {
    if a == [] {
      assert a + b == b;
    } else {
      assert (a + b)[0] == a[0] && (a + b)[1..] == a[1..] + b;
      var t := StepSpec(s, id, a[0]);
      if t.control.Continue? {
        LoopAppend(t.store, id, a[1..], b);
      }
    }
  }

  /** A failed fetch at entry returns that error before `start` is called. */
  lemma TickEntryFailure(s: Store, id: int, events: seq<Event>)
    requires Fetch(s, id).Failure?
    ensures TickSpec(s, id, events) == Run(Returned(Some(Fetch(s, id).error)), Tally(s), [])
  {
  }

  /** Otherwise `start` is called first, with the entry snapshot. */
  lemma TickStartsWithEntry(s: Store, id: int, events: seq<Event>)
    requires Fetch(s, id).Success?
    ensures var r := TickSpec(s, id, events);
      |r.trace| >= 1 && r.trace[0] == Callback(Start, s.intervals[id])
  {
  }

  /** A pause stored before entry is noticed only at the first tick: `start`
      has already been called by then. */
  lemma TickPausedAtEntry(s: Store, id: int, rest: seq<Event>)
    requires Injected(s).None? && Injected(Tally(s)).None?
    requires id in s.intervals && s.intervals[id].state == StatePaused
    ensures TickSpec(s, id, [TickerFired] + rest) ==
      Run(Returned(None), Tally(Tally(s)), [Callback(Start, s.intervals[id])])
  {
    assert ([TickerFired] + rest)[0] == TickerFired;
  }

  // ---------------------------------------------------------------------
  // Scenarios.

  /** `k` copies of event `e`. */
  function Repeat(e: Event, k: nat): (r: seq<Event>)
    ensures |r| == k
  {
    if k == 0 then [] else [e] + Repeat(e, k - 1)
  }

  /** A tick against a repository that does not fail. */
  lemma TickWithoutFaults(s: Store, id: int)
    requires s.faults == map[] && WellKeyed(s.intervals) && id in s.intervals
    requires s.intervals[id].state != StatePaused
    requires MinInt64 <= s.intervals[id].actualDuration
    requires s.intervals[id].actualDuration + Second <= MaxInt64
    ensures var i1 := s.intervals[id].(actualDuration := s.intervals[id].actualDuration + Second);
      StepSpec(s, id, TickerFired) ==
        Transition(Continue, s.(intervals := s.intervals[id := i1], calls := s.calls + 2), [Callback(Periodic, i1)])
  {
  }

  /** The `periodic` invocations of `k` undisturbed ticks from `i`. */
  function TickTrace(i: Interval, k: nat): seq<Callback>
    decreases k
  {
    if k == 0 then []
    else
      var next := i.(actualDuration := i.actualDuration + Second);
      [Callback(Periodic, next)] + TickTrace(next, k - 1)
  }

  /** The `j`-th of those invocations sees `j + 1` seconds added. */
  lemma {:induction false} TickTraceAt(i: Interval, k: nat, j: nat)
    requires j < k
    ensures |TickTrace(i, k)| == k
    ensures TickTrace(i, k)[j] == Callback(Periodic, i.(actualDuration := i.actualDuration + (j + 1) * Second))
    decreases k
  {
    var next := i.(actualDuration := i.actualDuration + Second);
    if j > 0 {
      TickTraceAt(next, k - 1, j - 1);
    } else if k > 1 {
      TickTraceAt(next, k - 1, 0);
    }
  }

  /** A running interval left alone against a repository that never fails:
      `k` ticks, each stored and reported to `periodic`, then expiry, which
      hands `end` the done record and returns nil. */
  lemma {:induction false} UninterruptedRun(s: Store, id: int, k: nat)
    requires s.faults == map[] && WellKeyed(s.intervals) && id in s.intervals
    requires s.intervals[id].state != StatePaused
    requires MinInt64 <= s.intervals[id].actualDuration
    requires s.intervals[id].actualDuration + k * Second <= MaxInt64
    ensures var i := s.intervals[id];
      var done := i.(actualDuration := i.actualDuration + k * Second, state := StateDone);
      LoopSpec(s, id, Repeat(TickerFired, k) + [Expired]) ==
        Run(Returned(None),
            s.(intervals := s.intervals[id := done], calls := s.calls + 2 * k + 2),
            TickTrace(i, k) + [Callback(End, done)])
    decreases k
  {
    var events := Repeat(TickerFired, k) + [Expired];
    if k == 0 {
      assert events == [Expired];
    } else {
      var i := s.intervals[id];
      assert events[0] == TickerFired && events[1..] == Repeat(TickerFired, k - 1) + [Expired];
      TickWithoutFaults(s, id);
      var t := StepSpec(s, id, TickerFired);
      assert WellKeyed(t.store.intervals);
      UninterruptedRun(t.store, id, k - 1);
    }
  }

  /** The interval of three seconds from scratch: with the tie at the third
      second going to the expiry timer, `periodic` runs at one and two
      seconds, and `end` sees the interval done with two seconds elapsed. */
  lemma ThreeSecondPomodoro(start: Time)
    ensures var i := Interval(1, start, 3 * Second, 0, CategoryPomodoro, StateRunning);
      var s := Store(map[1 := i], map[], 0);
      TickSpec(s, 1, [TickerFired, TickerFired, Expired]) ==
        Run(Returned(None),
            Store(map[1 := i.(actualDuration := 2 * Second, state := StateDone)], map[], 7),
            [Callback(Start, i),
             Callback(Periodic, i.(actualDuration := Second)),
             Callback(Periodic, i.(actualDuration := 2 * Second)),
             Callback(End, i.(actualDuration := 2 * Second, state := StateDone))])
  {
    var i := Interval(1, start, 3 * Second, 0, CategoryPomodoro, StateRunning);
    var s := Store(map[1 := i], map[], 0);
    UninterruptedRun(Tally(s), 1, 2);
    assert Repeat(TickerFired, 2) + [Expired] == [TickerFired, TickerFired, Expired];
    assert map[1 := i][1 := i.(actualDuration := 2 * Second, state := StateDone)] ==
      map[1 := i.(actualDuration := 2 * Second, state := StateDone)];
  }

  /** Cancellation does not stop the runner: a tick after it still advances
      the interval and the loop keeps waiting. */
  lemma CancelKeepsTicking(s: Store, id: int)
    requires s.faults == map[] && WellKeyed(s.intervals) && id in s.intervals
    requires s.intervals[id].state != StatePaused
    ensures var i := s.intervals[id];
      var next := i.(actualDuration := AddDuration(i.actualDuration, Second));
      LoopSpec(s, id, [ContextDone, TickerFired]) ==
        Run(Waiting, s.(intervals := s.intervals[id := next], calls := s.calls + 3), [Callback(Periodic, next)])
  {
    assert [ContextDone, TickerFired][1..] == [TickerFired];
    assert [TickerFired][1..] == [];
  }
}
