/** An in-memory model of the `Repository` interface as far as the runner
    uses it (`ByID` and `Update`). Stored intervals are keyed by id; any
    call may be made to fail by injecting an error for its call number. */
module Repository {
  import opened Wrappers
  import opened Intervals

  /** The abstract state of a repository: the stored intervals, the errors
      injected per call number, and how many calls have been made. */
  datatype Store = Store(intervals: map<int, Interval>, faults: map<nat, Error>, calls: nat)

  /** Every stored interval sits under its own id. */
  predicate WellKeyed(m: map<int, Interval>) {
    forall k | k in m :: m[k].id == k
  }

  /** The error injected for the next call, if any. */
  function Injected(s: Store): Option<Error> {
    if s.calls in s.faults then Some(s.faults[s.calls]) else None
  }

  /** The state after one more call, with the stored intervals unchanged. */
  function Tally(s: Store): Store {
    s.(calls := s.calls + 1)
  }

  /** What `ByID(id)` returns in state `s`. */
  function Fetch(s: Store, id: int): Result<Interval, Error> {
    match Injected(s)
    case Some(e) => Failure(e)
    case None => if id in s.intervals then Success(s.intervals[id]) else Failure(InvalidID)
  }

  /** What `Update(i)` returns in state `s`. */
  function UpdateResult(s: Store, i: Interval): Option<Error> {
    match Injected(s)
    case Some(e) => Some(e)
    case None => if i.id in s.intervals then None else Some(InvalidID)
  }

  /** The state after `Update(i)`: the record under `i.id` is replaced when the
      call succeeds. */
  function AfterUpdate(s: Store, i: Interval): Store {
    if UpdateResult(s, i).None?
    then Tally(s).(intervals := s.intervals[i.id := i])
    else Tally(s)
  }

  /** A successful `Update` replaces exactly the record under the written id;
      a failed one changes no record. */
  lemma UpdateWritesOneRecord(s: Store, i: Interval)
    ensures AfterUpdate(s, i).calls == s.calls + 1 && AfterUpdate(s, i).faults == s.faults
    ensures AfterUpdate(s, i).intervals.Keys == s.intervals.Keys
    ensures UpdateResult(s, i).None? ==> AfterUpdate(s, i).intervals[i.id] == i
    ensures forall k | k in s.intervals && (k != i.id || UpdateResult(s, i).Some?) ::
              AfterUpdate(s, i).intervals[k] == s.intervals[k]
    ensures WellKeyed(s.intervals) ==> WellKeyed(AfterUpdate(s, i).intervals)
  {
  }

  /** A repository held in memory, updated in place by `Update`. */
  class MemRepo {
    var intervals: map<int, Interval>
    var faults: map<nat, Error>
    var calls: nat

    /** The abstract state of this repository. */
    function State(): Store
      reads this
    {
      Store(intervals, faults, calls)
    }

    constructor (intervals: map<int, Interval>, faults: map<nat, Error>)
      ensures State() == Store(intervals, faults, 0)
    {
      this.intervals := intervals;
      this.faults := faults;
      this.calls := 0;
    }

    /** Looks up an interval by id; fails with `InvalidID` when it is absent. */
    method ByID(id: int) returns (r: Result<Interval, Error>)
      modifies this
      ensures r == Fetch(old(State()), id)
      ensures State() == Tally(old(State()))
    {
      if calls in faults {
        r := Failure(faults[calls]);
      } else if id in intervals {
        r := Success(intervals[id]);
      } else {
        r := Failure(InvalidID);
      }
      calls := calls + 1;
    }

    /** Stores `i` under its id; fails with `InvalidID` when no interval has
        that id. */
    method Update(i: Interval) returns (err: Option<Error>)
      modifies this
      ensures err == UpdateResult(old(State()), i)
      ensures State() == AfterUpdate(old(State()), i)
    {
      if calls in faults {
        err := Some(faults[calls]);
      } else if i.id in intervals {
        intervals := intervals[i.id := i];
        err := None;
      } else {
        err := Some(InvalidID);
      }
      calls := calls + 1;
    }
  }
}
