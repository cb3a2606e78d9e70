/** `nextCategory`: which category the next interval gets, decided from the
    repository's `Last()` and `Breaks(3)` results. */
module Category {
  import opened Wrappers
  import opened Intervals

  /** The pair `nextCategory` returns: a category, and an error that is
      `None` when the call succeeded. */
  datatype Selection = Selection(category: string, err: Option<Error>)

  /** The loop over the recent breaks: whether any of them is a long break. */
  function HasLongBreak(breaks: seq<Interval>): (r: bool)
    ensures r <==> exists k :: 0 <= k < |breaks| && breaks[k].category == CategoryLongBreak
  {
    if breaks == [] then false
    else if breaks[0].category == CategoryLongBreak then true
    else HasLongBreak(breaks[1..])
  }

  /** Whether `nextCategory` goes on to ask for the recent breaks after
      seeing the result of `Last()`. */
  predicate ConsultsBreaks(last: Result<Interval, Error>) {
    last.Success? && !IsBreak(last.value.category)
  }

  /** The category after the last interval `last`, given the three most
      recent breaks `breaks`. Only `NoIntervals` from `Last()` is absorbed;
      every other error is returned with an empty category. */
  function NextCategory(last: Result<Interval, Error>, breaks: Result<seq<Interval>, Error>): (r: Selection)
    ensures r.err.None? ==> IsCategory(r.category)
    ensures r.err.Some? ==> r.category == ""
    ensures r.err.Some? ==>
      (last.Failure? && last.error != NoIntervals && r.err == Some(last.error)) ||
      (ConsultsBreaks(last) && breaks.Failure? && r.err == Some(breaks.error))
  {
    match last
    case Failure(e) =>
      if e == NoIntervals then Selection(CategoryPomodoro, None) else Selection("", Some(e))
    case Success(lastInterval) =>
      if lastInterval.category == CategoryLongBreak || lastInterval.category == CategoryShortBreak then
        Selection(CategoryPomodoro, None)
      else
        match breaks
        case Failure(e) => Selection("", Some(e))
        case Success(lastBreaks) =>
          if |lastBreaks| < 3 then Selection(CategoryShortBreak, None)
          else if HasLongBreak(lastBreaks) then Selection(CategoryShortBreak, None)
          else Selection(CategoryLongBreak, None)
  }

  /** The cases decided by `Last()` alone. */
  lemma NextCategoryFromLast(last: Result<Interval, Error>, breaks: Result<seq<Interval>, Error>)
    ensures last == Failure(NoIntervals) ==> NextCategory(last, breaks) == Selection(CategoryPomodoro, None)
    ensures last.Failure? && last.error != NoIntervals ==> NextCategory(last, breaks) == Selection("", Some(last.error))
    ensures last.Success? && IsBreak(last.value.category) ==> NextCategory(last, breaks) == Selection(CategoryPomodoro, None)
  {
  }

  /** After a work interval (or any interval that is not a break) the recent
      breaks decide. */
  lemma NextCategoryFromBreaks(last: Result<Interval, Error>, breaks: Result<seq<Interval>, Error>)
    requires ConsultsBreaks(last)
    ensures breaks.Failure? ==> NextCategory(last, breaks) == Selection("", Some(breaks.error))
    ensures breaks.Success? && |breaks.value| < 3 ==> NextCategory(last, breaks) == Selection(CategoryShortBreak, None)
    ensures breaks.Success? && (exists k :: 0 <= k < |breaks.value| && breaks.value[k].category == CategoryLongBreak) ==>
      NextCategory(last, breaks) == Selection(CategoryShortBreak, None)
    ensures breaks.Success? && |breaks.value| >= 3 && (forall k :: 0 <= k < |breaks.value| ==> breaks.value[k].category != CategoryLongBreak) ==>
      NextCategory(last, breaks) == Selection(CategoryLongBreak, None)
  {
  }

  /** A long break is chosen exactly when the last interval was not a break
      and at least three breaks were returned, none of them long. */
  lemma LongBreakExactly(last: Result<Interval, Error>, breaks: Result<seq<Interval>, Error>)
    ensures NextCategory(last, breaks).category == CategoryLongBreak <==>
      ConsultsBreaks(last) && breaks.Success? && |breaks.value| >= 3 &&
      forall k :: 0 <= k < |breaks.value| ==> breaks.value[k].category != CategoryLongBreak
  {
  }

  /** When `Last()` failed or returned a break, the result of `Breaks(3)` is
      not looked at. */
  lemma BreaksNotConsulted(last: Result<Interval, Error>, b1: Result<seq<Interval>, Error>, b2: Result<seq<Interval>, Error>)
    requires !ConsultsBreaks(last)
    ensures NextCategory(last, b1) == NextCategory(last, b2)
  {
  }

  // ---------------------------------------------------------------------
  // The rotation the selector produces over a history of intervals.

  /** What `Last()` answers for a history, oldest interval first. */
  function LastOf(h: seq<Interval>): Result<Interval, Error> {
    if h == [] then Failure(NoIntervals) else Success(h[|h| - 1])
  }

  /** What `Breaks(n)` answers for a history: up to `n` break intervals, the
      most recent first. */
  function BreaksOf(h: seq<Interval>, n: nat): (r: seq<Interval>)
    ensures |r| <= n
    ensures forall k | 0 <= k < |r| :: IsBreak(r[k].category)
    decreases |h|
  {
    if n == 0 || h == [] then []
    else if IsBreak(h[|h| - 1].category) then [h[|h| - 1]] + BreaksOf(h[..|h| - 1], n - 1)
    else BreaksOf(h[..|h| - 1], n)
  }

  /** `s` in reverse order. */
  function Reversed(s: seq<Interval>): (r: seq<Interval>)
    ensures |r| == |s|
  {
    if s == [] then [] else Reversed(s[1..]) + [s[0]]
  }

  /** The break intervals of `s`, in the order of `s`. */
  function OnlyBreaks(s: seq<Interval>): seq<Interval> {
    if s == [] then [] else (if IsBreak(s[0].category) then [s[0]] else []) + OnlyBreaks(s[1..])
  }

  /** The first `n` elements of `s`, or all of `s` when it is shorter. */
  function Take(s: seq<Interval>, n: nat): seq<Interval> {
    if n <= |s| then s[..n] else s
  }

  /** Reversal moves the last element to the front. */
  lemma {:induction false} ReversedLast(s: seq<Interval>)
    requires s != []
    ensures Reversed(s) == [s[|s| - 1]] + Reversed(s[..|s| - 1])
    decreases |s|
  {
    if |s| > 1 {
      var t := s[1..];
      ReversedLast(t);
      assert t[|t| - 1] == s[|s| - 1];
      assert t[..|t| - 1] == s[..|s| - 1][1..];
      assert s[..|s| - 1][0] == s[0];
    } else {
      assert s[..0] == [];
    }
  }

  /** `BreaksOf(h, n)` is what `Breaks(n)` is meant to answer: the breaks of
      the history, newest first, cut to the first `n` (all of them when
      there are fewer). */
  lemma {:induction false} BreaksOfIsRecentBreaks(h: seq<Interval>, n: nat)
    ensures BreaksOf(h, n) == Take(OnlyBreaks(Reversed(h)), n)
    decreases |h|
  {
    if h == [] {
    } else if n == 0 {
    } else {
      var x, f := h[|h| - 1], h[..|h| - 1];
      var rest := Reversed(f);
      ReversedLast(h);
      assert ([x] + rest)[0] == x && ([x] + rest)[1..] == rest;
      BreaksOfIsRecentBreaks(f, if IsBreak(x.category) then n - 1 else n);
      if IsBreak(x.category) {
        var b := OnlyBreaks(rest);
        assert OnlyBreaks([x] + rest) == [x] + b;
        assert Take([x] + b, n) == [x] + Take(b, n - 1);
      } else {
        assert OnlyBreaks([x] + rest) == [] + OnlyBreaks(rest);
        assert [] + OnlyBreaks(rest) == OnlyBreaks(rest);
      }
    }
  }

  /** `nextCategory` against a repository holding history `h`. */
  function SelectFor(h: seq<Interval>): Selection {
    NextCategory(LastOf(h), Success(BreaksOf(h, 3)))
  }

  /** An interval of category `c`; the other fields play no part in the
      selection. */
  function Session(c: string, id: int): Interval {
    Interval(id, Time(0), 0, 0, c, StateDone)
  }

  /** The history made of `n` intervals, each created with the category
      `nextCategory` chose for the history before it. */
  function Rotation(n: nat): (h: seq<Interval>)
    ensures |h| == n
  {
    if n == 0 then []
    else var h := Rotation(n - 1); h + [Session(SelectFor(h).category, n - 1)]
  }

  /** Four work intervals with short breaks between them, then a long break. */
  const Cycle: seq<string> := [
    CategoryPomodoro, CategoryShortBreak, CategoryPomodoro, CategoryShortBreak,
    CategoryPomodoro, CategoryShortBreak, CategoryPomodoro, CategoryLongBreak]

  /** The category at position `k` of the endlessly repeated cycle. */
  function CycleAt(k: nat): string {
    if k >= 8 then CycleAt(k - 8)
    else if k == 7 then CategoryLongBreak
    else if k == 1 || k == 3 || k == 5 then CategoryShortBreak
    else CategoryPomodoro
  }

  lemma {:induction false} CycleAtIsCycle(k: nat)
    ensures CycleAt(k) == Cycle[k % 8]
  {
    if k >= 8 {
      CycleAtIsCycle(k - 8);
    }
  }

  /** How many breaks back the most recent long break lies, for the history
      that ends in work interval number `p` (counting from 0): `p` modulo 4. */
  function Phase(p: nat): (r: nat)
    ensures r < 4 && r <= p
  {
    if p < 4 then p else Phase(p - 4)
  }

  lemma {:induction false} PhasePredecessor(p: nat)
    requires p > 0
    ensures Phase(p) == 0 ==> Phase(p - 1) == 3
    ensures Phase(p) != 0 ==> Phase(p - 1) == Phase(p) - 1
  {
    if p >= 5 {
      PhasePredecessor(p - 4);
    }
  }

  /** Every interval of `h` has the category of its position in the cycle. */
  predicate FollowsCycle(h: seq<Interval>)
    decreases |h|
  {
    h == [] || (FollowsCycle(h[..|h| - 1]) && h[|h| - 1].category == CycleAt(|h| - 1))
  }

  lemma {:induction false} FollowsCycleAt(h: seq<Interval>, k: nat)
    requires FollowsCycle(h) && k < |h|
    ensures h[k].category == CycleAt(k)
  {
    if k < |h| - 1 {
      FollowsCycleAt(h[..|h| - 1], k);
    }
  }

  /** Position `k == 2 * q` of the cycle is work. */
  lemma {:induction false} EvenPositionIsWork(k: nat, q: nat)
    requires k == 2 * q
    ensures CycleAt(k) == CategoryPomodoro
  {
    if k >= 8 {
      EvenPositionIsWork(k - 8, q - 4);
    }
  }

  /** Position `k == 2 * q + 1` of the cycle is a break, and a long one
      exactly when `q` is 3 modulo 4. */
  lemma {:induction false} OddPositionIsBreak(k: nat, q: nat)
    requires k == 2 * q + 1
    ensures IsBreak(CycleAt(k))
    ensures CycleAt(k) == CategoryLongBreak <==> Phase(q) == 3
  {
    if k >= 8 {
      OddPositionIsBreak(k - 8, q - 4);
    }
  }

  /** Two steps back through a history ending in a work interval that is
      preceded by a break. */
  lemma BreaksOfAfterWork(h: seq<Interval>, n: nat)
    requires |h| >= 2 && n > 0
    requires !IsBreak(h[|h| - 1].category) && IsBreak(h[|h| - 2].category)
    ensures BreaksOf(h, n) == [h[|h| - 2]] + BreaksOf(h[..|h| - 2], n - 1)
  {
    var h1 := h[..|h| - 1];
    assert BreaksOf(h, n) == BreaksOf(h1, n);
    assert h1[|h1| - 1] == h[|h| - 2];
    assert h1[..|h1| - 1] == h[..|h| - 2];
  }

  /** The last two positions of a cycle-following history of odd length
      `2 * p + 1`: work, preceded by a break that is long exactly when
      `Phase(p - 1) == 3`. */
  lemma CycleTail(h: seq<Interval>, p: nat)
    requires FollowsCycle(h) && |h| == 2 * p + 1 && p > 0
    ensures FollowsCycle(h[..2 * p - 1])
    ensures !IsBreak(h[2 * p].category) && IsBreak(h[2 * p - 1].category)
    ensures h[2 * p - 1].category == CategoryLongBreak <==> Phase(p - 1) == 3
  {
    var h1 := h[..2 * p];
    assert h[..|h| - 1] == h1 && h1[..|h1| - 1] == h[..2 * p - 1];
    assert h1[2 * p - 1] == h[2 * p - 1];
    EvenPositionIsWork(2 * p, p);
    OddPositionIsBreak(2 * p - 1, p - 1);
  }

  /** In a history of odd length `2 * p + 1` that follows the cycle, there
      are `p` breaks, one before every work interval but the first. */
  lemma {:induction false} BreaksOfCycleLength(h: seq<Interval>, p: nat, n: nat)
    requires FollowsCycle(h) && |h| == 2 * p + 1
    ensures |BreaksOf(h, n)| == if n <= p then n else p
  {
    if n == 0 {
    } else if p == 0 {
      EvenPositionIsWork(0, 0);
      assert h[..0] == [];
    } else {
      CycleTail(h, p);
      BreaksOfAfterWork(h, n);
      BreaksOfCycleLength(h[..2 * p - 1], p - 1, n - 1);
    }
  }

  /** One step back: putting the break at position `2 * p - 1` in front
      moves the most recent long break one place further back. */
  lemma LongBreakStep(b: seq<Interval>, x: Interval, b2: seq<Interval>, p: nat, n: nat)
    requires p > 0 && n > 0 && b == [x] + b2
    requires x.category == CategoryLongBreak <==> Phase(p - 1) == 3
    requires HasLongBreak(b2) <==> Phase(p - 1) < n - 1 && Phase(p - 1) < p - 1
    ensures HasLongBreak(b) <==> Phase(p) < n && Phase(p) < p
  {
    assert b[0] == x && b[1..] == b2;
    PhasePredecessor(p);
  }

  /** In a history of odd length `2 * p + 1` that follows the cycle, the
      most recent long break is break number `Phase(p)` counting back from
      the newest, so the `n` most recent breaks contain one exactly when
      `Phase(p) < n` and there are more than `Phase(p)` breaks. */
  lemma {:induction false} BreaksOfCycleLong(h: seq<Interval>, p: nat, n: nat)
    requires FollowsCycle(h) && |h| == 2 * p + 1
    ensures HasLongBreak(BreaksOf(h, n)) <==> Phase(p) < n && Phase(p) < p
  {
    if n == 0 {
    } else if p == 0 {
      EvenPositionIsWork(0, 0);
      assert h[..0] == [];
    } else {
      CycleTail(h, p);
      BreaksOfAfterWork(h, n);
      var h2 := h[..2 * p - 1];
      BreaksOfCycleLong(h2, p - 1, n - 1);
      LongBreakStep(BreaksOf(h, n), h[2 * p - 1], BreaksOf(h2, n - 1), p, n);
    }
  }

  /** On a history that follows the cycle, the selector continues it. */
  lemma SelectContinuesCycle(h: seq<Interval>)
    requires FollowsCycle(h)
    ensures SelectFor(h) == Selection(CycleAt(|h|), None)
  {
    var m := |h|;
    if m == 0 {
    } else {
      var p := m / 2;
      assert h[|h| - 1].category == CycleAt(m - 1);
      if m == 2 * p {
        OddPositionIsBreak(m - 1, p - 1);
        EvenPositionIsWork(m, p);
      } else {
        EvenPositionIsWork(m - 1, p);
        OddPositionIsBreak(m, p);
        BreaksOfCycleLength(h, p, 3);
        BreaksOfCycleLong(h, p, 3);
      }
    }
  }

  /** Selecting categories one after another from an empty history gives
      the classic rhythm: after each work interval a short break, and after
      every fourth work interval a long one. */
  lemma {:induction false} RotationFollowsCycle(n: nat)
    ensures forall k | 0 <= k < n :: Rotation(n)[k].category == Cycle[k % 8]
    ensures FollowsCycle(Rotation(n))
  {
    if n > 0 {
      RotationFollowsCycle(n - 1);
      SelectContinuesCycle(Rotation(n - 1));
      assert Rotation(n)[..n - 1] == Rotation(n - 1);
    }
    forall k | 0 <= k < n ensures Rotation(n)[k].category == Cycle[k % 8] {
      FollowsCycleAt(Rotation(n), k);
      CycleAtIsCycle(k);
    }
  }
}
