/** One call of `Requester.request`, up to the HTTP dispatch: the block
    run under the lock, taken as a single atomic transition. The clock is
    abstracted into two readings: `now`, read just before pruning, and
    `after`, read when the new timestamp is appended (after any sleep). */
module Request {
  import opened Options
  import opened RequesterState
  import opened Pruning

  /** Indexing the head of an empty timestamp list. */
  datatype Error = IndexError

  datatype Result<+T> = Ok(value: T) | Err(error: Error)

  /** What making room did: how many stale timestamps the pruning loop
      popped, and the sleep taken (if any) before one more, the oldest left,
      was dropped. */
  datatype Room = Room(pruned: nat, sleep: Option<int>) {

    /** How many of the oldest timestamps were forgotten in all. */
    function Dropped(): nat {
      if sleep.Some? then pruned + 1 else pruned
    }
  }

  /** The result of one call. Either way `state` is the limiter afterwards:
      an admitted call also reports how many old timestamps it forgot and
      the sleep it took; a failed one keeps what the pruning loop already
      did to the list before the error was raised. */
  datatype Outcome =
    | Admitted(state: Requester, dropped: nat, sleep: Option<int>)
    | Failed(error: Error, state: Requester)

  /** The time at which the call wakes up: `now`, plus the sleep if any. */
  function Wake(now: int, sleep: Option<int>): int {
    if sleep.Some? then now + sleep.value else now
  }

  /** Making room for one more request under a ceiling. Only when the list
      has reached the ceiling are stale entries pruned, the whole stale
      prefix at once; if the list is still at the ceiling, the call sleeps
      until the oldest entry left leaves the window and then forgets it. */
  function MakeRoom(requests: seq<int>, rqtw: int, timew: int, now: int): (r: Result<Room>)
    requires rqtw != Unlimited
    ensures r.Ok? ==> r.value.Dropped() <= |requests|
    ensures r.Ok? ==> forall i :: 0 <= i < r.value.Dropped() ==>
                        Stale(requests[i], Wake(now, r.value.sleep), timew)
    ensures r.Ok? && |requests| < rqtw ==> r.value == Room(0, None)
    ensures r.Ok? && |requests| >= rqtw ==>
              && (forall i :: 0 <= i < r.value.pruned ==> Stale(requests[i], now, timew))
              && (r.value.pruned < |requests| ==> !Stale(requests[r.value.pruned], now, timew))
              && (r.value.sleep.Some? <==> |requests| - r.value.pruned >= rqtw)
    ensures r.Ok? && r.value.sleep.Some? ==>
              && r.value.pruned < |requests|
              && Wake(now, r.value.sleep) == requests[r.value.pruned] + timew
              && r.value.sleep.value > 0
    ensures r.Ok? && r.value.sleep.None? ==> |requests| - r.value.pruned < rqtw
    ensures r.Err? ==> forall i :: 0 <= i < |requests| ==> Stale(requests[i], now, timew)
  {
    if |requests| >= rqtw then
      var stale := StalePrefix(requests, now, timew);
      if |requests| - stale >= rqtw then
        if stale == |requests| then Err(IndexError)
        else Ok(Room(stale, Some(requests[stale] + timew - now)))
      else Ok(Room(stale, None))
    else Ok(Room(0, None))
  }

  /** The locked part of `request`. An unlimited requester is left exactly
      as it was, count included; a limited one forgets some of its oldest
      timestamps, remembers `after` as its newest and counts the call. A
      failing call has already popped every stale timestamp, leaving the
      list empty, and is not counted. */
  function Step(s: Requester, now: int, after: int): (r: Outcome)
    ensures s.rqtw == Unlimited ==> r == Admitted(s, 0, None)
    ensures r.Admitted? && s.rqtw != Unlimited ==>
              var n := r.state;
              && r.dropped <= |s.requests|
              && n.requests == s.requests[r.dropped..] + [after]
              && n.total == s.total + 1
              && n.rqtw == s.rqtw && n.timew == s.timew
    ensures r.Failed? ==>
              && r.state.requests == []
              && r.state.total == s.total
              && r.state.rqtw == s.rqtw && r.state.timew == s.timew
  {
    if s.rqtw == Unlimited then Admitted(s, 0, None)
    else
      match MakeRoom(s.requests, s.rqtw, s.timew, now)
      case Err(e) => Failed(e, s.(requests := PruneStale(s.requests, now, s.timew)))
      case Ok(room) =>
        var n := s.(requests := s.requests[room.Dropped()..] + [after], total := s.total + 1);
        Admitted(n, room.Dropped(), room.sleep)
  }

  /** A call fails exactly when the ceiling is neither -1 nor positive and
      every remembered timestamp has left the window: the wait is then
      computed from the head of an empty list. */
  lemma StepFailsExactlyWhen(s: Requester, now: int, after: int)
    ensures Step(s, now, after).Failed? <==>
              && s.rqtw != Unlimited
              && s.rqtw <= 0
              && forall i :: 0 <= i < |s.requests| ==> Stale(s.requests[i], now, s.timew)
  {
  }

  /** The first call on a freshly built requester fails exactly when the
      ceiling given is 0 or negative other than -1. */
  lemma FirstCallFailsExactlyWhen(rqtw: Option<int>, timew: Option<int>, now: int, after: int)
    ensures Step(New(rqtw, timew), now, after).Failed? <==>
              rqtw.Some? && rqtw.value != Unlimited && rqtw.value <= 0
  {
    StepFailsExactlyWhen(New(rqtw, timew), now, after);
  }

  /** Any wait the call computes is strictly positive: pruning leaves the
      head of the list inside the window. */
  lemma SleepIsPositive(s: Requester, now: int, after: int)
    requires Step(s, now, after).Admitted? && Step(s, now, after).sleep.Some?
    ensures Step(s, now, after).sleep.value > 0
  {
  }

  /** With a positive ceiling that the list has not exceeded, the call is
      admitted and the list still does not exceed the ceiling. */
  lemma StepKeepsBound(s: Requester, now: int, after: int)
    requires s.rqtw >= 1 && |s.requests| <= s.rqtw
    ensures Step(s, now, after).Admitted?
    ensures |Step(s, now, after).state.requests| <= s.rqtw
  {
  }

  /** With a clock that never runs backwards, the list stays nondecreasing. */
  lemma StepKeepsSorted(s: Requester, now: int, after: int)
    requires Sorted(s.requests)
    requires forall i :: 0 <= i < |s.requests| ==> s.requests[i] <= after
    requires Step(s, now, after).Admitted?
    ensures Sorted(Step(s, now, after).state.requests)
  {
  }

  /** The call sleeps exactly when the list has reached the ceiling and at
      least `rqtw` of its timestamps are still inside the window. */
  lemma {:induction false} SleepsExactlyWhenFull(s: Requester, now: int, after: int)
    requires s.rqtw >= 1 && Sorted(s.requests)
    ensures Step(s, now, after).Admitted?
    ensures Step(s, now, after).sleep.Some? <==>
              |s.requests| >= s.rqtw && |KeepInWindow(s.requests, now, s.timew)| >= s.rqtw
  {
    PruneSortedKeepsExactlyWindow(s.requests, now, s.timew);
  }

  /** A sleeping call wakes exactly when the oldest timestamp it forgets
      leaves the window, and that timestamp was still inside the window
      when the call began. */
  lemma StepSleepsUntilOldestLeaves(s: Requester, now: int, after: int)
    requires Step(s, now, after).Admitted? && Step(s, now, after).sleep.Some?
    ensures 1 <= Step(s, now, after).dropped <= |s.requests|
    ensures Wake(now, Step(s, now, after).sleep) == s.requests[Step(s, now, after).dropped - 1] + s.timew
    ensures !Stale(s.requests[Step(s, now, after).dropped - 1], now, s.timew)
  {
  }

  /** A failed call leaves the limiter in a state where the next call fails
      too: the list is empty and the ceiling unchanged. */
  lemma FailureRepeats(s: Requester, now: int, after: int, now2: int, after2: int)
    requires Step(s, now, after).Failed?
    ensures Step(Step(s, now, after).state, now2, after2).Failed?
  {
    StepFailsExactlyWhen(s, now, after);
    StepFailsExactlyWhen(Step(s, now, after).state, now2, after2);
  }
}
