/** The window guarantee over a sequence of calls: with a clock that never
    runs backwards and sleeps that last at least as long as asked, any two
    admitted requests `rqtw` or more places apart are at least `timew`
    ticks apart, so no window of `timew` ticks admits more than `rqtw`. */
module Window {
  import opened Options
  import opened RequesterState
  import opened Pruning
  import opened Request

  /** One call to `request`: the clock reading before pruning and the one
      taken when the timestamp is appended. */
  datatype Call = Call(now: int, after: int)

  /** The outcome of a run of calls: the final state and the timestamps
      admitted under a ceiling, in order. A failed call admits nothing and
      the run goes on from the state it left, as a caller that catches the
      error and keeps using the limiter would. */
  datatype Run = Run(state: Requester, admitted: seq<int>)

  /** Runs the calls one after the other, each as one atomic step. */
  function RunCalls(s: Requester, calls: seq<Call>): (r: Run)
    ensures r.state.total == s.total + |r.admitted|
    ensures |r.admitted| <= |calls|
    ensures r.state.rqtw == s.rqtw && r.state.timew == s.timew
    ensures s.rqtw == Unlimited ==> r.state == s && r.admitted == []
    decreases |calls|
  {
    if calls == [] then Run(s, [])
    else
      var out := Step(s, calls[0].now, calls[0].after);
      var appended := if out.Admitted? && s.rqtw != Unlimited then [calls[0].after] else [];
      var rest := RunCalls(out.state, calls[1..]);
      Run(rest.state, appended + rest.admitted)
  }

  /** The clock never runs backwards, starting from `clock`, and every sleep
      lasts at least as long as the call asked for. */
  predicate HonestClock(s: Requester, clock: int, calls: seq<Call>)
    decreases |calls|
  {
    calls == [] ||
    (var c := calls[0];
     var out := Step(s, c.now, c.after);
     && clock <= c.now <= c.after
     && (out.Admitted? ==> Wake(c.now, out.sleep) <= c.after)
     && HonestClock(out.state, c.after, calls[1..]))
  }

  /** Admissions `rqtw` or more places apart are at least `timew` apart. */
  predicate Spaced(admitted: seq<int>, rqtw: int, timew: int) {
    forall i, j :: 0 <= i < j < |admitted| && j - i >= rqtw ==> admitted[j] - admitted[i] >= timew
  }

  /** `hist` is every timestamp admitted so far and `clock` the latest clock
      reading: the remembered list is the newest part of the history, within
      the ceiling; everything forgotten has left the window by `clock`. */
  predicate Tracks(s: Requester, hist: seq<int>, clock: int) {
    && s.rqtw >= 1
    && |s.requests| <= s.rqtw
    && |s.requests| <= |hist|
    && s.requests == hist[|hist| - |s.requests|..]
    && Sorted(hist)
    && (forall i :: 0 <= i < |hist| ==> hist[i] <= clock)
    && (forall i :: 0 <= i < |hist| - |s.requests| ==> Stale(hist[i], clock, s.timew))
    && Spaced(hist, s.rqtw, s.timew)
  }

  /** A fresh limited requester tracks the empty history. */
  lemma NewTracks(rqtw: int, timew: Option<int>, clock: int)
    requires rqtw >= 1
    ensures Tracks(New(Some(rqtw), timew), [], clock)
  {
  }

  /** What an honest call under a positive ceiling does to the list: it
      keeps a suffix shorter than the ceiling, every entry it forgets has
      left the window by `after`, and it appends `after`. */
  lemma StepForgetsOnlyStale(s: Requester, now: int, after: int) returns (kept: seq<int>)
    requires s.rqtw >= 1 && |s.requests| <= s.rqtw
    requires now <= after
    requires Step(s, now, after).Admitted? ==> Wake(now, Step(s, now, after).sleep) <= after
    ensures Step(s, now, after).Admitted?
    ensures var n := Step(s, now, after).state;
            && n.requests == kept + [after]
            && |kept| < s.rqtw
            && |kept| <= |s.requests|
            && kept == s.requests[|s.requests| - |kept|..]
            && (forall i :: 0 <= i < |s.requests| - |kept| ==> Stale(s.requests[i], after, s.timew))
            && n.rqtw == s.rqtw && n.timew == s.timew
  {
    var adm := Step(s, now, after);
    kept := s.requests[adm.dropped..];
    var wake := Wake(now, adm.sleep);
    forall i | 0 <= i < |s.requests| - |kept|
      ensures Stale(s.requests[i], after, s.timew)
    {
      StaleLater(s.requests[i], wake, after, s.timew);
    }
  }

  /** The history side of one call: appending `after` to a history whose
      forgotten part and newly forgotten entries have all left the window
      keeps it sorted and spaced. */
  lemma ExtendHistory(hist: seq<int>, clock: int, after: int, rqtw: int, timew: int, cut: nat)
    requires Sorted(hist) && Spaced(hist, rqtw, timew)
    requires forall i :: 0 <= i < |hist| ==> hist[i] <= clock
    requires clock <= after
    requires cut <= |hist| && |hist| - cut < rqtw
    requires forall i :: 0 <= i < cut ==> Stale(hist[i], after, timew)
    ensures Sorted(hist + [after]) && Spaced(hist + [after], rqtw, timew)
    ensures forall i :: 0 <= i < |hist + [after]| ==> (hist + [after])[i] <= after
  {
    var h := hist + [after];
    forall i, j | 0 <= i < j < |h| && j - i >= rqtw
      ensures h[j] - h[i] >= timew
    {
      if j == |hist| {
        assert i < cut;
        assert Stale(hist[i], after, timew);
      } else {
        assert h[i] == hist[i] && h[j] == hist[j];
      }
    }
  }

  /** The history side of forgetting: if the remembered list is the tail of
      the history and the call keeps a tail of that list, everything before
      the kept tail has left the window by `after`. */
  lemma ForgottenStale(hist: seq<int>, requests: seq<int>, kept: seq<int>,
                       clock: int, after: int, timew: int)
    requires |requests| <= |hist| && requests == hist[|hist| - |requests|..]
    requires |kept| <= |requests|
    requires forall i :: 0 <= i < |hist| - |requests| ==> Stale(hist[i], clock, timew)
    requires forall i :: 0 <= i < |requests| - |kept| ==> Stale(requests[i], after, timew)
    requires clock <= after
    ensures forall i :: 0 <= i < |hist| - |kept| ==> Stale(hist[i], after, timew)
  {
    var base := |hist| - |requests|;
    forall i | 0 <= i < |hist| - |kept|
      ensures Stale(hist[i], after, timew)
    {
      if i < base {
        StaleLater(hist[i], clock, after, timew);
      } else {
        assert hist[i] == requests[i - base];
      }
    }
  }

  /** Appending to both sides keeps a list the tail of its history. */
  lemma TailAppend(hist: seq<int>, requests: seq<int>, kept: seq<int>, after: int)
    requires |requests| <= |hist| && requests == hist[|hist| - |requests|..]
    requires |kept| <= |requests| && kept == requests[|requests| - |kept|..]
    ensures kept + [after] == (hist + [after])[|hist| - |kept|..]
  {
    assert kept == hist[|hist| - |kept|..];
  }

  /** The tracking invariant survives a call that keeps a short tail of the
      remembered list, forgets only stale entries and appends `after`. */
  lemma TracksAfterCall(s: Requester, hist: seq<int>, clock: int, kept: seq<int>, after: int, total: int)
    requires Tracks(s, hist, clock)
    requires clock <= after
    requires |kept| < s.rqtw
    requires |kept| <= |s.requests| && kept == s.requests[|s.requests| - |kept|..]
    requires forall i :: 0 <= i < |s.requests| - |kept| ==> Stale(s.requests[i], after, s.timew)
    ensures Tracks(Requester(kept + [after], s.rqtw, s.timew, total), hist + [after], after)
  {
    ForgottenStale(hist, s.requests, kept, clock, after, s.timew);
    ExtendHistory(hist, clock, after, s.rqtw, s.timew, |hist| - |kept|);
    TailAppend(hist, s.requests, kept, after);
  }

  /** One honest call keeps the tracking invariant, with the appended
      timestamp added to the history. */
  lemma StepKeepsTracks(s: Requester, hist: seq<int>, clock: int, now: int, after: int)
    requires Tracks(s, hist, clock)
    requires clock <= now <= after
    requires Step(s, now, after).Admitted? ==> Wake(now, Step(s, now, after).sleep) <= after
    ensures Step(s, now, after).Admitted?
    ensures Tracks(Step(s, now, after).state, hist + [after], after)
  {
    var kept := StepForgetsOnlyStale(s, now, after);
    var n := Step(s, now, after).state;
    TracksAfterCall(s, hist, clock, kept, after, n.total);
    assert n == Requester(kept + [after], s.rqtw, s.timew, n.total);
  }

  /** Unfolds an honest clock at its first call. */
  lemma HonestClockHead(s: Requester, clock: int, calls: seq<Call>)
    requires calls != [] && HonestClock(s, clock, calls)
    ensures clock <= calls[0].now <= calls[0].after
    ensures Step(s, calls[0].now, calls[0].after).Admitted? ==>
              Wake(calls[0].now, Step(s, calls[0].now, calls[0].after).sleep) <= calls[0].after
    ensures HonestClock(Step(s, calls[0].now, calls[0].after).state, calls[0].after, calls[1..])
  {
  }

  /** Unfolds a run at its first, admitted, limited call. */
  lemma RunCallsHead(s: Requester, calls: seq<Call>)
    requires calls != [] && s.rqtw != Unlimited
    requires Step(s, calls[0].now, calls[0].after).Admitted?
    ensures RunCalls(s, calls).admitted ==
              [calls[0].after] + RunCalls(Step(s, calls[0].now, calls[0].after).state, calls[1..]).admitted
  {
  }

  /** Sequence identities used to regroup histories. Asserting them inline,
      amid the history quantifiers of the run proofs, costs the solver far
      more than proving them on their own. */
  lemma EmptyAppend(a: seq<int>)
    ensures [] + a == a
  {
  }

  lemma AppendAssoc(a: seq<int>, b: seq<int>, c: seq<int>)
    ensures a + (b + c) == (a + b) + c
  {
  }

  /** Every honest run from a tracked state is admitted throughout and
      extends the history with admissions that stay sorted and spaced. */
  lemma {:induction false} RunKeepsTracks(s: Requester, hist: seq<int>, clock: int, calls: seq<Call>)
    requires Tracks(s, hist, clock)
    requires HonestClock(s, clock, calls)
    ensures |RunCalls(s, calls).admitted| == |calls|
    ensures Sorted(hist + RunCalls(s, calls).admitted)
    ensures Spaced(hist + RunCalls(s, calls).admitted, s.rqtw, s.timew)
    decreases |calls|
  {
    if calls == [] {
      assert hist + [] == hist;
    } else {
      var c := calls[0];
      StepKeepsTracks(s, hist, clock, c.now, c.after);
      HonestClockHead(s, clock, calls);
      var next := Step(s, c.now, c.after).state;
      var h := hist + [c.after];
      RunKeepsTracks(next, h, c.after, calls[1..]);
      RunCallsHead(s, calls);
      var rest := RunCalls(next, calls[1..]).admitted;
      AppendAssoc(hist, [c.after], rest);
    }
  }

  /** The window guarantee: starting from a freshly built requester with a
      positive ceiling, every call of an honest run is admitted and counted,
      and no `rqtw + 1` admissions fit within `timew` ticks of each other. */
  lemma WindowGuarantee(rqtw: int, timew: Option<int>, clock: int, calls: seq<Call>)
    requires rqtw >= 1
    requires HonestClock(New(Some(rqtw), timew), clock, calls)
    ensures RunCalls(New(Some(rqtw), timew), calls).state.total == |calls|
    ensures Sorted(RunCalls(New(Some(rqtw), timew), calls).admitted)
    ensures Spaced(RunCalls(New(Some(rqtw), timew), calls).admitted, rqtw,
                   RunCalls(New(Some(rqtw), timew), calls).state.timew)
  {
    var s := New(Some(rqtw), timew);
    NewTracks(rqtw, timew, clock);
    RunKeepsTracks(s, [], clock, calls);
    EmptyAppend(RunCalls(s, calls).admitted);
  }
}
