/** The state of the request-rate limiter: the timestamps of recently
    admitted requests, the ceiling on requests per window, the window
    length and the running count of limited requests. Timestamps are whole
    clock ticks rather than floating-point seconds. */
module RequesterState {
  import opened Options

  /** `rqtw` is the ceiling on requests per time window; `Unlimited` (-1)
      switches limiting off. `timew` is the window length. `requests` holds
      the timestamps still remembered, oldest first. */
  datatype Requester = Requester(requests: seq<int>, rqtw: int, timew: int, total: int)

  /** The ceiling value that means "no limit". */
  const Unlimited: int := -1

  /** The window length used when none is given. */
  const DefaultTimew: int := 60

  /** A timestamp `ts` has left the window of length `timew` at time `now`. */
  predicate Stale(ts: int, now: int, timew: int) {
    now - ts >= timew
  }

  /** Timestamps are kept in nondecreasing order. */
  predicate Sorted(s: seq<int>) {
    forall i, j :: 0 <= i < j < |s| ==> s[i] <= s[j]
  }

  /** Construction: an omitted or `None` argument falls back to its default;
      the limiter starts with no remembered requests and a zero count. */
  function New(rqtw: Option<int>, timew: Option<int>): (r: Requester)
    ensures r.requests == [] && r.total == 0
    ensures r.rqtw == Unlimited <==> rqtw == None || rqtw == Some(Unlimited)
    ensures rqtw.Some? ==> r.rqtw == rqtw.value
    ensures timew.None? ==> r.timew == DefaultTimew
    ensures timew.Some? ==> r.timew == timew.value
  {
    var ceiling := if rqtw.None? then Unlimited else rqtw.value;
    var window := if timew.None? then DefaultTimew else timew.value;
    Requester([], ceiling, window, 0)
  }

  /** `setRQTW`: replaces the ceiling and nothing else. */
  function SetRqtw(s: Requester, value: int): (r: Requester)
    ensures r.rqtw == value
    ensures r.requests == s.requests && r.timew == s.timew && r.total == s.total
  {
    s.(rqtw := value)
  }

  /** `setTimeW`: replaces the window length and nothing else. */
  function SetTimeW(s: Requester, value: int): (r: Requester)
    ensures r.timew == value
    ensures r.requests == s.requests && r.rqtw == s.rqtw && r.total == s.total
  {
    s.(timew := value)
  }

  /** The `rqtw` property getter. */
  function RqtwProperty(s: Requester): int {
    s.rqtw
  }

  /** The `timew` property getter as written: the property object is built
      from the `rqtw` property's setter, so it keeps the `rqtw` getter. */
  function TimewPropertyAsWritten(s: Requester): int {
    s.rqtw
  }

  /** The `timew` property getter as evidently intended. */
  function TimewProperty(s: Requester): int {
    s.timew
  }

  /** Writing the ceiling and reading it back gives the written value. */
  lemma RqtwRoundTrip(s: Requester, value: int)
    ensures RqtwProperty(SetRqtw(s, value)) == value
  {
  }

  /** The getter as written does not read back what `setTimeW` wrote: it
      returns the ceiling whatever window was set, so on a default limiter
      setting the window to 30 reads back -1. */
  lemma TimewGetterReturnsCeiling(s: Requester, value: int)
    ensures TimewPropertyAsWritten(SetTimeW(s, value)) == s.rqtw
    ensures TimewPropertyAsWritten(SetTimeW(s, value)) == value <==> s.rqtw == value
    ensures TimewPropertyAsWritten(SetTimeW(New(None, None), 30)) == -1
  {
  }

  /** The corrected getter reads back what `setTimeW` wrote. */
  lemma TimewRoundTrip(s: Requester, value: int)
    ensures TimewProperty(SetTimeW(s, value)) == value
  {
  }

  /** Once a timestamp has left the window it stays out of it as time
      moves forward. */
  lemma StaleLater(ts: int, now: int, later: int, timew: int)
    requires Stale(ts, now, timew) && now <= later
    ensures Stale(ts, later, timew)
  {
  }
}
