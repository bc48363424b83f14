# Request-rate limiter of the AO3 client, in Dafny

The AO3 client routes every HTTP request through one `Requester`. The
`Requester` throttles requests with a sliding window. It remembers the
timestamps of recent requests. It holds a ceiling `rqtw` on requests per
window, where -1 means "no limit", and a window length `timew` in seconds.
It also counts the limited requests in `total`. Before a request is sent
under a ceiling, the `Requester` remembers the current time and counts
the call, unless the call fails. Once the list has reached the ceiling, it first does two
things:

- it forgets the timestamps that have left the window;
- if the list is still at the ceiling, it sleeps until the oldest
  remembered one leaves the window, and then forgets that one too.

This project models that limiter as a pure state machine:

- `options.dfy`: the optional-value type for `Optional[int]` arguments.
- `requester_state.dfy`: the state record, construction with defaults, the
  two setters and the two property getters.
- `pruning.dfy`: the loop that forgets stale timestamps, and a reference
  definition ("the timestamps still in the window") it is compared against.
- `request.dfy`: the locked block of `request` as one atomic step. The
  call can fail with an index error when the ceiling is 0 or negative
  other than -1.
- `window.dfy`: runs of many calls, and the window guarantee. With a clock
  that never runs backwards and sleeps that last as long as asked, any two
  admitted requests `rqtw` or more places apart are at least `timew` ticks
  apart. So no window of `timew` ticks admits more than `rqtw` requests.

The clock is a parameter. Each call gets two readings in integer ticks:
`now`, read before pruning, and `after`, read when the timestamp is
appended. The call's sleep is returned, not performed. Lemmas that need a
real clock assume `after >= now + sleep`.

Behaviour of the code worth knowing:

- The limiter never reports throttling as an error. It only sleeps.
- It is a module-level object, not state owned by each session.
- Stale timestamps are forgotten only once the list has reached the
  ceiling (line 71), not on every call.
- Calls made without a ceiling are not counted in `total`.
- A call that fails with an index error has already popped every stale
  timestamp, so the limiter it leaves behind has an empty list.

## Model

| member | source | states |
|---|---|---|
| RequesterState.New | AO3/requester.py:11-34 | An omitted or `None` ceiling becomes -1 (unlimited) and an omitted or `None` window becomes 60. The limiter is unlimited exactly when no ceiling or -1 was given. It starts with no timestamps and a zero count. |
| RequesterState.SetRqtw | AO3/requester.py:40-45 | `setRQTW` replaces the ceiling; the timestamps, window and count are unchanged. |
| RequesterState.SetTimeW | AO3/requester.py:51-56 | `setTimeW` replaces the window length; the timestamps, ceiling and count are unchanged. |
| RequesterState.RqtwRoundTrip | AO3/requester.py:36-45 | Reading the `rqtw` property after setting it gives back the value set. |
| RequesterState.TimewGetterReturnsCeiling | AO3/requester.py:47-53 | As written, the `timew` getter returns the ceiling for every state and every window set. It reads back the window set only when that value happens to equal the ceiling. On a default limiter with the window set to 30, it reads -1. |
| RequesterState.TimewRoundTrip | AO3/requester.py:47-56 | With the corrected getter, reading `timew` after `setTimeW` gives back the value set. |
| Pruning.StalePrefix | AO3/requester.py:73-78 | The loop pops a prefix of the list. Every popped entry has left the window. It stops at an entry still inside the window or at the end of the list. |
| Pruning.PruneIsMaximalStalePrefix | AO3/requester.py:73-78 | Pruning removes exactly the longest stale prefix. Any stale prefix followed by an in-window entry, or by nothing, is the one removed. |
| Pruning.PruneSortedKeepsExactlyWindow | AO3/requester.py:73-78 | On a nondecreasing list, stopping at the first in-window entry loses nothing. Pruning keeps exactly the in-window timestamps, in order, and all of them are inside the window. |
| Request.MakeRoom | AO3/requester.py:71-84 | Below the ceiling nothing is forgotten and there is no sleep. At the ceiling, the whole stale prefix is popped and the pruning stops at the first entry still inside the window. The call sleeps exactly when the list is still at the ceiling. The sleep is strictly positive and ends exactly when the oldest remaining entry leaves the window, and that entry is then forgotten. Without a sleep, fewer than `rqtw` entries remain. It fails only when every entry had left the window. |
| Request.Step | AO3/requester.py:68-88 | An unlimited call changes nothing, forgets nothing and does not count. A limited call keeps a suffix of the old list and appends `after` as the newest entry. It adds exactly 1 to `total` and leaves the ceiling and window unchanged. A failing call leaves the list empty, because every entry was popped before the error, and it does not count. |
| Request.StepFailsExactlyWhen | AO3/requester.py:71-82 | A call fails with an index error exactly when the ceiling is neither -1 nor positive and every remembered timestamp has left the window. |
| Request.FirstCallFailsExactlyWhen | AO3/requester.py:71-82 | The first call on a freshly built limiter fails exactly when the ceiling given is 0 or negative other than -1. |
| Request.SleepIsPositive | AO3/requester.py:74-82 | The wait computed before dropping the oldest timestamp is strictly positive. |
| Request.StepKeepsBound | AO3/requester.py:71-87 | Take a positive ceiling and a list no longer than it. Then the call is admitted and the list is still no longer than the ceiling. |
| Request.StepKeepsSorted | AO3/requester.py:84-87 | If the list is nondecreasing and no entry is later than `after`, it stays nondecreasing after the call. |
| Request.SleepsExactlyWhenFull | AO3/requester.py:71-82 | On a nondecreasing list under a positive ceiling, the call sleeps exactly when the list has reached the ceiling and at least `rqtw` of its timestamps are still inside the window. |
| Request.StepSleepsUntilOldestLeaves | AO3/requester.py:79-84 | A sleeping call wakes exactly when the oldest timestamp it forgets leaves the window. That timestamp was still inside the window when the call began. |
| Request.FailureRepeats | AO3/requester.py:71-82 | After a failed call, with its emptied list and unchanged ceiling, the next call fails too. |
| Window.RunCalls | AO3/requester.py:68-88 | Over a run of calls, `total` grows by exactly the number of admitted timestamps, which is at most the number of calls. A failed call admits nothing, and the run goes on from the state it left. The ceiling and window do not change. An unlimited run changes nothing and admits nothing. |
| Window.NewTracks | AO3/requester.py:30-34 | A freshly built limited requester satisfies the tracking invariant with an empty history. |
| Window.StepKeepsTracks | AO3/requester.py:71-87 | One honest call keeps the tracking invariant. The list is the newest part of the admitted history and within the ceiling. Everything forgotten has left the window. The history stays sorted and spaced. |
| Window.RunKeepsTracks | AO3/requester.py:68-88 | From a tracked state, every honest call is admitted. The extended history stays sorted and spaced. |
| Window.WindowGuarantee | AO3/requester.py:79-87 | Start from a fresh limiter with a positive ceiling and run honest calls. Every call is admitted and counted. Any two admissions `rqtw` or more places apart are at least `timew` ticks apart. |

## Left out

- The HTTP dispatch after the locked block (AO3/requester.py:90-97). This includes forwarding to a caller's `session`. It is a thin call into the `requests` library, whose behaviour is not visible here.
- The lock (AO3/requester.py:70). The locked block is one atomic step. The unlocked ceiling check at line 69 can race with `setRQTW` and is not modelled.
- Wall-clock time. `time.time()` and `time.sleep()` work on floating-point seconds. Here they are integer ticks passed in as parameters.
- The module-level `requester` object (AO3/requester.py:99). It is just one value of the modelled state.
- Authentication, token refresh, entity reloading, threaded handles and comment-tree fetching. The files holding them are not part of this model.
- Window.RunKeepsTracks: the ceiling and window must stay fixed during the run. A run that calls `setRQTW` or `setTimeW` between requests is not covered. After the ceiling is lowered below the list length, the source's own bound no longer holds.
- Window.WindowGuarantee: same restriction as `Window.RunKeepsTracks`. It also assumes a clock that never runs backwards and sleeps that last at least as long as asked.

## Findings

| source | as written | input that shows it | evidently intended | confidence | as-written member | corrected member |
|---|---|---|---|---|---|---|
| AO3/requester.py:51-53 | The `timew` property is built with `@rqtw.setter`, so its getter is the `rqtw` getter and returns `_rqtw`. | `Requester()` then `setTimeW(30)`, then read `.timew`: it gives -1. | `.timew` returns `_timew`. | high; not executed | RequesterState.TimewGetterReturnsCeiling | RequesterState.TimewRoundTrip |
