/** Forgetting requests that have left the time window: the `while` loop
    that pops the head of the timestamp list while it is stale. */
module Pruning {
  import opened RequesterState

  /** The length of the longest stale prefix of `requests`: the number of
      pops the loop makes before it meets a timestamp still inside the
      window at time `now`, or runs out of list. */
  function StalePrefix(requests: seq<int>, now: int, timew: int): (k: nat)
    ensures k <= |requests|
    ensures forall i :: 0 <= i < k ==> Stale(requests[i], now, timew)
    ensures k < |requests| ==> !Stale(requests[k], now, timew)
    decreases |requests|
  {
    if requests == [] then 0
    else if Stale(requests[0], now, timew) then 1 + StalePrefix(requests[1..], now, timew)
    else 0
  }

  /** What the loop leaves: the list without its longest stale prefix. */
  function PruneStale(requests: seq<int>, now: int, timew: int): seq<int> {
    requests[StalePrefix(requests, now, timew)..]
  }

  /** Reference definition: the timestamps still inside the window, wherever
      they stand in the list. */
  function KeepInWindow(requests: seq<int>, now: int, timew: int): seq<int>
    decreases |requests|
  {
    if requests == [] then []
    else if Stale(requests[0], now, timew) then KeepInWindow(requests[1..], now, timew)
    else [requests[0]] + KeepInWindow(requests[1..], now, timew)
  }

  /** Pruning removes exactly the maximal stale prefix: any prefix length `k`
      whose entries are all stale and which is followed by an in-window entry
      (or by nothing) is the one pruning removes. */
  lemma PruneIsMaximalStalePrefix(requests: seq<int>, now: int, timew: int, k: nat)
    requires k <= |requests|
    requires forall i :: 0 <= i < k ==> Stale(requests[i], now, timew)
    requires k == |requests| || !Stale(requests[k], now, timew)
    ensures PruneStale(requests, now, timew) == requests[k..]
  {
  }

  /** A list whose entries are all inside the window is kept whole. */
  lemma {:induction false} KeepInWindowAll(requests: seq<int>, now: int, timew: int)
    requires forall i :: 0 <= i < |requests| ==> !Stale(requests[i], now, timew)
    ensures KeepInWindow(requests, now, timew) == requests
    decreases |requests|
  {
    if requests != [] {
      KeepInWindowAll(requests[1..], now, timew);
      assert [requests[0]] + requests[1..] == requests;
    }
  }

  /** On a nondecreasing list, stopping at the first in-window entry loses
      nothing: what pruning keeps is exactly the set of in-window
      timestamps, in order. */
  lemma {:induction false} PruneSortedKeepsExactlyWindow(requests: seq<int>, now: int, timew: int)
    requires Sorted(requests)
    ensures PruneStale(requests, now, timew) == KeepInWindow(requests, now, timew)
    ensures forall i :: 0 <= i < |PruneStale(requests, now, timew)| ==>
              !Stale(PruneStale(requests, now, timew)[i], now, timew)
    decreases |requests|
  {
    if requests != [] {
      if Stale(requests[0], now, timew) {
        PruneSortedKeepsExactlyWindow(requests[1..], now, timew);
      } else {
        forall i | 0 <= i < |requests|
          ensures !Stale(requests[i], now, timew)
        {
          assert requests[0] <= requests[i];
        }
        KeepInWindowAll(requests, now, timew);
      }
    }
  }
}
