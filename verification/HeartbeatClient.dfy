/** The heartbeat client: it pings the kernel and reports it dead after too many failures in a row. */
module HeartbeatClient {

  /** How one wait for the answer ends: normally (a timeout too), with a stop request taken on the way, or
      with an exception. */
  datatype Wait = Answered | Stopped | Failed

  /** Why the loop ends; `Running` when the given waits are used up. */
  datatype Verdict = Dead | Stop | Running

  /** `max + 1` failures in a row end at round `i`. */
  ghost predicate WindowEndsAt(waits: seq<Wait>, max: nat, i: int) {
    max <= i < |waits| && forall j :: i - max <= j <= i ==> waits[j] == Failed
  }

  /** The loop comes to round `i`: no stop and no window of failures ended it before. */
  ghost predicate Reached(waits: seq<Wait>, max: nat, i: int) {
    forall j :: 0 <= j < i && j < |waits| ==> waits[j] != Stopped && !WindowEndsAt(waits, max, j)
  }

  class HeartbeatClient {
    const maxRetry: nat
    var requestStop: bool
    /** The rounds in which the listener was told that the kernel is dead. */
    var notified: seq<nat>

    constructor (maxRetry: nat)
      ensures this.maxRetry == maxRetry && !requestStop && notified == []
    {
      this.maxRetry := maxRetry;
      requestStop := false;
      notified := [];
    }

    /** Runs through the given outcomes of the waits. The kernel is reported dead at most once, exactly in
        the first round that ends a window of `maxRetry + 1` failures, and never after a stop. */
    method Run(waits: seq<Wait>) returns (verdict: Verdict, pings: nat)
      modifies this
      ensures notified == old(notified) + if verdict == Dead then [pings - 1] else []
      ensures !old(requestStop) ==>
                forall i :: WindowEndsAt(waits, maxRetry, i) && Reached(waits, maxRetry, i) <==>
                            verdict == Dead && i == pings - 1
      ensures !old(requestStop) ==>
                (verdict == Stop <==>
                 0 < pings <= |waits| && waits[pings - 1] == Stopped && Reached(waits, maxRetry, pings - 1))
      ensures !old(requestStop) && verdict == Running ==> pings == |waits| && Reached(waits, maxRetry, |waits|)
      ensures requestStop <==> verdict == Stop
      ensures old(requestStop) ==> verdict == Stop && pings == 0
      ensures pings <= |waits|
    {
      var retryCount := 0;
      pings := 0;
      while !requestStop && pings < |waits|
        invariant pings <= |waits| && notified == old(notified)
        invariant retryCount <= maxRetry && retryCount <= pings
        invariant forall j :: pings - retryCount <= j < pings ==> waits[j] == Failed
        invariant retryCount < pings ==> waits[pings - retryCount - 1] != Failed
        invariant !old(requestStop) ==> (requestStop <==> pings > 0 && waits[pings - 1] == Stopped)
        invariant !old(requestStop) ==> Reached(waits, maxRetry, if requestStop then pings - 1 else pings)
        invariant requestStop ==> retryCount == 0
        invariant old(requestStop) ==> pings == 0 && requestStop
      {
        var wait := waits[pings];
        pings := pings + 1;
        if wait == Stopped {
          requestStop := true;
        }
        if wait == Failed {
          if retryCount < maxRetry {
            retryCount := retryCount + 1;
          } else {
            notified := notified + [pings - 1];
            assert WindowEndsAt(waits, maxRetry, pings - 1);
            return Dead, pings;
          }
        } else {
          retryCount := 0;
        }
      }
      verdict := if requestStop then Stop else Running;
    }
  }
}
