/**
  Cooperative cancellation. The worker's `is_running` flag starts set, and the
  only write to it is `stop()` clearing it (main.py lines 282-283); the worker
  reads it at fixed points. Whatever the thread scheduling, the reads therefore
  see the flag set up to some read and cleared from then on, so a job's view of
  cancellation is one `Stop` value: never, or from its k-th read on.
*/
module Cancel {

  datatype Stop = Never | AfterPolls(polls: nat)

  /** What the worker's read number `k` (counting from 0) of `is_running` returns. */
  predicate Running(stop: Stop, k: nat) {
    stop.Never? || k < stop.polls
  }

  /** Once a read sees the flag cleared, every later read does too. */
  lemma StaysStopped(stop: Stop, j: nat, k: nat)
    requires j <= k && !Running(stop, j)
    ensures !Running(stop, k)
  {
  }

  /**
    Of `n` reads starting at read number `from`, how many in a row see the flag
    set: the number of loop iterations run before a cancellation check stops
    the loop.
  */
  function Allowed(stop: Stop, from: nat, n: nat): (r: nat)
    ensures r <= n
    ensures forall k :: from <= k < from + r ==> Running(stop, k)
    ensures r < n ==> !Running(stop, from + r)
  {
    if stop.Never? || from + n <= stop.polls then n
    else if from <= stop.polls then stop.polls - from
    else 0
  }

  /** The values the first `n` reads return. */
  function Observations(stop: Stop, n: nat): (obs: seq<bool>)
    ensures |obs| == n && forall k :: 0 <= k < n ==> obs[k] == Running(stop, k)
  {
    if n == 0 then [] else Observations(stop, n - 1) + [Running(stop, n - 1)]
  }

  /** One step of the two threads: the worker reads the flag, or the interface calls `stop()`. */
  datatype Action = Poll | StopCall

  /** The values the worker's reads return when the two threads interleave as `actions`. */
  function Observe(actions: seq<Action>, running: bool): seq<bool>
  {
    if actions == [] then []
    else if actions[0] == StopCall then Observe(actions[1..], false)
    else [running] + Observe(actions[1..], running)
  }

  /** The `Stop` describing an interleaving: the number of reads before the first `stop()`. */
  function StopOf(actions: seq<Action>): Stop
  {
    if actions == [] then Never
    else if actions[0] == StopCall then AfterPolls(0)
    else match StopOf(actions[1..])
      case Never => Never
      case AfterPolls(k) => AfterPolls(k + 1)
  }

  lemma {:induction false} ObserveCleared(actions: seq<Action>)
    ensures forall k :: 0 <= k < |Observe(actions, false)| ==> !Observe(actions, false)[k]
  {
    if actions != [] {
      ObserveCleared(actions[1..]);
    }
  }

  /** Every interleaving of reads and `stop()` calls is seen by the worker exactly as some `Stop` says. */
  lemma {:induction false} InterleavingIsAStop(actions: seq<Action>)
    ensures Observe(actions, true) == Observations(StopOf(actions), |Observe(actions, true)|)
  {
    if actions != [] {
      var rest := actions[1..];
      if actions[0] == StopCall {
        ObserveCleared(rest);
      } else {
        InterleavingIsAStop(rest);
      }
    }
  }
}
