/**
 The scheduler loop (`run`): checks the stop signal before every tick,
 pre-increments the counter, builds and pushes one event per tick, stops on
 the configured count or on a stop request, and otherwise sleeps for what is
 left of the interval.
 */
module Scheduler {
  import opened HeartbeatTypes
  import opened Builder

  function Max(a: int, b: int): int {
    if a < b then b else a
  }

  function Min(a: int, b: int): int {
    if a < b then a else b
  }

  /** How long the loop sleeps after a tick that took `elapsedMs` of an
      `intervalMs` period; 0 means it does not sleep at all. The next tick
      therefore starts `max(interval, elapsed)` after this one started: a
      slow tick is never made up for by a shorter gap later. */
  function SleepFor(intervalMs: int, elapsedMs: int): (r: nat)
    ensures r > 0 <==> elapsedMs < intervalMs
    ensures elapsedMs + r == Max(intervalMs, elapsedMs)
  {
    var remaining := intervalMs - elapsedMs;
    if remaining > 0 then remaining else 0
  }

  /** What the loop observes of the outside world. The stop request is a
      latch: `stopAt` is the number of stop checks (the one before each
      tick and the one after each push, in the order they run) that come
      back false before the first that comes back true. `epoch(k)` is the
      clock's whole seconds read while building tick k, and `elapsed(k)` the
      milliseconds tick k took before its sleep is computed. */
  datatype Environment = Environment(stopAt: nat, epoch: nat -> int, elapsed: nat -> int)

  /** The answer of stop check number `check` (counting from 0). */
  predicate StopRequested(env: Environment, check: nat) {
    check >= env.stopAt
  }

  /** True when the loop leaves through the check before a tick, so its
      last tick went on to compute a sleep. */
  predicate EndsBeforeTick(count: int, stopAt: nat) {
    stopAt % 2 == 0 && (count < 1 || stopAt / 2 < count)
  }

  /** How many events a run pushes: the count caps it when it is at least
      1, and otherwise only the first stop check that sees stop ends it. */
  function Pushed(count: int, stopAt: nat): nat {
    if count >= 1 then Min(count, (stopAt + 1) / 2) else (stopAt + 1) / 2
  }

  /** A run whose stop is seen earlier pushes a prefix of what a run with
      the same settings and clock pushes when its stop is seen later. */
  lemma {:induction false} EarlierStopPushesPrefix(s: Settings, count: int, a: nat, b: nat, epoch: nat -> int)
    requires a <= b
    ensures Pushed(count, a) <= Pushed(count, b)
    ensures Trace(s, Pushed(count, b), epoch)[..Pushed(count, a)] == Trace(s, Pushed(count, a), epoch)
  {
    TracePrefix(s, Pushed(count, a), Pushed(count, b), epoch);
  }

  /** Runs the loop against `queue0` and returns the queue it leaves behind
      and the sleep chosen after each tick that reached the sleep. */
  method Run(s: Settings, count: int, intervalMs: int, env: Environment, queue0: seq<Event>)
    returns (queue: seq<Event>, naps: seq<nat>)
    // the events already queued are untouched; the loop only appends
    ensures |queue| >= |queue0| && queue[..|queue0|] == queue0
    // the appended events are the ticks 1..n in order, tick k built with counter k
    ensures queue[|queue0|..] == Trace(s, |queue| - |queue0|, env.epoch)
    // the number of events pushed depends only on the count and the stop point
    ensures |queue| - |queue0| == Pushed(count, env.stopAt)
    // a stop requested before the loop starts pushes nothing
    ensures env.stopAt == 0 ==> queue == queue0
    // a positive count caps the number of events; stop can only cut it short
    ensures count >= 1 ==> |queue| - |queue0| == Min(count, (env.stopAt + 1) / 2)
    // any other count never ends the loop; only stop does
    ensures count < 1 ==> |queue| - |queue0| == (env.stopAt + 1) / 2
    // one sleep decision per tick, except the tick the loop left after
    ensures |naps| == |queue| - |queue0| - (if EndsBeforeTick(count, env.stopAt) then 0 else 1)
    ensures forall k :: 0 <= k < |naps| ==> naps[k] == SleepFor(intervalMs, env.elapsed(k + 1))
  {
    queue := queue0;
    naps := [];
    var counter: nat := 0;
    var check: nat := 0;
    while !StopRequested(env, check)
      invariant check == 2 * counter <= env.stopAt
      invariant count >= 1 ==> counter < count
      invariant queue == queue0 + Trace(s, counter, env.epoch)
      invariant |naps| == counter
      invariant forall k :: 0 <= k < |naps| ==> naps[k] == SleepFor(intervalMs, env.elapsed(k + 1))
      decreases env.stopAt - check
    {
      check := check + 1;
      counter := counter + 1;
      var event := GenerateMessage(s, counter, env.epoch(counter));
      queue := queue + [event];
      if counter == count {
        break;
      }
      if StopRequested(env, check) {
        break;
      }
      check := check + 1;
      naps := naps + [SleepFor(intervalMs, env.elapsed(counter))];
    }
    assert queue[..|queue0|] == queue0;
  }
}
