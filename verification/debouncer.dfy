/** The `Debouncer` of `SRC.py` as a sequential state machine over integer
    time. Each lock-protected method is one transition; the timer thread's
    expiry is a `Tick` at some later instant. */
module Debouncing {

  /** `_timer`: no pending callback, or one that runs once `deadline` is reached.
      A timer that has already run behaves as `Idle`: cancelling it does nothing
      and `trigger` replaces it. */
  datatype Timer = Idle | Armed(deadline: int)

  /** `trigger()`: cancel any pending timer and start a fresh one. */
  function Trigger(d: Timer, now: int, wait: nat): (r: Timer)
    ensures r.Armed? && r.deadline >= now
  {
    Armed(now + wait)
  }

  /** `cancel()`: drop any pending callback. */
  function Cancel(d: Timer): (r: Timer)
    ensures !r.Armed?
  {
    Idle
  }

  /** The timer thread at instant `now`: a pending callback whose deadline has
      passed runs (`fired`) and the timer is spent. */
  function Tick(d: Timer, now: int): (r: (Timer, bool))
    ensures r.1 <==> d.Armed? && d.deadline <= now
    ensures r.1 ==> r.0 == Idle
    ensures !r.1 ==> r.0 == d
  {
    if d.Armed? && d.deadline <= now then (Idle, true) else (d, false)
  }

  /** The newest `trigger` decides the deadline; what was pending before does not matter. */
  lemma TriggerReplacesPrior(d1: Timer, d2: Timer, now: int, wait: nat)
    ensures Trigger(d1, now, wait) == Trigger(d2, now, wait)
    ensures Trigger(d1, now, wait) == Armed(now + wait)
  {
  }

  /** `cancel` on an idle debouncer is a no-op, and it does not stop a later `trigger`. */
  lemma CancelIsSafe(d: Timer, now: int, wait: nat)
    ensures Cancel(Idle) == Idle
    ensures Cancel(Cancel(d)) == Cancel(d)
    ensures Trigger(Cancel(d), now, wait) == Trigger(d, now, wait)
  {
  }

  /** What happens to the debouncer, in time order. */
  datatype Input = TriggerAt(time: int) | CancelAt(time: int) | TickAt(time: int)

  /** The state after a run of inputs, and how many times the callback ran. */
  function Run(d: Timer, inputs: seq<Input>, wait: nat): (Timer, nat)
    decreases |inputs|
  {
    if inputs == [] then (d, 0)
    else
      match inputs[0]
      case TriggerAt(t) => Run(Trigger(d, t, wait), inputs[1..], wait)
      case CancelAt(_) => Run(Cancel(d), inputs[1..], wait)
      case TickAt(t) =>
        var (d', fired) := Tick(d, t);
        var (e, n) := Run(d', inputs[1..], wait);
        (e, n + if fired then 1 else 0)
  }

  function Triggers(inputs: seq<Input>): nat
  {
    if inputs == [] then 0
    else (if inputs[0].TriggerAt? then 1 else 0) + Triggers(inputs[1..])
  }

  /** The callback never runs more often than it was asked for: each run
      consumes a pending timer, and only `trigger` arms one. */
  lemma {:induction false} FiresAtMostTriggers(d: Timer, inputs: seq<Input>, wait: nat)
    ensures Run(d, inputs, wait).1 <= Triggers(inputs) + (if d.Armed? then 1 else 0)
    decreases |inputs|
  {
    if inputs != [] {
      match inputs[0]
      case TriggerAt(t) => FiresAtMostTriggers(Trigger(d, t, wait), inputs[1..], wait);
      case CancelAt(_) => FiresAtMostTriggers(Cancel(d), inputs[1..], wait);
      case TickAt(t) => FiresAtMostTriggers(Tick(d, t).0, inputs[1..], wait);
    }
  }

  /** A burst of events at the given instants: before each event the timer
      thread gets its chance to run, then the event triggers the debouncer. */
  function Burst(times: seq<int>): (r: seq<Input>)
    ensures Triggers(r) == |times|
  {
    if times == [] then []
    else [TickAt(times[0]), TriggerAt(times[0])] + Burst(times[1..])
  }

  predicate Nondecreasing(times: seq<int>)
  {
    forall i, j :: 0 <= i <= j < |times| ==> times[i] <= times[j]
  }

  /** Consecutive events closer together than the wait time. */
  predicate Dense(times: seq<int>, wait: nat)
  {
    forall i :: 0 < i < |times| ==> times[i] < times[i - 1] + wait
  }

  /** Events that keep arriving within `wait` of each other are coalesced:
      nothing runs during the burst, and one callback is pending for `wait`
      after the last event. A timer already pending when the burst starts
      must not be due by its first event. */
  lemma {:induction false} BurstCoalesces(d: Timer, times: seq<int>, wait: nat)
    requires |times| >= 1
    requires Nondecreasing(times) && Dense(times, wait)
    requires d.Armed? ==> times[0] < d.deadline
    ensures Run(d, Burst(times), wait) == (Armed(times[|times| - 1] + wait), 0)
    decreases |times|
  {
    var rest := Burst(times[1..]);
    var d1 := Trigger(d, times[0], wait);
    var b := Burst(times);
    assert b[0] == TickAt(times[0]) && b[1..][0] == TriggerAt(times[0]);
    assert b[1..][1..] == rest;
    assert Tick(d, times[0]) == (d, false);
    assert Run(d, b, wait) == Run(d, b[1..], wait);
    assert Run(d, b[1..], wait) == Run(d1, rest, wait);
    if |times| == 1 {
      assert rest == [];
    } else {
      assert times[1] < d1.deadline;
      BurstCoalesces(d1, times[1..], wait);
      assert times[1..][|times[1..]| - 1] == times[|times| - 1];
    }
  }

  /** After a settled burst, a check at `now` runs the callback exactly when
      `wait` has passed since the last event, and a second check never runs
      it again. */
  lemma SettledBurstFiresOnce(times: seq<int>, wait: nat, now: int, later: int)
    requires |times| >= 1
    requires Nondecreasing(times) && Dense(times, wait)
    ensures var (d, n) := Run(Idle, Burst(times) + [TickAt(now)], wait);
            n == (if now >= times[|times| - 1] + wait then 1 else 0)
            && (n == 1 ==> Run(d, [TickAt(later)], wait).1 == 0)
  {
    BurstCoalesces(Idle, times, wait);
    RunConcat(Idle, Burst(times), [TickAt(now)], wait);
  }

  /** Running two stretches of input one after the other. */
  lemma {:induction false} RunConcat(d: Timer, a: seq<Input>, b: seq<Input>, wait: nat)
    ensures Run(d, a + b, wait).0 == Run(Run(d, a, wait).0, b, wait).0
    ensures Run(d, a + b, wait).1 == Run(d, a, wait).1 + Run(Run(d, a, wait).0, b, wait).1
    decreases |a|
  {
    if a != [] {
      assert (a + b)[0] == a[0];
      assert (a + b)[1..] == a[1..] + b;
      match a[0]
      case TriggerAt(t) => RunConcat(Trigger(d, t, wait), a[1..], b, wait);
      case CancelAt(_) => RunConcat(Cancel(d), a[1..], b, wait);
      case TickAt(t) => RunConcat(Tick(d, t).0, a[1..], b, wait);
    } else {
      assert a + b == b;
    }
  }
}
