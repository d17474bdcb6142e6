/**
 * The one-shot millisecond timer of lib/timed_callback.h. The clock reading
 * `millis()` is a parameter. The target object and member function are not
 * part of the timer here: `Update` reports that it fired and its caller runs
 * the callback; deleting the object is modelled by the timer going dead.
 */
module TimedCallbacks {
  import opened Bytes

  /** `now - start_time_` computed in 32-bit `unsigned long` arithmetic. */
  function Elapsed(start: U32, now: U32): (r: U32)
    ensures now >= start ==> r == now - start
    ensures now < start ==> r == now + (WORD - start)
  {
    (now - start) % WORD
  }

  /** The firing test of `Update`. */
  predicate Due(start: U32, delay: U32, now: U32)
  {
    Elapsed(start, now) > delay
  }

  /**
   * Wrap safety: when `now` is `d` milliseconds after `start` (for any `d`
   * below 2^32), the timer is due exactly when `d` exceeds the delay, whether
   * or not the clock wrapped in between.
   */
  lemma WrapSafe(start: U32, delay: U32, d: nat)
    requires d < WORD
    ensures Due(start, delay, (start + d) % WORD) <==> d > delay
  {
    var now := (start + d) % WORD;
    if start + d < WORD {
      assert now == start + d;
    } else {
      assert now == start + d - WORD;
      assert now < start;
    }
    assert Elapsed(start, now) == d;
  }

  /** The fields of a `TimedCallback`, and whether it still exists. */
  datatype Timer = Timer(start: U32, delay: U32, live: bool)

  /** A new `TimedCallback(msec_delay, ...)` constructed at time `now`. */
  function Started(delay: U32, now: U32): Timer
  {
    Timer(now, delay, true)
  }

  /** The timer after an `Update`, and whether the callback ran. */
  datatype Fired = Fired(timer: Timer, fired: bool)

  /** One `Update()` at time `now`. */
  function Updated(t: Timer, now: U32): Fired
  {
    if t.live && Due(t.start, t.delay, now) then Fired(t.(live := false), true) else Fired(t, false)
  }

  /** An `Update` that does not fire changes nothing. */
  lemma QuietUpdateChangesNothing(t: Timer, now: U32)
    ensures !Updated(t, now).fired <==> Updated(t, now).timer == t
  {
  }

  /** The final timer after a run of `Update` calls, and how many times it fired. */
  datatype Run = Run(timer: Timer, firings: nat)

  /** Calls of `Update` at the given times. */
  function UpdateAll(t: Timer, nows: seq<U32>): Run
    decreases |nows|
  {
    if nows == [] then Run(t, 0)
    else
      var u := Updated(t, nows[0]);
      var rest := UpdateAll(u.timer, nows[1..]);
      Run(rest.timer, rest.firings + if u.fired then 1 else 0)
  }

  /**
   * One shot: whatever the clock readings, the callback runs at most once,
   * and a timer that has fired is dead.
   */
  lemma {:induction false} FiresAtMostOnce(t: Timer, nows: seq<U32>)
    ensures UpdateAll(t, nows).firings <= 1
    ensures UpdateAll(t, nows).firings == 1 ==> !UpdateAll(t, nows).timer.live
    ensures !t.live ==> UpdateAll(t, nows).firings == 0 && UpdateAll(t, nows).timer == t
    decreases |nows|
  {
    if nows != [] {
      var u := Updated(t, nows[0]);
      FiresAtMostOnce(u.timer, nows[1..]);
    }
  }

  /** The timer object. */
  class TimedCallback {
    var startTime: U32
    var msecDelay: U32
    var live: bool

    function State(): Timer
      reads this
    {
      Timer(startTime, msecDelay, live)
    }

    /** Records the start time with the delay. */
    constructor (msecDelay: U32, now: U32)
      ensures State() == Started(msecDelay, now)
    {
      this.msecDelay := msecDelay;
      startTime := now;
      live := true;
    }

    /** Fires when more than the delay has elapsed, and the timer is then gone. */
    method Update(now: U32) returns (fired: bool)
      requires live
      modifies this
      ensures Fired(State(), fired) == Updated(old(State()), now)
    {
      fired := (now - startTime) % WORD > msecDelay;
      if fired {
        live := false;
      }
    }
  }
}
