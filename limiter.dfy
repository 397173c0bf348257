/** The state the `throttle` attribute gives each throttled function: one deque of
    call timestamps shared by all its callers, created empty on the first call. The
    deque is a sequence field that the methods reassign; the clock reading
    `Instant::now()` is passed in as `now`. */
module Throttle {
  import opened SlidingWindow
  import opened Traces
  import opened TraceProperties

  datatype Option<T> = None | Some(value: T)

  /** The limiter behind one throttled function: at most `times` calls in any window
      of `duration`. */
  class Limiter {
    const times: nat
    const duration: nat
    /** The deque of timestamps of admitted calls, oldest at the front. */
    var calls: seq<int>
    /** The time of every call made so far, admitted or denied, in call order. */
    ghost var history: seq<int>

    /** The deque is the one obtained by replaying every call made so far. */
    ghost predicate Valid()
      reads this
    {
      calls == Run(times, duration, history).calls
    }

    /** The timestamps of every admitted call so far, popped or not. */
    ghost function Log(): seq<int>
      reads this
    {
      Run(times, duration, history).log
    }

    /** The deque starts empty, before any call has been made. */
    constructor(times: nat, duration: nat)
      ensures this.times == times && this.duration == duration
      ensures calls == [] && history == []
      ensures Valid()
    {
      this.times := times;
      this.duration := duration;
      calls := [];
      history := [];
    }

    /** `cleanup`: leave a deque shorter than `times` alone; otherwise pop stale entries
        off the front until the front entry is fresh or the deque is empty. */
    method Cleanup(now: int)
      modifies this`calls
      ensures calls == AfterCleanup(old(calls), times, duration, now)
    {
      if |calls| < times {
        return;
      }
      while calls != []
        invariant PopStale(calls, duration, now) == PopStale(old(calls), duration, now)
        decreases |calls|
      {
        if Stale(now, calls[0], duration) {
          calls := calls[1..];
        } else {
          break;
        }
      }
    }

    /** One call of the throttled function at time `now`, up to running its body: clean
        up, deny when the quota is full, otherwise record `now`. */
    method TryAdmit(now: int) returns (admitted: bool)
      requires Valid()
      modifies this`calls, this`history
      ensures Valid()
      ensures history == old(history) + [now]
      ensures admitted == Run(times, duration, history).decisions[|history| - 1]
      ensures admitted <==> |AfterCleanup(old(calls), times, duration, now)| < times
      ensures calls == if admitted then AfterCleanup(old(calls), times, duration, now) + [now]
                       else AfterCleanup(old(calls), times, duration, now)
      ensures |calls| <= times
      ensures Sorted(history) ==> Sorted(calls) && forall a :: WindowCount(Log(), a, duration) <= times
    {
      Cleanup(now);
      if |calls| >= times {
        admitted := false;
      } else {
        calls := calls + [now];
        admitted := true;
      }
      history := history + [now];
      RunSnoc(times, duration, old(history), now);
      RunLengthBound(times, duration, history);
      if Sorted(history) {
        RunSorted(times, duration, history);
        RunWindowBound(times, duration, history);
      }
    }

    /** The throttled function itself: `Some` of what its body returns when the call is
        admitted, `None` (without running the body) when it is denied. */
    method Call<T>(now: int, body: () -> T) returns (r: Option<T>)
      requires Valid()
      modifies this`calls, this`history
      ensures Valid()
      ensures history == old(history) + [now]
      ensures r.Some? == Run(times, duration, history).decisions[|history| - 1]
      ensures r.Some? <==> |AfterCleanup(old(calls), times, duration, now)| < times
      ensures r.Some? ==> r.value == body()
      ensures calls == if r.Some? then AfterCleanup(old(calls), times, duration, now) + [now]
                       else AfterCleanup(old(calls), times, duration, now)
    {
      var admitted := TryAdmit(now);
      if admitted {
        r := Some(body());
      } else {
        r := None;
      }
    }
  }
}
