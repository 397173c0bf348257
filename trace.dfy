/** Sequences of throttled calls on one limiter. A trace is the list of `now` values
    at which the throttled function was called, in call order; `Run` replays it from
    the empty deque the limiter starts with and records, besides the final deque, the
    admit/deny decision of every call and the log of every admitted timestamp. */
module Traces {
  import opened SlidingWindow

  datatype Trace = Trace(calls: seq<int>, decisions: seq<bool>, log: seq<int>)

  /** One more call at `now` on the limiter whose history so far is `prev`. */
  function Advance(prev: Trace, times: nat, duration: nat, now: int): Trace {
    var o := Step(prev.calls, times, duration, now);
    Trace(o.calls, prev.decisions + [o.admitted], if o.admitted then prev.log + [now] else prev.log)
  }

  /** Replays the calls at times `nows` on a fresh limiter. */
  function Run(times: nat, duration: nat, nows: seq<int>): (t: Trace)
    ensures |t.decisions| == |nows|
    decreases |nows|
  {
    if nows == [] then Trace([], [], [])
    else Advance(Run(times, duration, nows[..|nows| - 1]), times, duration, Last(nows))
  }

  /** Replaying one more call: the trace of `pre` followed by a call at `now`. */
  lemma RunSnoc(times: nat, duration: nat, pre: seq<int>, now: int)
    ensures var prev := Run(times, duration, pre);
      var o := Step(prev.calls, times, duration, now);
      Run(times, duration, pre + [now])
        == Trace(o.calls, prev.decisions + [o.admitted],
                 if o.admitted then prev.log + [now] else prev.log)
  {
    assert (pre + [now])[..|pre|] == pre;
  }

  /** Replays the calls at times `nows` on a limiter whose history so far is `start`. */
  function RunFrom(start: Trace, times: nat, duration: nat, nows: seq<int>): (t: Trace)
    ensures |t.decisions| == |start.decisions| + |nows|
    decreases |nows|
  {
    if nows == [] then start
    else Advance(RunFrom(start, times, duration, nows[..|nows| - 1]), times, duration, Last(nows))
  }

  /** Replaying `pre` and then `rest` is replaying `rest` from where `pre` left off. */
  lemma {:induction false} RunAppend(times: nat, duration: nat, pre: seq<int>, rest: seq<int>)
    ensures Run(times, duration, pre + rest) == RunFrom(Run(times, duration, pre), times, duration, rest)
    decreases |rest|
  {
    if rest == [] {
      assert pre + rest == pre;
    } else {
      var init, now := rest[..|rest| - 1], Last(rest);
      assert (pre + init) + [now] == pre + rest;
      RunAppend(times, duration, pre, init);
      assert (pre + rest)[..|pre + rest| - 1] == pre + init;
    }
  }

  /** The number of entries of `s` that lie in the closed interval [lo, hi]. */
  function CountIn(s: seq<int>, lo: int, hi: int): nat
    decreases |s|
  {
    if s == [] then 0
    else CountIn(s[..|s| - 1], lo, hi) + (if lo <= Last(s) <= hi then 1 else 0)
  }

  /** The number of entries of `s` in the window of length `duration` starting at `a`. */
  function WindowCount(s: seq<int>, a: int, duration: nat): nat {
    CountIn(s, a, a + duration)
  }

  function Min(a: nat, b: nat): nat {
    if a <= b then a else b
  }

  /** If the first `n` entries of `s` lie below `lo`, at most the other `|s| - n`
      entries are counted in any interval starting at `lo`. */
  lemma {:induction false} CountInBound(s: seq<int>, n: nat, lo: int, hi: int)
    requires n <= |s|
    requires forall i :: 0 <= i < n ==> s[i] < lo
    ensures CountIn(s, lo, hi) <= |s| - n
  {
    if s != [] {
      var s' := s[..|s| - 1];
      var n' := Min(n, |s'|);
      assert forall i :: 0 <= i < n' ==> s'[i] == s[i];
      CountInBound(s', n', lo, hi);
    }
  }

  /** Counting over two blocks is counting over each. */
  lemma {:induction false} CountInAppend(a: seq<int>, b: seq<int>, lo: int, hi: int)
    ensures CountIn(a + b, lo, hi) == CountIn(a, lo, hi) + CountIn(b, lo, hi)
    decreases |b|
  {
    if b == [] {
      assert a + b == a;
    } else {
      var b' := b[..|b| - 1];
      assert (a + b)[..|a + b| - 1] == a + b';
      CountInAppend(a, b', lo, hi);
    }
  }

  /** A sequence lying entirely in [lo, hi] is counted in full. */
  lemma {:induction false} CountInAll(s: seq<int>, lo: int, hi: int)
    requires forall i :: 0 <= i < |s| ==> lo <= s[i] <= hi
    ensures CountIn(s, lo, hi) == |s|
    decreases |s|
  {
    if s != [] {
      var s' := s[..|s| - 1];
      assert forall i :: 0 <= i < |s'| ==> s'[i] == s[i];
      CountInAll(s', lo, hi);
    }
  }

  /** Entries of the log that are stale at `now` lie outside the window that ends at
      `now`, so the window counts the same over the log as over the deque behind them. */
  lemma LogCountIsDequeCount(log: seq<int>, calls: seq<int>, duration: nat, now: int)
    requires IsSuffix(calls, log)
    requires StalePrefix(log, |log| - |calls|, now, duration)
    ensures CountIn(log, now - duration, now) == CountIn(calls, now - duration, now)
  {
    var k := |log| - |calls|;
    assert log == log[..k] + calls;
    CountInAppend(log[..k], calls, now - duration, now);
    assert forall i :: 0 <= i < k ==> log[..k][i] == log[i];
    CountInBound(log[..k], k, now - duration, now);
  }

  /** In a sorted deque with no entry after `now`, what follows a fresh front entry lies
      in the window `[now - duration, now]`. */
  lemma FreshSuffixInWindow(calls: seq<int>, r: seq<int>, duration: nat, now: int)
    requires Sorted(calls) && AllAtMost(calls, now) && IsSuffix(r, calls)
    requires r == [] || !Stale(now, r[0], duration)
    ensures forall i :: 0 <= i < |r| ==> now - duration <= r[i] <= now
  {
    var k := |calls| - |r|;
    forall i | 0 <= i < |r| ensures now - duration <= r[i] <= now {
      assert r[i] == calls[k + i] && r[0] == calls[k];
    }
  }

  /** For a sorted deque with no entry after `now`, the entries that popping stale ones
      leaves are exactly those in the window `[now - duration, now]`. */
  lemma PopStaleCount(calls: seq<int>, duration: nat, now: int)
    requires Sorted(calls) && AllAtMost(calls, now)
    ensures CountIn(calls, now - duration, now) == |PopStale(calls, duration, now)|
  {
    var r := PopStale(calls, duration, now);
    PopStaleSpec(calls, duration, now);
    LogCountIsDequeCount(calls, r, duration, now);
    FreshSuffixInWindow(calls, r, duration, now);
    CountInAll(r, now - duration, now);
  }

  /** One call, seen through the log of admitted calls: it is admitted exactly when
      fewer than `times` logged calls lie in `[now - duration, now]`. */
  lemma DecisionByCount(log: seq<int>, calls: seq<int>, times: nat, duration: nat, now: int)
    requires IsSuffix(calls, log)
    requires StalePrefix(log, |log| - |calls|, now, duration)
    requires Sorted(calls) && AllAtMost(calls, now)
    ensures Step(calls, times, duration, now).admitted <==> CountIn(log, now - duration, now) < times
  {
    LogCountIsDequeCount(log, calls, duration, now);
    PopStaleCount(calls, duration, now);
    PopStaleSpec(calls, duration, now);
  }

  /** Appending `now` to a log keeps every window within the quota when the entries of
      the log outside its last `|log| - n` (fewer than `times`) are stale at `now`. */
  lemma WindowAppend(log: seq<int>, n: nat, times: nat, duration: nat, now: int)
    requires n <= |log| && |log| - n < times
    requires StalePrefix(log, n, now, duration)
    requires forall a :: WindowCount(log, a, duration) <= times
    ensures forall a :: WindowCount(log + [now], a, duration) <= times
  {
    var ext := log + [now];
    assert ext[..|ext| - 1] == log;
    forall a ensures WindowCount(ext, a, duration) <= times {
      if a <= now <= a + duration {
        forall i | 0 <= i < n ensures log[i] < a {
          assert Stale(now, log[i], duration);
        }
        CountInBound(log, n, a, a + duration);
        assert CountIn(ext, a, a + duration) == CountIn(log, a, a + duration) + 1;
      } else {
        assert WindowCount(log, a, duration) <= times;
        assert CountIn(ext, a, a + duration) == CountIn(log, a, a + duration);
      }
    }
  }
}
