/** What the throttle guarantees over whole traces of calls. Each lemma replays one more
    call with `RunSnoc` and reasons about the single `Step` it adds. */
module TraceProperties {
  import opened SlidingWindow
  import opened Traces

  /** The deque never holds more than `times` entries. */
  lemma {:induction false} RunLengthBound(times: nat, duration: nat, nows: seq<int>)
    ensures |Run(times, duration, nows).calls| <= times
  {
    if nows != [] {
      var pre, now := nows[..|nows| - 1], Last(nows);
      assert pre + [now] == nows;
      RunSnoc(times, duration, pre, now);
      RunLengthBound(times, duration, pre);
      StepLengthBound(Run(times, duration, pre).calls, times, duration, now);
    }
  }

  /** The deque is always what is left of the log of admitted calls after popping its
      oldest entries: admissions append to both, cleanups pop from the deque only. */
  lemma {:induction false} RunCallsSuffixOfLog(times: nat, duration: nat, nows: seq<int>)
    ensures IsSuffix(Run(times, duration, nows).calls, Run(times, duration, nows).log)
  {
    if nows != [] {
      var pre, now := nows[..|nows| - 1], Last(nows);
      assert pre + [now] == nows;
      RunSnoc(times, duration, pre, now);
      var prev := Run(times, duration, pre);
      RunCallsSuffixOfLog(times, duration, pre);
      StepKeepsSuffix(prev.log, prev.calls, times, duration, now);
    }
  }

  /** With non-decreasing call times, the log of admitted calls is sorted and holds no
      entry later than the last call; so the deque, a suffix of it, is sorted too. */
  lemma {:induction false} RunSorted(times: nat, duration: nat, nows: seq<int>)
    requires Sorted(nows)
    ensures Sorted(Run(times, duration, nows).log)
    ensures Sorted(Run(times, duration, nows).calls)
    ensures nows != [] ==> AllAtMost(Run(times, duration, nows).log, Last(nows))
  {
    if nows != [] {
      var pre, now := nows[..|nows| - 1], Last(nows);
      assert pre + [now] == nows;
      RunSnoc(times, duration, pre, now);
      var prev := Run(times, duration, pre);
      if pre != [] {
        SortedInit(pre, now);
        RunSorted(times, duration, pre);
      }
      assert AllAtMost(prev.log, now);
      SortedSnoc(prev.log, now);
    }
    RunCallsSuffixOfLog(times, duration, nows);
    SortedSuffix(Run(times, duration, nows).calls, Run(times, duration, nows).log);
  }

  /** With non-decreasing call times, every admitted timestamp that has been popped
      off the deque is stale at the time of the last call. */
  lemma {:induction false} RunPoppedAreStale(times: nat, duration: nat, nows: seq<int>)
    requires Sorted(nows) && nows != []
    ensures var r := Run(times, duration, nows);
      StalePrefix(r.log, |r.log| - |r.calls|, Last(nows), duration)
  {
    var pre, now := nows[..|nows| - 1], Last(nows);
    assert pre + [now] == nows;
    RunSnoc(times, duration, pre, now);
    var prev := Run(times, duration, pre);
    RunCallsSuffixOfLog(times, duration, pre);
    if pre != [] {
      SortedInit(pre, now);
      RunPoppedAreStale(times, duration, pre);
      StalePrefixLater(prev.log, |prev.log| - |prev.calls|, Last(pre), now, duration);
    }
    StepKeepsStalePrefix(prev.log, prev.calls, times, duration, now);
  }

  /** THE RATE LIMIT. With non-decreasing call times, every window of length `duration`
      (both ends included) contains at most `times` admitted calls. */
  lemma {:induction false} RunWindowBound(times: nat, duration: nat, nows: seq<int>)
    requires Sorted(nows)
    ensures forall a :: WindowCount(Run(times, duration, nows).log, a, duration) <= times
  {
    if nows != [] {
      var pre, now := nows[..|nows| - 1], Last(nows);
      assert pre + [now] == nows;
      RunSnoc(times, duration, pre, now);
      var prev := Run(times, duration, pre);
      var r := Run(times, duration, nows);
      if pre != [] {
        SortedInit(pre, now);
      }
      RunWindowBound(times, duration, pre);
      if |AfterCleanup(prev.calls, times, duration, now)| < times {
        RunPoppedAreStale(times, duration, nows);
        RunCallsSuffixOfLog(times, duration, nows);
        var n := |r.log| - |r.calls|;
        assert StalePrefix(prev.log, n, now, duration) by {
          forall i | 0 <= i < n && i < |prev.log| ensures Stale(now, prev.log[i], duration) {
            assert prev.log[i] == r.log[i];
          }
        }
        WindowAppend(prev.log, n, times, duration, now);
      }
    }
  }

  /** The rate limit seen from each admitted call at time `t`: with non-decreasing call
      times, at most `times` admitted calls (that one included) lie in `[t - duration, t]`. */
  lemma RunAdmittedCallWindow(times: nat, duration: nat, nows: seq<int>)
    requires Sorted(nows)
    ensures var log := Run(times, duration, nows).log;
      forall i :: 0 <= i < |log| ==> CountIn(log, log[i] - duration, log[i]) <= times
  {
    var log := Run(times, duration, nows).log;
    RunWindowBound(times, duration, nows);
    forall i | 0 <= i < |log| ensures CountIn(log, log[i] - duration, log[i]) <= times {
      assert WindowCount(log, log[i] - duration, duration) <= times;
    }
  }

  /** After a quiet period: with a nonzero quota and non-decreasing call times, a call
      made more than `duration` after the previous call is admitted. */
  lemma RunAdmittedAfterQuiet(times: nat, duration: nat, pre: seq<int>, now: int)
    requires times > 0
    requires Sorted(pre + [now])
    requires pre != [] ==> now - Last(pre) > duration
    ensures Run(times, duration, pre + [now]).decisions[|pre|]
  {
    RunSnoc(times, duration, pre, now);
    var prev := Run(times, duration, pre);
    if pre != [] {
      SortedInit(pre, now);
      RunSorted(times, duration, pre);
      RunCallsSuffixOfLog(times, duration, pre);
      var k := |prev.log| - |prev.calls|;
      forall i | 0 <= i < |prev.calls| ensures Stale(now, prev.calls[i], duration) {
        assert prev.calls[i] == prev.log[k + i];
      }
    }
    AdmittedAfterQuiet(prev.calls, times, duration, now);
  }

  /** The admission test, exactly: with non-decreasing call times, a call at `now` is
      admitted if and only if fewer than `times` earlier admitted calls lie in
      `[now - duration, now]`. */
  lemma RunDecisionExact(times: nat, duration: nat, pre: seq<int>, now: int)
    requires Sorted(pre + [now])
    ensures Run(times, duration, pre + [now]).decisions[|pre|]
      <==> CountIn(Run(times, duration, pre).log, now - duration, now) < times
  {
    RunSnoc(times, duration, pre, now);
    var prev := Run(times, duration, pre);
    RunCallsSuffixOfLog(times, duration, pre);
    if pre != [] {
      SortedInit(pre, now);
      RunSorted(times, duration, pre);
      RunPoppedAreStale(times, duration, pre);
      StalePrefixLater(prev.log, |prev.log| - |prev.calls|, Last(pre), now, duration);
      var k := |prev.log| - |prev.calls|;
      forall i | 0 <= i < |prev.calls| ensures prev.calls[i] <= now {
        assert prev.calls[i] == prev.log[k + i];
      }
    }
    DecisionByCount(prev.log, prev.calls, times, duration, now);
  }

  /** The deque never holds more entries than calls have been made. */
  lemma {:induction false} RunCallsAtMostCalls(times: nat, duration: nat, nows: seq<int>)
    ensures |Run(times, duration, nows).calls| <= |nows|
  {
    if nows != [] {
      var pre, now := nows[..|nows| - 1], Last(nows);
      assert pre + [now] == nows;
      RunSnoc(times, duration, pre, now);
      RunCallsAtMostCalls(times, duration, pre);
      CleanupSpec(Run(times, duration, pre).calls, times, duration, now);
    }
  }

  /** Later calls do not change earlier decisions. */
  lemma {:induction false} RunPrefix(times: nat, duration: nat, nows: seq<int>, k: nat)
    requires k <= |nows|
    ensures Run(times, duration, nows[..k]).decisions == Run(times, duration, nows).decisions[..k]
    decreases |nows|
  {
    if k == |nows| {
      assert nows[..k] == nows;
    } else {
      var pre, now := nows[..|nows| - 1], Last(nows);
      assert pre + [now] == nows;
      RunSnoc(times, duration, pre, now);
      assert pre[..k] == nows[..k];
      RunPrefix(times, duration, pre, k);
    }
  }

  /** The first `times` calls of any trace are admitted, however close together they are:
      the deque cannot yet hold `times` entries. */
  lemma RunFirstCallsAdmitted(times: nat, duration: nat, nows: seq<int>)
    ensures forall i :: 0 <= i < |nows| && i < times ==> Run(times, duration, nows).decisions[i]
  {
    forall i | 0 <= i < |nows| && i < times ensures Run(times, duration, nows).decisions[i] {
      RunPrefix(times, duration, nows, i + 1);
      var pre := nows[..i];
      assert pre + [nows[i]] == nows[..i + 1];
      RunSnoc(times, duration, pre, nows[i]);
      RunCallsAtMostCalls(times, duration, pre);
    }
  }

  /** With a quota of zero every call is denied and the deque stays empty forever. */
  lemma {:induction false} RunZeroQuota(duration: nat, nows: seq<int>)
    ensures Run(0, duration, nows).calls == []
    ensures Run(0, duration, nows).log == []
    ensures forall i :: 0 <= i < |nows| ==> !Run(0, duration, nows).decisions[i]
  {
    if nows != [] {
      var pre, now := nows[..|nows| - 1], Last(nows);
      assert pre + [now] == nows;
      RunSnoc(0, duration, pre, now);
      RunZeroQuota(duration, pre);
    }
  }
}
