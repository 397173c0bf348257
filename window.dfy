/** The per-call logic that the `throttle` attribute pastes into every throttled
    function: the lazy `cleanup` of the deque of call timestamps and the admission
    test that follows it. Timestamps are integers (readings of a monotonic clock) and
    the window `duration` is a natural number in the same unit. */
module SlidingWindow {

  /** `now.duration_since(t)`: the time from `t` to `now`, saturating at zero when `t`
      lies after `now`. */
  function Elapsed(now: int, t: int): nat {
    if t <= now then now - t else 0
  }

  /** An entry is stale at `now` when strictly more than `duration` has passed since it;
      an entry exactly `duration` old is still fresh. */
  predicate Stale(now: int, t: int, duration: nat) {
    Elapsed(now, t) > duration
  }

  /** `r` is what is left of `s` after popping some entries off its front. */
  predicate IsSuffix(r: seq<int>, s: seq<int>) {
    |r| <= |s| && r == s[|s| - |r|..]
  }

  /** The first `n` entries of `s` are all stale at `now`. */
  predicate StalePrefix(s: seq<int>, n: int, now: int, duration: nat) {
    forall i :: 0 <= i < n && i < |s| ==> Stale(now, s[i], duration)
  }

  /** Non-decreasing order, oldest timestamp first. */
  predicate Sorted(s: seq<int>) {
    forall i, j :: 0 <= i < j < |s| ==> s[i] <= s[j]
  }

  function Last(s: seq<int>): int
    requires s != []
  {
    s[|s| - 1]
  }

  /** The `while let` loop of `cleanup`: pop the front entry while it is stale and stop
      at the first fresh one (or when the deque is empty). */
  function PopStale(calls: seq<int>, duration: nat, now: int): seq<int> {
    if calls != [] && Stale(now, calls[0], duration) then PopStale(calls[1..], duration, now)
    else calls
  }

  /** The deque as `cleanup` leaves it: untouched while it holds fewer than `times`
      entries, otherwise with its stale front entries popped. */
  function AfterCleanup(calls: seq<int>, times: nat, duration: nat, now: int): seq<int> {
    if |calls| < times then calls else PopStale(calls, duration, now)
  }

  /** The state after one throttled call: the new deque and whether the body ran. */
  datatype Outcome = Outcome(calls: seq<int>, admitted: bool)

  /** One throttled call at time `now`: clean up, deny if the quota is still full,
      otherwise record `now`. */
  function Step(calls: seq<int>, times: nat, duration: nat, now: int): Outcome {
    var kept := AfterCleanup(calls, times, duration, now);
    if |kept| >= times then Outcome(kept, false) else Outcome(kept + [now], true)
  }

  /** Popping stale entries only removes entries from the front, every entry it removes
      is stale, and it stops at a fresh front entry or an empty deque. */
  lemma {:induction false} PopStaleSpec(calls: seq<int>, duration: nat, now: int)
    ensures var r := PopStale(calls, duration, now);
      IsSuffix(r, calls) &&
      StalePrefix(calls, |calls| - |r|, now, duration) &&
      (r == [] || !Stale(now, r[0], duration))
  {
    if calls != [] && Stale(now, calls[0], duration) {
      var r := PopStale(calls[1..], duration, now);
      PopStaleSpec(calls[1..], duration, now);
      forall i | 1 <= i < |calls| - |r| ensures Stale(now, calls[i], duration) {
        assert calls[i] == calls[1..][i - 1];
      }
    }
  }

  /** `cleanup` leaves a deque of fewer than `times` entries alone; otherwise it pops
      stale entries off the front until the front is fresh or the deque is empty. Either
      way the result is a suffix of the input and everything removed was stale. */
  lemma CleanupSpec(calls: seq<int>, times: nat, duration: nat, now: int)
    ensures var r := AfterCleanup(calls, times, duration, now);
      (|calls| < times ==> r == calls) &&
      IsSuffix(r, calls) &&
      StalePrefix(calls, |calls| - |r|, now, duration) &&
      (|calls| >= times ==> r == [] || !Stale(now, r[0], duration))
  {
    PopStaleSpec(calls, duration, now);
  }

  /** If every entry of a deque is stale, popping stale entries empties it. */
  lemma PopStaleAllStale(calls: seq<int>, duration: nat, now: int)
    requires StalePrefix(calls, |calls|, now, duration)
    ensures PopStale(calls, duration, now) == []
  {
    PopStaleSpec(calls, duration, now);
  }

  /** The deque never grows beyond `times`: a call that finds at most `times` entries
      leaves at most `times`. */
  lemma StepLengthBound(calls: seq<int>, times: nat, duration: nat, now: int)
    requires |calls| <= times
    ensures |Step(calls, times, duration, now).calls| <= times
  {
    CleanupSpec(calls, times, duration, now);
  }

  /** A call changes the deque only by popping entries off its front and, when it is
      admitted, appending `now` at the back. */
  lemma StepShape(calls: seq<int>, times: nat, duration: nat, now: int)
    ensures var o := Step(calls, times, duration, now);
      IsSuffix(o.calls, if o.admitted then calls + [now] else calls)
  {
    var kept := AfterCleanup(calls, times, duration, now);
    CleanupSpec(calls, times, duration, now);
    SuffixAppend(kept, calls, now);
  }

  /** A call at a time `now` no earlier than any recorded entry keeps the deque sorted. */
  lemma StepKeepsSorted(calls: seq<int>, times: nat, duration: nat, now: int)
    requires Sorted(calls) && AllAtMost(calls, now)
    ensures Sorted(Step(calls, times, duration, now).calls)
  {
    var kept := AfterCleanup(calls, times, duration, now);
    CleanupSpec(calls, times, duration, now);
    SortedSuffix(kept, calls);
    assert AllAtMost(kept, now) by {
      var k := |calls| - |kept|;
      forall i | 0 <= i < |kept| ensures kept[i] <= now {
        assert kept[i] == calls[k + i];
      }
    }
    SortedSnoc(kept, now);
  }

  /** After a quiet period in which every recorded entry went stale, the next call is
      admitted (provided the quota is not zero). */
  lemma AdmittedAfterQuiet(calls: seq<int>, times: nat, duration: nat, now: int)
    requires times > 0
    requires StalePrefix(calls, |calls|, now, duration)
    ensures Step(calls, times, duration, now).admitted
  {
    if |calls| >= times {
      PopStaleAllStale(calls, duration, now);
    }
  }

  /** With a quota of zero every call is denied, and a call on an empty deque leaves it
      empty. */
  lemma ZeroQuotaDenies(calls: seq<int>, duration: nat, now: int)
    ensures !Step(calls, 0, duration, now).admitted
    ensures calls == [] ==> Step(calls, 0, duration, now).calls == []
  {
  }

  lemma SuffixOfSuffix(a: seq<int>, b: seq<int>, c: seq<int>)
    requires IsSuffix(a, b) && IsSuffix(b, c)
    ensures IsSuffix(a, c)
  {
    assert c[|c| - |b|..][|b| - |a|..] == c[|c| - |a|..];
  }

  lemma SuffixAppend(a: seq<int>, b: seq<int>, x: int)
    requires IsSuffix(a, b)
    ensures IsSuffix(a + [x], b + [x])
  {
    assert (b + [x])[|b| - |a|..] == b[|b| - |a|..] + [x];
  }

  /** Every entry of `s` is at most `x`. */
  predicate AllAtMost(s: seq<int>, x: int) {
    forall i :: 0 <= i < |s| ==> s[i] <= x
  }

  lemma SortedSnoc(s: seq<int>, x: int)
    requires Sorted(s) && AllAtMost(s, x)
    ensures Sorted(s + [x]) && AllAtMost(s + [x], x)
  {
  }

  lemma SortedSuffix(r: seq<int>, s: seq<int>)
    requires Sorted(s) && IsSuffix(r, s)
    ensures Sorted(r)
  {
    var k := |s| - |r|;
    forall i, j | 0 <= i < j < |r| ensures r[i] <= r[j] {
      assert r[i] == s[k + i] && r[j] == s[k + j];
    }
  }

  /** The calls before the last one of a non-decreasing trace form a non-decreasing trace
      that ends no later than the last call. */
  lemma SortedInit(pre: seq<int>, now: int)
    requires Sorted(pre + [now]) && pre != []
    ensures Sorted(pre) && Last(pre) <= now
  {
    forall x, y | 0 <= x < y < |pre| ensures pre[x] <= pre[y] {
      assert pre[x] == (pre + [now])[x] && pre[y] == (pre + [now])[y];
    }
    assert Last(pre) == (pre + [now])[|pre| - 1] && now == (pre + [now])[|pre|];
  }

  /** Staleness persists: entries stale at some time are stale at every later time. */
  lemma StalePrefixLater(log: seq<int>, n: int, now: int, later: int, duration: nat)
    requires now <= later
    requires StalePrefix(log, n, now, duration)
    ensures StalePrefix(log, n, later, duration)
  {
  }

  /** A stale prefix of the log followed by a stale prefix of the deque behind it is a
      stale prefix of the log. */
  lemma StalePrefixExtend(log: seq<int>, calls: seq<int>, kept: seq<int>, now: int, duration: nat)
    requires IsSuffix(calls, log) && IsSuffix(kept, calls)
    requires StalePrefix(log, |log| - |calls|, now, duration)
    requires StalePrefix(calls, |calls| - |kept|, now, duration)
    ensures StalePrefix(log, |log| - |kept|, now, duration)
  {
    var k := |log| - |calls|;
    forall i | k <= i < |log| - |kept| ensures Stale(now, log[i], duration) {
      assert log[i] == calls[i - k];
    }
  }

  /** One call keeps the deque a suffix of the log of admitted calls. */
  lemma StepKeepsSuffix(log: seq<int>, calls: seq<int>, times: nat, duration: nat, now: int)
    requires IsSuffix(calls, log)
    ensures var o := Step(calls, times, duration, now);
      IsSuffix(o.calls, if o.admitted then log + [now] else log)
  {
    var kept := AfterCleanup(calls, times, duration, now);
    CleanupSpec(calls, times, duration, now);
    SuffixOfSuffix(kept, calls, log);
    SuffixAppend(kept, log, now);
  }

  /** One call keeps the deque a suffix of the log of admitted calls, and keeps every
      logged entry outside the deque stale at `now`. */
  lemma StepKeepsStalePrefix(log: seq<int>, calls: seq<int>, times: nat, duration: nat, now: int)
    requires IsSuffix(calls, log)
    requires StalePrefix(log, |log| - |calls|, now, duration)
    ensures var o := Step(calls, times, duration, now);
      var log' := if o.admitted then log + [now] else log;
      IsSuffix(o.calls, log') && StalePrefix(log', |log'| - |o.calls|, now, duration)
  {
    var kept := AfterCleanup(calls, times, duration, now);
    CleanupSpec(calls, times, duration, now);
    SuffixOfSuffix(kept, calls, log);
    StalePrefixExtend(log, calls, kept, now, duration);
    var o := Step(calls, times, duration, now);
    if o.admitted {
      SuffixAppend(kept, log, now);
      var log' := log + [now];
      forall i | 0 <= i < |log'| - |o.calls| ensures Stale(now, log'[i], duration) {
        assert log'[i] == log[i];
      }
    }
  }
}
