/** The behaviour of the two throttled functions that the crate's documentation and its
    demo program use: ten calls per second and one call per 100 ms. Time is counted in
    milliseconds here. */
module Scenarios {
  import opened SlidingWindow
  import opened Traces
  import opened TraceProperties

  /** `n` calls at the same instant `t`. */
  function Repeat(t: int, n: nat): (r: seq<int>)
    ensures |r| == n
  {
    if n == 0 then [] else Repeat(t, n - 1) + [t]
  }

  /** Every call of `Repeat(t, n)` is at `t`. */
  lemma {:induction false} RepeatAll(t: int, n: nat)
    ensures forall i :: 0 <= i < n ==> Repeat(t, n)[i] == t
  {
    if n > 0 {
      RepeatAll(t, n - 1);
      assert forall i :: 0 <= i < n - 1 ==> Repeat(t, n)[i] == Repeat(t, n - 1)[i];
    }
  }

  /** The decisions of `n` calls when the first `times` of them are admitted. */
  function FirstAdmitted(n: nat, times: nat): (r: seq<bool>)
    ensures |r| == n && forall i :: 0 <= i < n ==> r[i] == (i < times)
  {
    if n == 0 then [] else FirstAdmitted(n - 1, times) + [n - 1 < times]
  }

  /** The deque after `j` calls of a burst at the instant `t` that started from the
      deque `s`: the burst's admitted calls, behind all of `s` as long as every call so
      far found fewer than `times` entries (so `cleanup` returned early), and behind
      nothing once a call has found the quota full and popped the stale `s`. */
  function BurstDeque(s: seq<int>, times: nat, t: int, j: nat): seq<int> {
    (if j == 0 || |s| + j <= times then s else []) + Repeat(t, Min(j, times))
  }

  /** Popping stale entries off a stale block followed by a block that is empty or starts
      with a fresh entry leaves exactly the second block. */
  lemma {:induction false} PopStaleThenFresh(s: seq<int>, r: seq<int>, duration: nat, now: int)
    requires StalePrefix(s, |s|, now, duration)
    requires r == [] || !Stale(now, r[0], duration)
    ensures PopStale(s + r, duration, now) == r
  {
    if s == [] {
      assert s + r == r;
    } else {
      assert (s + r)[0] == s[0];
      assert (s + r)[1..] == s[1..] + r;
      forall i | 0 <= i < |s[1..]| ensures Stale(now, s[1..][i], duration) {
        assert s[1..][i] == s[i + 1];
      }
      PopStaleThenFresh(s[1..], r, duration, now);
    }
  }

  /** One more call at the instant `t` of a burst of which `j` calls have been made,
      started when every entry of the deque `s` was stale at `t`: it is admitted exactly
      when `j < times`, and the deque moves on to the burst's next shape. */
  lemma BurstStep(calls: seq<int>, s: seq<int>, times: nat, duration: nat, t: int, j: nat)
    requires StalePrefix(s, |s|, t, duration)
    requires calls == BurstDeque(s, times, t, j)
    ensures Step(calls, times, duration, t).admitted == (j < times)
    ensures Step(calls, times, duration, t).calls == BurstDeque(s, times, t, j + 1)
  {
    var m := Min(j, times);
    var r := if j == 0 || |s| + j <= times then s else [];
    if |calls| < times {
      AppendAssoc(r, Repeat(t, m), t);
    } else {
      assert StalePrefix(r, |r|, t, duration);
      RepeatAll(t, m);
      assert Repeat(t, m) == [] || !Stale(t, Repeat(t, m)[0], duration);
      PopStaleThenFresh(r, Repeat(t, m), duration, t);
      assert [] + Repeat(t, m) == Repeat(t, m);
      assert [] + (Repeat(t, m) + [t]) == Repeat(t, m) + [t];
    }
  }

  /** A burst of `j` calls at one instant `t` on a limiter whose deque holds only entries
      stale at `t`: the burst admits its first `times` calls, and leaves the deque
      `BurstDeque` describes. */
  lemma {:induction false} BurstFrom(start: Trace, times: nat, duration: nat, t: int, j: nat)
    requires StalePrefix(start.calls, |start.calls|, t, duration)
    ensures RunFrom(start, times, duration, Repeat(t, j)).calls == BurstDeque(start.calls, times, t, j)
    ensures RunFrom(start, times, duration, Repeat(t, j)).decisions
      == start.decisions + FirstAdmitted(j, times)
    decreases j
  {
    if j == 0 {
      assert start.calls + [] == start.calls;
      assert start.decisions + [] == start.decisions;
    } else {
      assert Repeat(t, j)[..j - 1] == Repeat(t, j - 1);
      BurstFrom(start, times, duration, t, j - 1);
      var prev := RunFrom(start, times, duration, Repeat(t, j - 1));
      BurstStep(prev.calls, start.calls, times, duration, t, j - 1);
      AppendAssoc(start.decisions, FirstAdmitted(j - 1, times), j - 1 < times);
    }
  }

  /** A burst of `j` calls at one instant `t`, made when every entry in the deque is
      already stale at `t`: exactly the first `times` calls of the burst are admitted,
      and the deque is left as `BurstDeque` describes. */
  lemma Burst(times: nat, duration: nat, pre: seq<int>, t: int, j: nat)
    requires StalePrefix(Run(times, duration, pre).calls, |Run(times, duration, pre).calls|, t, duration)
    ensures Run(times, duration, pre + Repeat(t, j)).decisions
      == Run(times, duration, pre).decisions + FirstAdmitted(j, times)
    ensures Run(times, duration, pre + Repeat(t, j)).calls
      == BurstDeque(Run(times, duration, pre).calls, times, t, j)
  {
    RunAppend(times, duration, pre, Repeat(t, j));
    BurstFrom(Run(times, duration, pre), times, duration, t, j);
  }

  /** Once a burst has reached the quota, the deque holds exactly `times` copies of its
      instant: every earlier entry has been popped. */
  lemma BurstFills(times: nat, duration: nat, pre: seq<int>, t: int, j: nat)
    requires StalePrefix(Run(times, duration, pre).calls, |Run(times, duration, pre).calls|, t, duration)
    requires j >= times
    ensures Run(times, duration, pre + Repeat(t, j)).calls == Repeat(t, times)
  {
    var s := Run(times, duration, pre).calls;
    Burst(times, duration, pre, t, j);
    RunLengthBound(times, duration, pre);
    if j == 0 || |s| + j <= times {
      assert s == [];
    }
    assert [] + Repeat(t, times) == Repeat(t, times);
  }

  lemma AppendAssoc<T>(a: seq<T>, b: seq<T>, x: T)
    ensures (a + b) + [x] == a + (b + [x])
  {
  }

  /** A fresh limiter admits the first `times` of a burst of calls at one instant and
      denies the rest. */
  lemma FreshBurst(times: nat, duration: nat, t: int, n: nat)
    ensures Run(times, duration, Repeat(t, n)).decisions == FirstAdmitted(n, times)
  {
    assert [] + Repeat(t, n) == Repeat(t, n);
    Burst(times, duration, [], t, n);
  }

  /** Ten calls per second, from any start time `t0`: of twenty calls at `t0` the first
      ten are admitted; twenty more calls 1001 ms later find every earlier entry stale,
      so again the first ten are admitted and the other ten denied. */
  lemma TenPerSecond(t0: int)
    ensures Run(10, 1000, Repeat(t0, 20) + Repeat(t0 + 1001, 20)).decisions
      == FirstAdmitted(20, 10) + FirstAdmitted(20, 10)
  {
    FreshBurst(10, 1000, t0, 20);
    BurstFills(10, 1000, [], t0, 20);
    assert [] + Repeat(t0, 20) == Repeat(t0, 20);
    RepeatAll(t0, 10);
    Burst(10, 1000, Repeat(t0, 20), t0 + 1001, 20);
  }

  /** The comparison is strict: after ten calls at `t0`, a call exactly 1000 ms later is
      still denied, because an entry exactly one window old is not stale. */
  lemma TenPerSecondBoundary(t0: int)
    ensures !Run(10, 1000, Repeat(t0, 10) + [t0 + 1000]).decisions[10]
  {
    BurstFills(10, 1000, [], t0, 10);
    assert [] + Repeat(t0, 10) == Repeat(t0, 10);
    RunSnoc(10, 1000, Repeat(t0, 10), t0 + 1000);
    var calls := Run(10, 1000, Repeat(t0, 10)).calls;
    RepeatAll(t0, 10);
    assert !Stale(t0 + 1000, calls[0], 1000);
  }

  /** Once per 100 ms, from any start time `t0`: calls at 0, 50, 100 and 101 ms are
      admitted, denied, denied (the entry at 0 is exactly 100 ms old) and admitted. */
  lemma OncePer100ms(t0: int)
    ensures Run(1, 100, [t0, t0 + 50, t0 + 100, t0 + 101]).decisions == [true, false, false, true]
  {
    RunSnoc(1, 100, [], t0);
    assert [] + [t0] == [t0];
    assert Run(1, 100, [t0]) == Trace([t0], [true], [t0]);
    RunSnoc(1, 100, [t0], t0 + 50);
    assert [t0] + [t0 + 50] == [t0, t0 + 50];
    assert !Stale(t0 + 50, t0, 100);
    assert Run(1, 100, [t0, t0 + 50]) == Trace([t0], [true, false], [t0]);
    RunSnoc(1, 100, [t0, t0 + 50], t0 + 100);
    assert [t0, t0 + 50] + [t0 + 100] == [t0, t0 + 50, t0 + 100];
    assert !Stale(t0 + 100, t0, 100);
    assert Run(1, 100, [t0, t0 + 50, t0 + 100]) == Trace([t0], [true, false, false], [t0]);
    RunSnoc(1, 100, [t0, t0 + 50, t0 + 100], t0 + 101);
    assert [t0, t0 + 50, t0 + 100] + [t0 + 101] == [t0, t0 + 50, t0 + 100, t0 + 101];
    assert Stale(t0 + 101, t0, 100);
    assert PopStale([t0], 100, t0 + 101) == [];
  }

  /** Cleanup is lazy: with a quota of 3 per 100 ms, a call at `t0` followed by two calls
      at `t0 + 200` leaves the stale entry `t0` in the deque, because `cleanup` returns
      early while fewer than 3 entries are held. A burst of five calls at `t0 + 200` still
      admits exactly three of them. */
  lemma LazyCleanup(t0: int)
    ensures Run(3, 100, [t0, t0 + 200, t0 + 200]).calls == [t0, t0 + 200, t0 + 200]
    ensures Run(3, 100, [t0] + Repeat(t0 + 200, 5)).decisions == [true] + FirstAdmitted(5, 3)
  {
    RunSnoc(3, 100, [], t0);
    assert [] + [t0] == [t0];
    assert Run(3, 100, [t0]).calls == [t0] && Run(3, 100, [t0]).decisions == [true];
    RunSnoc(3, 100, [t0], t0 + 200);
    assert [t0] + [t0 + 200] == [t0, t0 + 200];
    RunSnoc(3, 100, [t0, t0 + 200], t0 + 200);
    assert [t0, t0 + 200] + [t0 + 200] == [t0, t0 + 200, t0 + 200];
    Burst(3, 100, [t0], t0 + 200, 5);
  }

  /** Three calls within 100 ms on a fresh limiter with a quota of three are all admitted
      and all kept. */
  lemma ThreeWithin100ms(t0: int)
    ensures var three := [t0, t0 + 10, t0 + 20];
      Run(3, 100, three) == Trace(three, [true, true, true], three)
  {
    RunSnoc(3, 100, [], t0);
    assert [] + [t0] == [t0];
    assert Run(3, 100, [t0]) == Trace([t0], [true], [t0]);
    RunSnoc(3, 100, [t0], t0 + 10);
    assert [t0] + [t0 + 10] == [t0, t0 + 10];
    assert Run(3, 100, [t0, t0 + 10]) == Trace([t0, t0 + 10], [true, true], [t0, t0 + 10]);
    RunSnoc(3, 100, [t0, t0 + 10], t0 + 20);
    assert [t0, t0 + 10] + [t0 + 20] == [t0, t0 + 10, t0 + 20];
  }

  /** Three per 100 ms, calls spread over the window: calls at 0, 10 and 20 ms are all
      admitted, one at 30 ms finds three admitted calls within 100 ms and is denied, and
      one at 101 ms finds the call at 0 ms stale and is admitted. */
  lemma ThreePer100ms(t0: int)
    ensures Run(3, 100, [t0, t0 + 10, t0 + 20, t0 + 30, t0 + 101]).decisions
      == [true, true, true, false, true]
  {
    var three := [t0, t0 + 10, t0 + 20];
    var four := three + [t0 + 30];
    ThreeWithin100ms(t0);
    RunSnoc(3, 100, three, t0 + 30);
    assert !Stale(t0 + 30, t0, 100);
    assert Run(3, 100, four) == Trace(three, [true, true, true, false], three);
    RunSnoc(3, 100, four, t0 + 101);
    assert four + [t0 + 101] == [t0, t0 + 10, t0 + 20, t0 + 30, t0 + 101];
    assert Stale(t0 + 101, t0, 100) && !Stale(t0 + 101, t0 + 10, 100);
    assert PopStale(three, 100, t0 + 101) == [t0 + 10, t0 + 20];
  }
}
