# throttle_my_fn: the sliding-window admission check

`throttle_my_fn` is a Rust attribute macro. `#[throttle(times, duration)]` rewrites a
function so that it runs at most `times` times over any period of `duration`. The
rewritten function returns `Option<T>`: `Some` of the body's result when the call is
admitted, `None` when it is throttled. Each throttled function gets its own
`VecDeque<Instant>`. The deque holds the timestamps of admitted calls, oldest first, and
every call does three things:

1. `cleanup`. When the deque holds fewer than `times` entries it does nothing. Otherwise
   it pops entries off the front while they are stale, meaning strictly more than
   `duration` has passed since them. It stops at the first fresh entry.
2. The call is denied with `None` if the deque still holds `times` entries or more.
3. Otherwise `now` is pushed at the back and the body runs.

The project models that generated code and proves what it promises.

- `window.dfy`, module `SlidingWindow`: one call as pure functions on the deque
  (`PopStale`, `AfterCleanup`, `Step`), with lemmas about cleanup and about one call.
- `trace.dfy`, module `Traces`: `Run` replays a sequence of call times on a fresh limiter.
  It records the final deque, every admit/deny decision and the log of all admitted
  timestamps. `RunFrom` replays calls from a given limiter state. `CountIn` and
  `WindowCount` count logged calls in a window, and `DecisionByCount` restates one call's
  decision as such a count.
- `trace_properties.dfy`, module `TraceProperties`: properties of whole traces. The main
  one is the rate limit: with non-decreasing call times, every closed window of length
  `duration` contains at most `times` admitted calls. Its converse is `RunDecisionExact`: a
  call is admitted exactly when fewer than `times` admitted calls lie within `duration`
  before it.
- `scenarios.dfy`, module `Scenarios`: bursts of calls at one instant (`Repeat`), and the
  two throttled functions of the crate's documentation and demo program, with time in
  milliseconds.
- `limiter.dfy`, module `Throttle`: class `Limiter`, the per-function state. It has the
  deque as a `seq<int>` field, a looping `Cleanup` method, `TryAdmit`, and `Call`, which
  runs a body only on admission. A ghost `history` of all call times ties the object to
  `Run`.

Timestamps are integers (readings of a monotonic clock) and `duration` is a natural
number in the same unit. `Instant::duration_since` saturates at zero, and `Elapsed`
models that.

Behaviour of the code that a reader of its comments may not expect:

- The comment at src/lib.rs:204-207 says `cleanup` removes every call older than
  `current_time - duration`. The code returns early while the deque holds fewer than
  `times` entries (src/lib.rs:209-211), so stale entries can stay in the deque
  (`LazyCleanup`). This lets no extra call through, because a short deque admits anyway.
- The length is checked once, before the loop. Once `cleanup` starts popping, it pops
  every stale front entry, even after the deque has dropped below `times`.
- Neither argument is validated. A quota of zero makes every call be denied
  (`ZeroQuotaDenies`, `RunZeroQuota`).
- An entry exactly `duration` old is still fresh. So ten calls per second followed by a
  call exactly one second later is denied (`TenPerSecondBoundary`).

## Model

| member | source | states |
|---|---|---|
| SlidingWindow.PopStaleSpec | src/lib.rs:213-219 | the loop only pops from the front, so the result is a suffix of the input; every popped entry is stale; the loop stops at an empty deque or a fresh front entry |
| SlidingWindow.CleanupSpec | src/lib.rs:208-220 | a deque shorter than `times` is left unchanged; the result is always a suffix with only stale entries removed; after a cleanup that starts from `times` or more entries, the deque is empty or its front is at most `duration` old |
| SlidingWindow.PopStaleAllStale | src/lib.rs:213-219 | when every entry is stale, the loop empties the deque |
| SlidingWindow.StepLengthBound | src/lib.rs:206-241 | a call that finds at most `times` entries leaves at most `times` entries |
| SlidingWindow.StepShape | src/lib.rs:233-241 | a call pops from the front only, and appends `now` at the back only when admitted |
| SlidingWindow.StepKeepsSorted | src/lib.rs:233-241 | a sorted deque stays sorted under a call at a time no earlier than its entries |
| SlidingWindow.AdmittedAfterQuiet | src/lib.rs:208-241 | with a nonzero quota, a call made when every recorded entry is stale is admitted |
| SlidingWindow.ZeroQuotaDenies | src/lib.rs:209-239 | with `times == 0` every call is denied, and an empty deque stays empty |
| SlidingWindow.StepKeepsSuffix | src/lib.rs:233-241 | the deque stays a suffix of the log of admitted calls across a call |
| SlidingWindow.StepKeepsStalePrefix | src/lib.rs:213-241 | across a call, every logged entry that is not in the deque is stale at that call's time |
| Traces.Run | src/lib.rs:222-247 | replaying a trace makes one decision per call |
| Traces.PopStaleCount | src/lib.rs:213-219 | on a sorted deque with no entry after `now`, the loop keeps exactly the entries that lie in `[now - duration, now]` |
| Traces.DecisionByCount | src/lib.rs:208-241 | given a sorted deque with no entry after `now`, a suffix of the log whose popped entries are stale, a call is admitted exactly when fewer than `times` logged calls lie in `[now - duration, now]` |
| Traces.WindowAppend | src/lib.rs:236-241 | suppose fewer than `times` logged entries are fresh and every window holds at most `times` entries; then recording `now` keeps every window within the quota |
| TraceProperties.RunLengthBound | src/lib.rs:204-241 | the deque never holds more than `times` entries |
| TraceProperties.RunCallsSuffixOfLog | src/lib.rs:213-241 | the deque is always the log of admitted calls with some oldest entries removed |
| TraceProperties.RunSorted | src/lib.rs:213-241 | with non-decreasing call times, the log and the deque are sorted, and no logged entry is later than the last call |
| TraceProperties.RunPoppedAreStale | src/lib.rs:213-219 | with non-decreasing call times, every admitted timestamp already popped is stale at the last call |
| TraceProperties.RunWindowBound | src/lib.rs:97-100 | with non-decreasing call times, every closed window of length `duration` holds at most `times` admitted calls |
| TraceProperties.RunAdmittedCallWindow | src/lib.rs:97-100 | with non-decreasing call times, for each admitted call at time `t` at most `times` admitted calls lie in `[t - duration, t]` |
| TraceProperties.RunAdmittedAfterQuiet | src/lib.rs:208-241 | with a nonzero quota and non-decreasing call times, a call made more than `duration` after the previous call is admitted |
| TraceProperties.RunDecisionExact | src/lib.rs:204-241 | with non-decreasing call times, a call at `now` is admitted if and only if fewer than `times` earlier admitted calls lie in `[now - duration, now]` |
| TraceProperties.RunCallsAtMostCalls | src/lib.rs:233-241 | each call pushes at most one entry, so the deque never holds more entries than calls made |
| TraceProperties.RunPrefix | src/lib.rs:222-247 | a call's decision depends only on the calls before it: later calls leave earlier decisions unchanged |
| TraceProperties.RunFirstCallsAdmitted | src/lib.rs:209-241 | the first `times` calls of any trace are admitted, however close together they are |
| TraceProperties.RunZeroQuota | src/lib.rs:209-239 | with `times == 0` every call of any trace is denied, and the deque and the log stay empty |
| Scenarios.BurstStep | src/lib.rs:208-241 | during a burst of calls at one instant `t` that started on a deque of stale entries, the call numbered `j` is admitted exactly when `j < times`; the deque keeps the stale entries while every call found fewer than `times` entries, and otherwise holds only the burst's `min(j + 1, times)` admitted calls |
| Scenarios.BurstFrom | src/lib.rs:208-241 | from any limiter state whose deque holds only entries stale at `t`, a burst of `j` calls at `t` admits exactly its first `times` calls and leaves the deque `BurstDeque` describes |
| Scenarios.Burst | src/lib.rs:208-241 | a burst at one instant after every entry in the deque went stale admits exactly its first `times` calls, whether the deque was empty, short or full |
| Scenarios.BurstFills | src/lib.rs:208-241 | once a burst has made `times` calls or more, the deque holds exactly `times` copies of its instant |
| Scenarios.FreshBurst | src/lib.rs:224-241 | a fresh limiter admits the first `times` calls of a burst and denies the rest |
| Scenarios.TenPerSecond | examples/test.rs:4-24 | at ten per second, twenty calls at once admit ten, and twenty more 1001 ms later admit ten again |
| Scenarios.TenPerSecondBoundary | src/lib.rs:214-218 | after ten calls at `t0`, a call at exactly `t0 + 1000` is denied because the comparison is strict |
| Scenarios.LazyCleanup | src/lib.rs:209-211 | at three per 100 ms, a call at `t0` and two calls at `t0 + 200` leave the stale `t0` in the deque; a burst of five calls at `t0 + 200` still admits exactly three |
| Scenarios.ThreeWithin100ms | src/lib.rs:208-241 | at three per 100 ms, calls at 0, 10 and 20 ms on a fresh limiter are all admitted and all kept in the deque |
| Scenarios.ThreePer100ms | src/lib.rs:208-241 | at three per 100 ms, calls at 0, 10, 20, 30 and 101 ms are admitted, admitted, admitted, denied and admitted |
| Scenarios.OncePer100ms | examples/test.rs:10-14 | at once per 100 ms, calls at 0, 50, 100 and 101 ms are admitted, denied, denied and admitted |
| Throttle.Limiter.constructor | src/lib.rs:224-230 | the deque starts empty, before any call, and matches the replay of the empty trace |
| Throttle.Limiter.Cleanup | src/lib.rs:208-220 | the loop leaves exactly the deque `AfterCleanup` describes |
| Throttle.Limiter.TryAdmit | src/lib.rs:222-241 | a call is denied exactly when the cleaned deque holds `times` or more entries. A denied call leaves the cleaned deque. An admitted call leaves the cleaned deque plus `now`. The deque holds at most `times` entries, and the decision is the replay's. With non-decreasing call times the deque is sorted and every window holds at most `times` admitted calls |
| Throttle.Limiter.Call | src/lib.rs:233-247 | `Some` of the body's result exactly when the call is admitted, otherwise `None`, with the same deque update as `TryAdmit` |

## Left out

- The macro's token plumbing is not modelled: parsing `times` and `duration`, rewriting the signature, and generating the outer and inner functions (src/lib.rs:116-190, 249-251). The same goes for the `err` helper (src/lib.rs:78-84). It rewrites syntax trees through crates that are not part of this model.
- The `static mut MaybeUninit` plus `AtomicBool` lazy initialisation (src/lib.rs:224-230) becomes the `Limiter` constructor. The deque's capacity hint has no observable effect and is dropped.
- The `Mutex` lock, its `unwrap` and the `drop` are not modelled (src/lib.rs:233, 245). Each call is one atomic step, so concurrent callers are not modelled. `now` is read before the lock is taken, so concurrent calls can push timestamps out of order. Sortedness and the window bound are therefore proved only for sequential traces with non-decreasing call times.
- `Instant::now()` becomes the `now` parameter, and `Duration` becomes a natural number of clock units. Clock resolution and overflow of `Instant` arithmetic are not modelled.
- Throttle.Limiter.Call: the body is a pure function value `() -> T`. Its side effects and its arguments are not modelled; the contract states only that its result is returned on admission and that a denied call returns `None`.
- The demo program's `eprintln!`, `thread::sleep` and `thread::spawn` calls are not modelled (examples/test.rs:16-49). Its sleeps appear as the explicit gaps of the `Scenarios` lemmas.
