# Per-user rate limiters, modelled in Dafny

This project models the two per-user rate limiters of `throttling_rate_limiter.py`.

- **`SlidingWindow`** (`sliding_window.dfy`) models `SlidingWindowRateLimiter`.
  - For each user id, the limiter keeps a queue of timestamps, oldest first.
  - It purges expired timestamps lazily, from the front of the queue, whenever that user is inspected.
  - A timestamp `t` is expired at time `now` when `t <= now - window_size`. The live window is therefore `(now - window_size, now]`.
  - A user whose queue becomes empty loses their map entry.
  - A user is admitted when fewer than `max_requests` timestamps remain.
- **`Throttling`** (`throttling.dfy`) models `ThrottlingRateLimiter`.
  - For each user id, the limiter keeps the time of that user's last admitted message.
  - A user may send once at least `min_interval` has elapsed since then.
  - A user with no entry counts as last admitted at time 0.
  - `record_message` is check-then-set and is the only operation that changes the state.
  - `time_until_next_allowed` reports the remaining wait, clamped at zero.

Each limiter is an immutable datatype. Each method of the source is a pure function of the state and an explicit `now`: the current time is a parameter instead of a call to `time.time()`. Times, `window_size` and `min_interval` are mathematical reals, and `max_requests` is an integer.

Two consequences of the code worth stating:

- **Never-seen user.** In `ThrottlingRateLimiter`, a user with no entry counts as last admitted at time 0, because of `.get(user_id, 0)`. With small clock values the first attempt is therefore refused until `now >= min_interval` (`FirstAttemptBeforeInterval`). With a wall clock measured from the epoch this never happens in practice.
- **No record operation for the sliding window.** Nothing in `SlidingWindowRateLimiter` appends a timestamp, so no such operation is modelled. The cleanup and admission properties are stated over an arbitrary state. The predicate `Valid` describes the ordering the queues would have if something appended to them. A freshly built limiter is never changed by a query (`InitQueryUnchanged`), so the limiter as written admits everybody whenever `max_requests >= 1`.

Both constructors keep the source's default arguments: `window_size = 10` and `max_requests = 1`, and `min_interval = 10.0`.

## Model

| member | source | states |
|---|---|---|
| SlidingWindow.Init | throttling_rate_limiter.py:7-10 | The constructor stores `window_size` and `max_requests`, which default to 10 and 1, and starts with no queues. Such a limiter is well-formed and admits every user at every time exactly when `max_requests > 0`. |
| SlidingWindow.ExpiredPrefixEnd | throttling_rate_limiter.py:14-18 | The scan of the cleanup loop stops at the first timestamp newer than the cutoff (or at the end). Every timestamp it passes is at or before the cutoff. |
| SlidingWindow.DropExpired | throttling_rate_limiter.py:14-18 | Popping expired timestamps never lengthens the queue. Every removed timestamp satisfies `t <= now - window_size`. The new head, if any, is newer than `now - window_size`. |
| SlidingWindow.DropExpiredIsSuffix | throttling_rate_limiter.py:14-18 | What cleanup leaves is a suffix `q[k..]` of the original queue, for some `0 <= k <= |q|`. It only removes from the front. |
| SlidingWindow.DropExpiredUnique | throttling_rate_limiter.py:14-18 | The result is the suffix `q[k..]` for the only cut `k` with an all-expired prefix and a live head (or no head). |
| SlidingWindow.PopExpired | throttling_rate_limiter.py:14-18 | The front-popping `while` loop computes the same queue as `DropExpired`. |
| SlidingWindow.CleanupWindow | throttling_rate_limiter.py:12-20 | An absent user leaves the state unchanged. Otherwise the user's queue becomes its unexpired suffix, whose head is newer than `now - window_size`. The entry is deleted exactly when that suffix is empty. Every other user's entry is untouched, and no key is added. |
| SlidingWindow.CleanupPreservesValid | throttling_rate_limiter.py:12-20 | Cleanup keeps every stored queue non-empty and non-decreasing. |
| SlidingWindow.CleanupIdempotent | throttling_rate_limiter.py:12-20 | Cleaning the same user twice at the same `now` gives the same state as cleaning once. |
| SlidingWindow.DropExpiredLater | throttling_rate_limiter.py:14-18 | Cleaning a queue at an earlier cutoff and then at a later one leaves the same queue as cleaning once at the later cutoff. |
| SlidingWindow.DropExpiredSortedIsLive | throttling_rate_limiter.py:14-18 | For a non-decreasing queue, what cleanup leaves is exactly the timestamps newer than the cutoff, in order. `Live` is an independent filter definition of that set. |
| SlidingWindow.DropExpiredKeepsLive | throttling_rate_limiter.py:14-18 | For any queue, ordered or not, cleanup keeps every live timestamp: the live part of the remaining queue equals the live part of the original queue. |
| SlidingWindow.StaleBehindLiveSurvives | throttling_rate_limiter.py:14-18 | The scan stops at the first live timestamp, so in an out-of-order queue a stale timestamp behind it survives. Cleaning `[5, 0]` at cutoff 1 leaves `[5, 0]`, whose live part is only `[5]`. |
| SlidingWindow.CanSendMessage | throttling_rate_limiter.py:22-25 | The admission query returns the cleaned-up state. It admits exactly when the user's remaining count, 0 for an absent user, is below `max_requests`. That count never grows. |
| SlidingWindow.AdmissionCountsLive | throttling_rate_limiter.py:22-25 | When the user's queue is ordered, as in a well-formed limiter, the user is admitted at `now` exactly when fewer than `max_requests` of their timestamps are newer than `now - window_size`. |
| SlidingWindow.ExpiryBoundary | throttling_rate_limiter.py:16 | For an ordered queue, after a query at `now`, a stored timestamp `t` is still stored exactly when `t > now - window_size`. A timestamp exactly `window_size` old is gone. |
| SlidingWindow.CanSendMessageIdempotent | throttling_rate_limiter.py:22-25 | Repeating a query at the same `now` gives the same answer and the same state. |
| SlidingWindow.CanSendMessageNeverGrows | throttling_rate_limiter.py:22-25 | An admission query never increases the total number of timestamps stored across all users. |
| SlidingWindow.InitQueryUnchanged | throttling_rate_limiter.py:7-25 | A query on a freshly built limiter leaves it unchanged. Nothing ever appends a timestamp, so the only reachable state is the initial one. |
| SlidingWindow.ScenarioOneRequestPerWindow | throttling_rate_limiter.py:7-25 | With the default window of 10 and capacity of 1, one request at time 0: a query at time 5 is refused and a query at time 11 is admitted. |
| Throttling.Init | throttling_rate_limiter.py:29-31 | The constructor stores `min_interval`, which defaults to 10.0, and remembers nobody. Every user may send at `now` exactly when `now >= min_interval`, and the wait is whatever is missing to that. |
| Throttling.CanSendMessage | throttling_rate_limiter.py:33-35 | A known user may send once `last + min_interval <= now`. An unknown user counts as last admitted at 0 (the helper `LastTime`), so may send once `min_interval <= now`. The query returns only a boolean, so it cannot change the state. |
| Throttling.RecordMessage | throttling_rate_limiter.py:37-41 | Admits exactly when `CanSendMessage` holds. On admission the map becomes the old map with the user set to `now`, and nothing else changes. On refusal the state is returned unchanged. |
| Throttling.TimeUntilNextAllowed | throttling_rate_limiter.py:43-45 | The wait is never negative. It is zero exactly when the user may send now. Otherwise `now + wait` is exactly the end of the cooldown. |
| Throttling.WaitIsExact | throttling_rate_limiter.py:33-45 | From `now`, the user may send after a further delay `d >= 0` exactly when `d` is at least the reported wait. |
| Throttling.EligibleStaysEligible | throttling_rate_limiter.py:33-35 | A user who may send at `t` may still send at every later time, as long as nothing is recorded in between. |
| Throttling.WaitAfterRecord | throttling_rate_limiter.py:37-45 | Right after an admission at `now`, with `min_interval >= 0`, the wait for that user is exactly `min_interval`. |
| Throttling.Cooldown | throttling_rate_limiter.py:33-41 | After an admission at `t`, a second attempt at any `t'` is admitted exactly when `t' >= t + min_interval`. |
| Throttling.OtherUserIndependent | throttling_rate_limiter.py:39 | A record attempt by another user, admitted or not, leaves this user's last admission time and the interval unchanged. |
| Throttling.Replay | throttling_rate_limiter.py:37-41 | Replaying any sequence of record attempts keeps the interval. It only adds keys of users who attempted. |
| Throttling.ReplayOthers | throttling_rate_limiter.py:37-41 | Any sequence of record attempts by other users leaves this user's last admission time unchanged. |
| Throttling.CooldownAcrossOthers | throttling_rate_limiter.py:33-41 | After an admission at `t`, followed by any attempts by other users, an attempt at any `t'` is admitted exactly when `t' >= t + min_interval`. |
| Throttling.ScenarioCooldownOfTen | throttling_rate_limiter.py:29-45 | Default interval 10, admission at 1000: refused at 1005 with 5 left to wait, admitted again at 1010. |
| Throttling.FirstAttemptBeforeInterval | throttling_rate_limiter.py:33-45 | With interval 10, a never-seen user is refused at any `now < 10` and is told to wait `10 - now`. |

## Left out

- The demonstration driver `test_throttling_limiter` (lines 48-86) and the `__main__` entry point (lines 89-90) are left out. They do console output, `time.sleep` and `random.uniform` pacing. They also call `init`, which the file never imports.
- The clock (`time.time()`) is an explicit `now` parameter. `record_message` reads the clock twice: once in its cooldown test and once for the stored time. The model uses one `now` for both, which ignores the tiny gap between the two reads.
- Python floating-point arithmetic is left out: times are exact reals, so rounding in `now - last` is not modelled. The source's default `window_size` is an `int`, but every comparison mixes it with a float time, so it is a real here.
- Constructor validation does not exist in the source, so none is modelled. Lemmas that need a sign on a configuration value say so in their own `requires` (for example `WaitAfterRecord` needs `min_interval >= 0`).
- Only `SlidingWindow.CanSendMessage` calls `_cleanup_window`, so the model has no separate operation at that level. `CleanupWindow` is the model of `_cleanup_window`.
- The `deque` of the source is a `seq<real>`, and `popleft` is dropping the first element. The `deque` annotation is never evaluated, so the missing import of `deque` is irrelevant.
- A capacity bound over time ("at most `max_requests` admissions per window") is not stated. Nothing in the sliding-window limiter appends timestamps, so admissions are never recorded and there is nothing to bound.
- Concurrency and locking are left out: the source is single-threaded and has none.
- SlidingWindow.CleanupIdempotent: covers repeated cleanup at the same `now`. For a later `now`, the composition is stated per queue by `DropExpiredLater` rather than for the whole limiter state.
