# Simple circuit breaker, modelled in Dafny

This project models the circuit breaker of `cn.ddlover.util`: the `CircuitBreaker` class and the `CircuitBreakerRunner.run` wrapper that sends calls through it.

The breaker keeps three pieces of state:

- a window of at most `totalTime` outcome markers, oldest first (0 is a success, 1 is a failure);
- a running tally `failedNum` of the failures in that window;
- an open/closed `state` (0 closed, 1 open).

Recording an outcome offers its marker to the window. When the window is full, the oldest marker is evicted and taken off the tally, and the offer is retried. A failure adds one to the tally. When the tally reaches `failToBreaker` on a closed breaker, the breaker opens and one deferred reset is scheduled. The reset zeroes the tally, closes the breaker and empties the window. `run` returns the fallback while the breaker is open. Otherwise it runs the operation, records exactly one outcome, and returns the operation's value or rethrows its exception.

Files:

- `window.dfy`, module `Window`: the window as values. `Marker` maps an outcome to its marker. `Failures` counts failure markers. `Slide` is the evict-then-append step. `Recent(h, cap)` gives the last min(|h|, cap) outcomes of a history. The module also holds the lemmas that connect these.
- `circuit_breaker.dfy`, module `CircuitBreaker`: `class Breaker<T>`, whose methods update `queue`, `failedNum` and `state` in place. `Sound()` holds between any two steps, and also halfway through an eviction, once the oldest marker has been polled and subtracted from the tally. It says:
  - the window is bounded and holds only markers;
  - the tally equals the number of failure markers;
  - `state` is 0 or 1;
  - a closed breaker has a tally below the threshold (or zero);
  - an open breaker has a reset pending.

  `Valid()` adds that the window is `Recent(history, totalTime)`, where the ghost field `history` is every marker recorded since construction or the last reset. The timer thread is the ghost counter `pendingResets` (resets scheduled and not yet fired) plus the method `FireScheduledReset`, which does what the timer task does.
- `runner.dfy`, module `Runner`: `Run`. The caller's `Callable` is the parameter `op : Outcome<T>`, which is what the call would do: return a value, throw an `Exception`, or throw a non-`Exception` throwable. The result is in the same terms.
- `scenarios.dfy`, module `Scenarios`: two concrete call sequences, proved from the contracts above alone.

Successes never re-check the threshold, so an open breaker stays open even after eviction clears every failure from the window, until the reset fires. `Scenarios.StickyUntilReset` proves this.

## Model

| member | source | states |
|---|---|---|
| `Window.Marker` | src/main/java/cn/ddlover/util/CircuitBreaker.java:127 | the marker of an outcome is 0 or 1, and it is 1 exactly for a failure |
| `Window.Slide` | src/main/java/cn/ddlover/util/CircuitBreaker.java:127-139 | one evict-then-append step on a window of n markers: the result has min(n+1, cap) markers and ends with the new marker |
| `Window.SlideKeepsNewest` | src/main/java/cn/ddlover/util/CircuitBreaker.java:127-139 | before the new marker, one step keeps the newest old markers: all of them when the window had room, all but the oldest (the polled head) when it was full |
| `Window.Failures` | src/main/java/cn/ddlover/util/CircuitBreaker.java:49-56 | the failure count of a window is at most its length, and is zero exactly when the window holds no failure marker |
| `Window.FailuresAppend` | src/main/java/cn/ddlover/util/CircuitBreaker.java:127-131 | appending a marker raises the failure count by one exactly when the marker is a failure (the `offer` then `addFailedNum` path) |
| `Window.FailuresDropOldest` | src/main/java/cn/ddlover/util/CircuitBreaker.java:133-137 | for a window of markers, dropping the oldest lowers the failure count by that marker's value (the `poll` then `addAndGet(-head)` path) |
| `Window.SlideFailures` | src/main/java/cn/ddlover/util/CircuitBreaker.java:125-141 | one evict-then-append step gives a window of markers of length min(n+1, cap) ending in the new marker; its failure count is the old count, minus the evicted marker, plus the new one |
| `Window.RecentSuffix` | src/main/java/cn/ddlover/util/CircuitBreaker.java:121-124 | `Recent(h, cap)` is a suffix of `h` of length min(\|h\|, cap) |
| `Window.SlideRecent` | src/main/java/cn/ddlover/util/CircuitBreaker.java:121-141 | sliding the last min(n, cap) outcomes by a new outcome gives the last min(n+1, cap) outcomes of the extended history, so the window is always the most recent outcomes since the last reset |
| `CircuitBreaker.Breaker.constructor` | src/main/java/cn/ddlover/util/CircuitBreaker.java:63-70 | with a positive capacity, the new breaker is valid, closed, has an empty window, a zero tally, no pending reset, and keeps the threshold, capacity and fallback given |
| `CircuitBreaker.Breaker.CanRun` | src/main/java/cn/ddlover/util/CircuitBreaker.java:72-74 | reads only; on a valid breaker, refusing calls means the breaker is open (`state == 1`) and a reset is pending |
| `CircuitBreaker.Breaker.DoFallBack` | src/main/java/cn/ddlover/util/CircuitBreaker.java:76-78 | returns the configured fallback value and modifies nothing |
| `CircuitBreaker.Breaker.Reset` | src/main/java/cn/ddlover/util/CircuitBreaker.java:83-87 | afterwards the tally is 0, the breaker is closed, and the window and history are empty, whatever the state before. So a second reset changes nothing. Only those fields change, and the breaker stays valid |
| `CircuitBreaker.Breaker.AddFailedNum` | src/main/java/cn/ddlover/util/CircuitBreaker.java:92-104 | the tally rises by one. The breaker is open afterwards iff it reaches the threshold or was open already. One reset is scheduled iff this call opened a closed breaker. Window and history are untouched |
| `CircuitBreaker.Breaker.ScheduleToReset` | src/main/java/cn/ddlover/util/CircuitBreaker.java:109-119 | scheduling adds exactly one pending reset and touches nothing else |
| `CircuitBreaker.Breaker.FireScheduledReset` | src/main/java/cn/ddlover/util/CircuitBreaker.java:110-113 | the timer task firing does a full reset, so the breaker is closed and empty afterwards, and one fewer reset is pending |
| `CircuitBreaker.Breaker.AddExecuteNum` | src/main/java/cn/ddlover/util/CircuitBreaker.java:125-141 | the new window is `Slide(old window, totalTime, marker)` and the history grows by the marker. The breaker keeps `Sound()` and, from a valid state, `Valid()`. It is open afterwards iff it was open or this failure brought the tally to the threshold. A reset is scheduled iff this call opened it. So a success never changes the state or schedules anything, and an open breaker stays open |
| `Runner.Run` | src/main/java/cn/ddlover/util/CircuitBreakerRunner.java:12-26 | the operation runs iff the breaker was closed. When open: returns the fallback and leaves the breaker unchanged. When closed: returns exactly the operation's value or throwable and records exactly one outcome. That outcome is a failure only for an `Exception`, so an `Error` is recorded as a success. Afterwards the breaker is open iff it was open, or this failure brought the tally to the threshold. A reset is scheduled iff this call opened it |
| `Runner.RecordedAsSuccess` | src/main/java/cn/ddlover/util/CircuitBreakerRunner.java:14-18 | a returned value and a thrown `Error` are recorded as successes; only a caught `Exception` is recorded as a failure |
| `Scenarios.TripOnThreeOfFour` | src/main/java/cn/ddlover/util/CircuitBreakerRunner.java:12-26 | threshold 3, window 5: after fail, fail, success, fail the breaker is open, the next call returns the fallback, and after the scheduled reset fires calls are let through again |
| `Scenarios.StickyUntilReset` | src/main/java/cn/ddlover/util/CircuitBreaker.java:92-104 | threshold 2, window 3: fail, fail, then three successes evict both failures, yet the breaker stays open |

The property "once a call opens the breaker, every later call returns the fallback until the reset fires" follows from three contracts. A `Run` on an open breaker changes nothing. `AddExecuteNum` never closes a breaker. Only `Reset`, which `FireScheduledReset` performs, sets `state` back to 0.

## Left out

- Time: the cool-down duration `resetTime`/`unit`, `unit.sleep`, and the single-thread executor that runs the reset task. These are replaced by the ghost counter `pendingResets` and `FireScheduledReset`. The constructor takes no duration, and elapsed time is not modelled.
- Concurrency. The model is sequential, so these are out:
  - the atomicity of `AtomicInteger`;
  - interleavings of concurrent callers;
  - the `state` values above 1 that only races reach;
  - the null-head guard against a reset racing an eviction (`poll` never returns null when the window is full and nothing runs concurrently);
  - the non-atomic three-step reset.
- `RejectedExecutionException`, thrown when a new trip submits a reset while the previous reset task is still running. Sequential use reaches it too: a public `reset()` during the cool-down, followed by a new trip before the old task fires, makes `run` throw from its `finally` block. In the model `Run` instead returns the operation's outcome and `pendingResets` becomes 2; the executor's single-slot rejection is not modelled.
- `InterruptedException` in the reset task. An interrupted task never resets, and the model has no way to interrupt the timer.
- Logging (`System.out.println`, `printStackTrace`).
- The bodies of the caller's `Supplier<T>` and `Callable<T>`. The fallback is a constant value, and the operation is its `Outcome`.
- CircuitBreaker.Breaker.constructor: requires a positive capacity, because `LinkedBlockingDeque` throws `IllegalArgumentException` for a capacity of 0 or less. That error path is not modelled.
- 32-bit overflow: `failedNum` stays between 0 and `totalTime`, and `state` between 0 and 1, so Java `int` arithmetic never wraps on the modelled paths. Integers are therefore unbounded in the model.
- src/test/java/cn/ddlover/util/CircuitBreakerRunnerTest.java is not part of this model: it is a random multi-threaded driver that asserts nothing.
