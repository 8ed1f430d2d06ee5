/** The circuit breaker: a bounded window of recent outcomes, a running
    failure tally, and an open/closed state. A failure that brings the tally
    to the threshold opens the breaker and schedules one deferred reset; the
    reset empties the window and closes the breaker again.

    The model is sequential. The deferred reset is the ghost counter
    `pendingResets` (scheduled and not yet fired) together with the method
    `FireScheduledReset`, which performs what the timer task does. */
module CircuitBreaker {
  import opened Window

  class Breaker<T> {
    /** Failures within the window that open the breaker (not validated). */
    const failToBreaker: int
    /** Capacity of the window: how many recent outcomes are sampled. */
    const totalTime: int
    /** The value substituted for a call while the breaker is open. */
    const fallback: T

    /** 0 closed, 1 open. */
    var state: int
    /** Running count of the failures in `queue`. */
    var failedNum: int
    /** The window of markers, oldest first. */
    var queue: seq<int>

    /** Markers recorded since construction or the last reset. */
    ghost var history: seq<int>
    /** Resets scheduled by a trip that have not fired yet. */
    ghost var pendingResets: nat

    /** What holds between steps, including halfway through an eviction. */
    ghost predicate Sound()
      reads this
    {
      && 0 < totalTime
      && |queue| <= totalTime
      && Markers(queue)
      && failedNum == Failures(queue)
      && (state == 0 || state == 1)
      && (state == 0 ==> failedNum == 0 || failedNum < failToBreaker)
      && (state == 1 ==> pendingResets > 0)
    }

    /** The object invariant: also, the window is the most recent outcomes. */
    ghost predicate Valid()
      reads this
    {
      Sound() && queue == Recent(history, totalTime)
    }

    constructor (failToBreaker: int, totalTime: int, fallback: T)
      requires 0 < totalTime
      ensures Valid()
      ensures this.failToBreaker == failToBreaker && this.totalTime == totalTime
      ensures this.fallback == fallback
      ensures state == 0 && failedNum == 0 && queue == []
      ensures history == [] && pendingResets == 0
    {
      this.failToBreaker := failToBreaker;
      this.totalTime := totalTime;
      this.fallback := fallback;
      state := 0;
      failedNum := 0;
      queue := [];
      history := [];
      pendingResets := 0;
    }

    /** Calls are let through exactly while the breaker is closed. */
    predicate CanRun()
      reads this
      ensures Valid() && !CanRun() ==> state == 1 && pendingResets > 0
    {
      state == 0
    }

    /** The substitute result; reads the configuration and changes nothing. */
    method DoFallBack() returns (r: T)
      ensures r == fallback
    {
      r := fallback;
    }

    /** Empty the window, zero the tally and close the breaker, whatever the
        state was; the outcome does not depend on the state before, so a
        second reset changes nothing. */
    method Reset()
      requires Valid()
      modifies this`failedNum, this`state, this`queue, this`history
      ensures Valid() && CanRun()
      ensures failedNum == 0 && state == 0 && queue == [] && history == []
    {
      failedNum := 0;
      state := 0;
      queue := [];
      history := [];
    }

    /** Count one more failure; if the tally reaches the threshold and the
        breaker is not already open, open it, and the caller that opened it
        schedules the reset. */
    method AddFailedNum()
      requires 0 < totalTime && |queue| <= totalTime && Markers(queue)
      requires failedNum + 1 == Failures(queue)
      requires state == 0 || state == 1
      requires state == 1 ==> pendingResets > 0
      modifies this`failedNum, this`state, this`pendingResets
      ensures Sound()
      ensures failedNum == old(failedNum) + 1
      ensures state == if failedNum >= failToBreaker then 1 else old(state)
      ensures pendingResets == old(pendingResets) + if old(state) == 0 && state == 1 then 1 else 0
    {
      failedNum := failedNum + 1;
      if failedNum >= failToBreaker && state != 1 {
        state := state + 1;
        if state == 1 {
          ScheduleToReset();
        }
      }
    }

    /** Stands for handing the deferred reset to the timer thread. */
    ghost method ScheduleToReset()
      modifies this`pendingResets
      ensures pendingResets == old(pendingResets) + 1
    {
      pendingResets := pendingResets + 1;
    }

    /** The timer task firing: the deferred reset runs and is no longer pending. */
    method FireScheduledReset()
      requires Valid() && pendingResets > 0
      modifies this`failedNum, this`state, this`queue, this`history, this`pendingResets
      ensures Valid() && CanRun()
      ensures failedNum == 0 && state == 0 && queue == [] && history == []
      ensures pendingResets == old(pendingResets) - 1
    {
      Reset();
      pendingResets := pendingResets - 1;
    }

    /** Record one outcome: offer its marker to the window; when the window is
        full, evict the oldest marker, take it off the tally and try again. A
        success never changes the state or schedules anything; a failure
        opens a closed breaker once the tally reaches the threshold. */
    method AddExecuteNum(success: bool)
      requires Sound()
      modifies this`failedNum, this`state, this`queue, this`history, this`pendingResets
      decreases if |queue| < totalTime then 0 else 1
      ensures Sound()
      ensures queue == Slide(old(queue), totalTime, Marker(success))
      ensures history == old(history) + [Marker(success)]
      ensures state == if !success && failedNum >= failToBreaker then 1 else old(state)
      ensures pendingResets == old(pendingResets) + if old(state) == 0 && state == 1 then 1 else 0
      ensures old(Valid()) ==> Valid()
    {
      var m := Marker(success);
      if |queue| < totalTime {
        // the offer succeeds
        FailuresAppend(queue, m);
        queue := queue + [m];
        history := history + [m];
        if !success {
          AddFailedNum();
        }
      } else {
        // the window is full: evict the oldest marker, then retry
        FailuresDropOldest(queue);
        var head := queue[0];
        queue := queue[1..];
        failedNum := failedNum - head;
        AddExecuteNum(success);
      }
      if old(Valid()) {
        SlideRecent(old(history), totalTime, m);
      }
    }
  }
}
