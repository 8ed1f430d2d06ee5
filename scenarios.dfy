/** Two concrete call sequences on a breaker, proved from the contracts alone. */
module Scenarios {
  import opened Window
  import opened CircuitBreaker
  import opened Runner

  /** Threshold 3, window 5: after fail, fail, success, fail the breaker is
      open and the next call gets the fallback without running; once the
      deferred reset fires, calls are let through again. */
  method TripOnThreeOfFour() returns (openAfterFour: bool, nextCall: Outcome<int>, closedAfterReset: bool)
    ensures openAfterFour
    ensures nextCall == Returns(-1)
    ensures closedAfterReset
  {
    var b := new Breaker<int>(3, 5, -1);
    var boom := Thrown("remote call failed");
    var r;
    ghost var invoked;
    r, invoked := Run(b, ThrowsException(boom));
    r, invoked := Run(b, ThrowsException(boom));
    r, invoked := Run(b, Returns(10));
    r, invoked := Run(b, ThrowsException(boom));
    assert b.queue == [1, 1, 0, 1];
    assert b.failedNum == 3 by {
      assert [1, 1, 0, 1][1..] == [1, 0, 1];
      assert [1, 0, 1][1..] == [0, 1];
      assert [0, 1][1..] == [1];
    }
    openAfterFour := !b.CanRun();
    nextCall, invoked := Run(b, Returns(10));
    b.FireScheduledReset();
    closedAfterReset := b.CanRun();
  }

  /** Threshold 2, window 3: fail, fail opens the breaker; three later
      successes evict both failures, yet the breaker stays open, because
      only a failure re-evaluates the threshold and only the reset closes it. */
  method StickyUntilReset() returns (stillOpen: bool, failuresInWindow: int)
    ensures stillOpen
    ensures failuresInWindow == 0
  {
    var b := new Breaker<int>(2, 3, -1);
    b.AddExecuteNum(false);
    b.AddExecuteNum(false);
    b.AddExecuteNum(true);
    b.AddExecuteNum(true);
    b.AddExecuteNum(true);
    assert b.queue == [0, 0, 0];
    stillOpen := !b.CanRun();
    failuresInWindow := b.failedNum;
  }
}
