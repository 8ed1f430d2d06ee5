/** The dispatch wrapper that sends one call through a breaker.

    The wrapped operation is caller-supplied code; the model takes what it
    would do when invoked as the parameter `op`: return a value, throw an
    `Exception`, or throw a throwable that is not an `Exception` (an `Error`).
    The result of `Run` is given in the same terms. */
module Runner {
  import opened Window
  import opened CircuitBreaker

  /** A throwable, identified by what the caller can observe of it. */
  datatype Thrown = Thrown(description: string)

  /** How a call ends: with a value, with an `Exception`, or with an `Error`. */
  datatype Outcome<T> =
    | Returns(value: T)
    | ThrowsException(exception: Thrown)
    | ThrowsError(error: Thrown)

  /** The outcome the wrapper records: only a caught `Exception` is a failure. */
  predicate RecordedAsSuccess<T>(op: Outcome<T>)
    ensures op.Returns? ==> RecordedAsSuccess(op)
    ensures op.ThrowsError? ==> RecordedAsSuccess(op)
    ensures op.ThrowsException? ==> !RecordedAsSuccess(op)
  {
    !op.ThrowsException?
  }

  /** Let the call through when the breaker is closed, recording exactly one
      outcome before returning or rethrowing; otherwise return the fallback
      and leave the breaker alone. `invoked` says whether the operation ran. */
  method Run<T>(b: Breaker<T>, op: Outcome<T>) returns (r: Outcome<T>, ghost invoked: bool)
    requires b.Valid()
    modifies b
    ensures b.Valid()
    ensures invoked == old(b.CanRun())
    // open: the fallback, and nothing about the breaker changes
    ensures !invoked ==> r == Returns(b.fallback) && unchanged(b)
    // closed: the operation's own result or throwable, never the fallback
    ensures invoked ==> r == op
    // closed: exactly one outcome recorded
    ensures invoked ==> b.history == old(b.history) + [Marker(RecordedAsSuccess(op))]
    ensures invoked ==> b.queue == Slide(old(b.queue), b.totalTime, Marker(RecordedAsSuccess(op)))
    // afterwards the breaker is open exactly when it was open already, or this
    // call failed and brought the tally to the threshold
    ensures !b.CanRun() <==> !invoked || (!RecordedAsSuccess(op) && b.failedNum >= b.failToBreaker)
    // a reset is scheduled exactly when this call opened the breaker
    ensures b.pendingResets == old(b.pendingResets) + if invoked && !b.CanRun() then 1 else 0
    // so a call recorded as a success never opens the breaker nor schedules a reset
    ensures RecordedAsSuccess(op) ==> b.state == old(b.state) && b.pendingResets == old(b.pendingResets)
  {
    if b.CanRun() {
      invoked := true;
      var success := true;
      if op.ThrowsException? {
        success := false;
      }
      b.AddExecuteNum(success);
      r := op;
    } else {
      invoked := false;
      var v := b.DoFallBack();
      r := Returns(v);
    }
  }
}
