/** The breaker's sliding window, as values.

    The window is a FIFO of outcome markers (0 for a success, 1 for a failure),
    oldest first, holding at most `cap` of them. Recording an outcome evicts the
    oldest marker when the window is full and then appends the new one. This
    module gives that step (`Slide`), the failure count the breaker keeps as a
    running tally (`Failures`), and the view the window is meant to give: the
    most recent `cap` outcomes (`Recent`). */
module Window {

  /** The marker queued for one outcome: 0 for a success, 1 for a failure. */
  function Marker(success: bool): (m: int)
    ensures m == 0 || m == 1
    ensures m == 1 <==> !success
  {
    if success then 0 else 1
  }

  /** Every element of `w` is a marker. */
  predicate Markers(w: seq<int>) {
    forall i :: 0 <= i < |w| ==> w[i] == 0 || w[i] == 1
  }

  /** The number of failure markers in `w`. */
  function Failures(w: seq<int>): (n: nat)
    ensures n <= |w|
    ensures n == 0 <==> forall i :: 0 <= i < |w| ==> w[i] != 1
  {
    if w == [] then 0 else (if w[0] == 1 then 1 else 0) + Failures(w[1..])
  }

  /** Record marker `m` in window `w` of capacity `cap`: when the window is
      full the oldest marker is evicted first. */
  function Slide(w: seq<int>, cap: int, m: int): (r: seq<int>)
    requires 0 < cap && |w| <= cap
    ensures |r| == if |w| < cap then |w| + 1 else cap
    ensures r[|r| - 1] == m
  {
    if |w| < cap then w + [m] else w[1..] + [m]
  }

  /** The last min(|h|, cap) elements of `h`. */
  function Recent(h: seq<int>, cap: nat): seq<int> {
    if |h| <= cap then h else h[|h| - cap..]
  }

  /** Appending a marker adds one to the failure count exactly when it is a failure. */
  lemma {:induction false} FailuresAppend(w: seq<int>, m: int)
    ensures Failures(w + [m]) == Failures(w) + (if m == 1 then 1 else 0)
  {
    if w != [] {
      assert (w + [m])[1..] == w[1..] + [m];
      FailuresAppend(w[1..], m);
    }
  }

  /** The failure count of a window of markers is the sum of its markers, so
      dropping the oldest marker lowers the count by that marker's value. */
  lemma FailuresDropOldest(w: seq<int>)
    requires Markers(w) && w != []
    ensures Markers(w[1..])
    ensures Failures(w[1..]) == Failures(w) - w[0]
  {
  }

  /** One evict-then-append step keeps the window bounded by its capacity,
      keeps it a window of markers, ends it with the new marker, and moves the
      failure count by the new marker minus the evicted one. */
  lemma SlideFailures(w: seq<int>, cap: int, m: int)
    requires 0 < cap && |w| <= cap && Markers(w)
    requires m == 0 || m == 1
    ensures |Slide(w, cap, m)| == if |w| < cap then |w| + 1 else cap
    ensures Markers(Slide(w, cap, m))
    ensures Slide(w, cap, m)[|Slide(w, cap, m)| - 1] == m
    ensures Failures(Slide(w, cap, m)) == Failures(w) - (if |w| < cap then 0 else w[0]) + m
  {
    if |w| < cap {
      FailuresAppend(w, m);
    } else {
      FailuresDropOldest(w);
      FailuresAppend(w[1..], m);
    }
  }

  /** Before the new marker, one step keeps the newest old markers: all of
      them when the window had room, all but the oldest when it was full. */
  lemma SlideKeepsNewest(w: seq<int>, cap: int, m: int)
    requires 0 < cap && |w| <= cap
    ensures Slide(w, cap, m)[..|Slide(w, cap, m)| - 1] == w[|w| - (|Slide(w, cap, m)| - 1)..]
  {
  }

  /** `Recent(h, cap)` has min(|h|, cap) elements and is a suffix of `h`. */
  lemma RecentSuffix(h: seq<int>, cap: nat)
    ensures |Recent(h, cap)| == if |h| <= cap then |h| else cap
    ensures h == h[..|h| - |Recent(h, cap)|] + Recent(h, cap)
  {
  }

  /** Sliding the most recent outcomes by one more outcome gives the most
      recent outcomes of the longer history: a window maintained by `Slide`
      from empty is always the last min(n, cap) outcomes. */
  lemma SlideRecent(h: seq<int>, cap: int, m: int)
    requires 0 < cap
    ensures |Recent(h, cap)| <= cap
    ensures Slide(Recent(h, cap), cap, m) == Recent(h + [m], cap)
  {
  }
}
