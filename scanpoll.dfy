/** The retry loop of `_scan_thread`: after requesting a scan, read the
    access-point list until it is non-empty, a bounded number of times, then
    take one last read whatever it holds. */
module ScanPoll {
  import opened WifiTypes

  const MaxWaitMs := 5000
  const WaitTimeMs := 500
  /** `int(max_wait / wait_time)`. */
  const Iterations := MaxWaitMs / WaitTimeMs

  /** Example: the poll makes ten reads before the final one. */
  lemma IterationsIsTen()
    ensures Iterations == 10
  {
  }

  /** `answers[j]` is what the `j`-th call of `get_access_points()` returns;
      the sleeps between calls are not modelled. Returns the snapshot that is
      handed on and how many reads were made. */
  method PollAccessPoints(answers: seq<Snapshot>) returns (aps: Snapshot, readCount: nat)
    requires |answers| > Iterations
    ensures 1 <= readCount <= Iterations + 1
    ensures aps == answers[readCount - 1]
    ensures forall j :: 0 <= j < readCount - 1 ==> answers[j] == []
    ensures readCount <= Iterations ==> aps != []
  {
    var i := 0;
    while i < Iterations
      invariant 0 <= i <= Iterations
      invariant forall j :: 0 <= j < i ==> answers[j] == []
    {
      var got := answers[i];
      if got != [] {
        return got, i + 1;
      }
      i := i + 1;
    }
    aps := answers[Iterations];
    readCount := Iterations + 1;
  }
}
