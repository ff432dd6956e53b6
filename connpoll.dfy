/** `check_and_refresh`, the poll `_process_connection_result` schedules
    after NetworkManager accepted an activation: each call counts itself,
    reads the device state and either decides or asks to be called again. */
module ConnectionPoll {
  import opened WifiTypes

  /** Thirty checks, half a second apart. */
  const MaxChecks := 30
  /** A disconnected device is waited for up to this many checks ... */
  const DisconnectedGrace := 3
  /** ... and up to this many while an active connection object exists. */
  const DisconnectedGraceActive := 6
  /** Any other unlisted state is waited for while the count is below this. */
  const OtherStateLimit := 5

  /** What one check reads from the window's device. */
  datatype Sample =
    | DeviceGone                                        // `self.wifi_device` is None
    | DeviceReport(state: DeviceState, activeConnection: bool)

  datatype FailReason =
    | Disconnect                    // "failed (disconnected)"
    | DeviceFailed                  // "failed. Password may be required."
    | Unmanaged                     // "failed (unmanaged)"
    | Unavailable                   // "failed (unavailable)"
    | OtherState(state: DeviceState) // "failed (state: ...)"

  datatype Verdict =
    | Connected   // "Connected to ...", then the list is refreshed
    | PollAgain   // the check is scheduled again in 500 ms
    | Failure(reason: FailReason)
    | TimedOut    // "Connection to ... timed out"

  /** The states `check_and_refresh` treats as a connection in progress. */
  predicate Connecting(state: DeviceState) {
    state in {IpConfig, IpCheck, Prepare, Config, NeedAuth}
  }

  /** The decision of the check numbered `count` (the first check is 1). */
  function Classify(count: nat, sample: Sample): Verdict {
    if count > MaxChecks then TimedOut
    else
      match sample
      case DeviceGone => Connected
      case DeviceReport(state, active) =>
        if state == Activated then Connected
        else if Connecting(state) then PollAgain
        else if state == DeviceState.Disconnected then
          if count <= DisconnectedGrace then PollAgain
          else if active && count <= DisconnectedGraceActive then PollAgain
          else Failure(Disconnect)
        else if state == DeviceState.Failed then Failure(DeviceFailed)
        else if state == DeviceState.Unmanaged then Failure(FailReason.Unmanaged)
        else if state == DeviceState.Unavailable then Failure(FailReason.Unavailable)
        else if count < OtherStateLimit then PollAgain
        else Failure(OtherState(state))
  }

  /** A verdict that ends in `_enable_refresh()`. */
  predicate EnablesRefresh(v: Verdict) {
    v.Failure? || v == TimedOut
  }

  /** A verdict that ends in `_refresh_after_connect()`. */
  predicate RefreshesList(v: Verdict) {
    v == Connected
  }

  /** The verdicts by device state: connected only on ACTIVATED or without a
      device; FAILED, UNMANAGED and UNAVAILABLE fail at once; DISCONNECTED
      is waited for up to the third check, or the sixth with an active
      connection; other unlisted states up to the fourth. */
  lemma ClassifyCases(count: nat, sample: Sample)
    requires 1 <= count <= MaxChecks
    ensures Classify(count, sample) == Connected <==>
              sample.DeviceGone? || sample.state == Activated
    ensures sample.DeviceReport? && Connecting(sample.state) ==>
              Classify(count, sample) == PollAgain
    ensures sample.DeviceReport? && sample.state == DeviceState.Disconnected ==>
              (Classify(count, sample) == PollAgain <==>
                 count <= 3 || (sample.activeConnection && count <= 6))
    ensures sample.DeviceReport? && sample.state in {DeviceState.Failed, DeviceState.Unmanaged, DeviceState.Unavailable} ==>
              Classify(count, sample).Failure?
    ensures sample.DeviceReport? && sample.state in {Unknown, Secondaries, Deactivating} ==>
              (Classify(count, sample) == PollAgain <==> count < 5)
              && (count >= 5 ==> Classify(count, sample) == Failure(OtherState(sample.state)))
  {
  }

  /** The check never times out within its budget and always does after. */
  lemma TimeoutExactly(count: nat, sample: Sample)
    ensures Classify(count, sample) == TimedOut <==> count > MaxChecks
  {
  }

  /** Every verdict but "again" does exactly one of the two follow-ups. */
  lemma OneFollowUp(v: Verdict)
    requires v != PollAgain
    ensures EnablesRefresh(v) != RefreshesList(v)
  {
  }

  /** The poll with its counter `check_count[0]`. */
  class ConnectionCheck {
    var checkCount: nat

    constructor ()
      ensures checkCount == 0
    {
      checkCount := 0;
    }

    /** One call of `check_and_refresh`: the counter goes up first, then
        the sample is classified. */
    method CheckAndRefresh(sample: Sample) returns (v: Verdict)
      modifies this
      ensures checkCount == old(checkCount) + 1
      ensures v == Classify(checkCount, sample)
    {
      checkCount := checkCount + 1;
      v := Classify(checkCount, sample);
    }
  }

  /** Runs the poll until it decides. `samples[j]` is what check `j + 1`
      reads; a 31st call, if reached, times out before reading anything.
      Returns the verdict, the number of calls and how often each follow-up
      ran. */
  method RunConnectionChecks(samples: seq<Sample>)
    returns (v: Verdict, checks: nat, refreshEnables: nat, listRefreshes: nat)
    requires |samples| >= MaxChecks
    ensures 1 <= checks <= MaxChecks + 1
    ensures v != PollAgain
    ensures v == TimedOut <==> checks == MaxChecks + 1
    ensures checks <= MaxChecks ==> v == Classify(checks, samples[checks - 1])
    ensures forall j :: 0 <= j < checks - 1 ==> Classify(j + 1, samples[j]) == PollAgain
    ensures refreshEnables == (if EnablesRefresh(v) then 1 else 0)
    ensures listRefreshes == (if RefreshesList(v) then 1 else 0)
    ensures refreshEnables + listRefreshes == 1
  {
    var check := new ConnectionCheck();
    checks, refreshEnables, listRefreshes := 0, 0, 0;
    v := PollAgain;
    while v == PollAgain
      invariant check.checkCount == checks <= MaxChecks + 1
      invariant v == PollAgain ==> checks <= MaxChecks
      invariant v == PollAgain <==> checks == 0 || Classify(checks, if checks <= MaxChecks then samples[checks - 1] else DeviceGone) == PollAgain
      invariant checks > 0 ==> v == Classify(checks, if checks <= MaxChecks then samples[checks - 1] else DeviceGone)
      invariant forall j :: 0 <= j < checks - 1 ==> Classify(j + 1, samples[j]) == PollAgain
      invariant refreshEnables == (if EnablesRefresh(v) then 1 else 0)
      invariant listRefreshes == (if RefreshesList(v) then 1 else 0)
      decreases MaxChecks + 1 - checks
    {
      var sample := if checks < MaxChecks then samples[checks] else DeviceGone;
      v := check.CheckAndRefresh(sample);
      checks := checks + 1;
      // the branch that decided runs its follow-up before returning
      if EnablesRefresh(v) {
        refreshEnables := refreshEnables + 1;
      }
      if RefreshesList(v) {
        listRefreshes := listRefreshes + 1;
      }
    }
    OneFollowUp(v);
  }
}
