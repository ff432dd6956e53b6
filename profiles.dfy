/** Saved connection profiles and what a Connect or Disconnect click
    decides: which controls a row offers, which saved profile is reused,
    what a new profile holds, and which active connection is torn down. */
module Profiles {
  import opened WifiTypes
  import opened Security

  /** The 802-11-wireless setting of a stored profile; `ssid` is the SSID
      already decoded to text, `None` when the setting carries none. */
  datatype WirelessSetting = WirelessSetting(ssid: Option<string>)

  /** A connection profile NetworkManager has stored. */
  datatype SavedProfile = SavedProfile(id: string, wireless: Option<WirelessSetting>)

  /** The profile is a wireless one whose SSID is `ssid`. */
  predicate ProfileHasSsid(p: SavedProfile, ssid: string) {
    p.wireless.Some? && p.wireless.value.ssid == Some(ssid)
  }

  /** `_find_existing_connection_by_ssid`: the position of the first stored
      profile for `ssid`; profiles without a wireless setting or without an
      SSID are skipped. */
  function FindSavedProfile(profiles: seq<SavedProfile>, ssid: string): (r: Option<nat>)
    ensures r.Some? ==> r.value < |profiles| && ProfileHasSsid(profiles[r.value], ssid)
    ensures r.Some? ==> forall j :: 0 <= j < r.value ==> !ProfileHasSsid(profiles[j], ssid)
    ensures r.None? ==> forall j :: 0 <= j < |profiles| ==> !ProfileHasSsid(profiles[j], ssid)
  {
    if |profiles| == 0 then None
    else if ProfileHasSsid(profiles[0], ssid) then Some(0)
    else
      match FindSavedProfile(profiles[1..], ssid)
      case None => None
      case Some(i) => Some(i + 1)
  }

  /** `_has_saved_connection`: the access point broadcasts an SSID and some
      stored profile is for it. */
  function HasSavedConnection(ap: AccessPoint, profiles: seq<SavedProfile>): (b: bool)
    ensures b <==> ap.ssid.Some?
                   && exists i :: 0 <= i < |profiles| && ProfileHasSsid(profiles[i], ap.ssid.value)
  {
    ap.ssid.Some? && FindSavedProfile(profiles, ap.ssid.value).Some?
  }

  /** The controls `_setup_expander_content` puts under a row. */
  datatype RowControls =
    | DisconnectButton
    | PasswordAndConnect   // a password entry and a Connect button, insensitive at first
    | ConnectButton        // a Connect button that sends no password

  /** The active row offers Disconnect; another row asks for a password
      exactly when the network needs one and nothing is stored for it (the
      stored profiles are looked at only when a password is needed). */
  function ControlsFor(isActive: bool, ap: AccessPoint, profiles: seq<SavedProfile>): (c: RowControls)
    ensures c == DisconnectButton <==> isActive
    ensures c == PasswordAndConnect <==>
              !isActive && RequiresPassword(SecurityFlags(ap)) && !HasSavedConnection(ap, profiles)
  {
    var requiresPassword := RequiresPassword(SecurityFlags(ap));
    var hasSaved := if requiresPassword then HasSavedConnection(ap, profiles) else false;
    if isActive then DisconnectButton
    else if requiresPassword && !hasSaved then PasswordAndConnect
    else ConnectButton
  }

  /** What can happen to a row's Connect button once its controls are built:
      the password entry is edited to hold `text`, or the button is clicked
      while the window has a device (`hasDevice`) or has none. */
  datatype ButtonEvent =
    | Typed(text: string)
    | Clicked(hasDevice: bool)

  /** Whether the Connect button can be clicked after `events`, oldest
      first. A password row's button starts insensitive and every edit sets
      it to the entry's length test; a plain button starts sensitive. A
      click on a sensitive button with a device disables it; a click
      without a device returns before that, and an insensitive button
      takes no click. A click never finds a short password, because a
      sensitive password button has a long enough entry
      (`SensitivePasswordButton`). */
  function ButtonSensitive(c: RowControls, events: seq<ButtonEvent>): bool
    requires c != DisconnectButton
    decreases |events|
  {
    if events == [] then c == ConnectButton
    else
      var before := ButtonSensitive(c, events[..|events| - 1]);
      match events[|events| - 1]
      case Typed(text) => if c == PasswordAndConnect then PasswordLongEnough(text) else before
      case Clicked(hasDevice) => before && !hasDevice
  }

  /** The text of the password entry after `events`: the last edit, or
      empty when there was none (`EntryTextIsLastEdit`). */
  function EntryText(events: seq<ButtonEvent>): string
    decreases |events|
  {
    if events == [] then ""
    else if events[|events| - 1].Typed? then events[|events| - 1].text
    else EntryText(events[..|events| - 1])
  }

  /** The entry holds the text of the last edit, and is empty before the
      first one. */
  lemma {:induction false} EntryTextIsLastEdit(events: seq<ButtonEvent>)
    ensures (forall i | 0 <= i < |events| :: !events[i].Typed?) ==> EntryText(events) == ""
    ensures forall i | 0 <= i < |events| && events[i].Typed? ::
              (forall j | i < j < |events| :: !events[j].Typed?) ==> EntryText(events) == events[i].text
    decreases |events|
  {
    if events != [] && !events[|events| - 1].Typed? {
      var init := events[..|events| - 1];
      EntryTextIsLastEdit(init);
      assert forall i | 0 <= i < |init| :: init[i] == events[i];
    }
  }

  /** A plain Connect button is sensitive exactly until it is first clicked
      while the window has a device: nothing turns it back on. */
  lemma {:induction false} SensitivePlainButton(events: seq<ButtonEvent>)
    ensures ButtonSensitive(ConnectButton, events) <==>
              forall i | 0 <= i < |events| :: events[i] != Clicked(true)
    decreases |events|
  {
    if events != [] {
      var init := events[..|events| - 1];
      SensitivePlainButton(init);
      assert forall i | 0 <= i < |init| :: init[i] == events[i];
    }
  }

  /** The edit at `i` left at least 8 characters in the entry, and neither a
      later edit nor a click with a device has happened since. */
  predicate LongEditStands(events: seq<ButtonEvent>, i: int)
    requires 0 <= i < |events|
  {
    && events[i].Typed? && PasswordLongEnough(events[i].text)
    && forall j | i < j < |events| :: !events[j].Typed? && events[j] != Clicked(true)
  }

  /** Some long edit still stands after `events`. */
  predicate SomeLongEditStands(events: seq<ButtonEvent>) {
    exists i | 0 <= i < |events| :: LongEditStands(events, i)
  }

  /** How one more event changes whether a long edit stands: an edit decides
      alone, a click with a device ends it, a click without one changes
      nothing. */
  lemma StandsStep(init: seq<ButtonEvent>, e: ButtonEvent)
    ensures SomeLongEditStands(init + [e]) <==>
              match e
              case Typed(text) => PasswordLongEnough(text)
              case Clicked(hasDevice) => !hasDevice && SomeLongEditStands(init)
  {
    var events := init + [e];
    var n := |init|;
    assert forall i | 0 <= i < n :: events[i] == init[i];
    if e.Typed? && PasswordLongEnough(e.text) {
      assert LongEditStands(events, n);
    }
    if SomeLongEditStands(events) {
      var i :| 0 <= i < |events| && LongEditStands(events, i);
      if i < n {
        assert events[n] == e;
        assert !e.Typed? && e != Clicked(true);
        assert LongEditStands(init, i);
      }
    }
    if e == Clicked(false) && SomeLongEditStands(init) {
      var i :| 0 <= i < n && LongEditStands(init, i);
      assert LongEditStands(events, i);
    }
  }

  /** A password row's Connect button is sensitive exactly when some edit
      left at least 8 characters in the entry and neither a later edit nor
      a click with a device has happened since; then the entry holds at
      least 8 characters. */
  lemma {:induction false} SensitivePasswordButton(events: seq<ButtonEvent>)
    ensures ButtonSensitive(PasswordAndConnect, events) <==> SomeLongEditStands(events)
    ensures ButtonSensitive(PasswordAndConnect, events) ==> PasswordLongEnough(EntryText(events))
    decreases |events|
  {
    if events != [] {
      var n := |events| - 1;
      var init := events[..n];
      SensitivePasswordButton(init);
      assert events == init + [events[n]];
      StandsStep(init, events[n]);
    }
  }

  const Infrastructure := "infrastructure"
  const WirelessType := "802-11-wireless"
  const Ipv4Auto := "auto"

  /** The profile `_connect_thread` builds when nothing is stored: the
      wireless, security, connection and IPv4 settings it sets. */
  datatype NewProfile = NewProfile(
    ssid: string,
    mode: string,
    security: Option<SecuritySetting>,
    connectionType: string,
    id: string,
    ipv4Method: string)

  /** `_build_new_connection` followed by the connection and IPv4 settings. */
  function BuildNewProfile(ap: AccessPoint, ssid: string, password: Option<string>): (p: NewProfile)
    ensures p.ssid == ssid && p.id == ssid
    ensures p.mode == Infrastructure && p.connectionType == WirelessType && p.ipv4Method == Ipv4Auto
    ensures p.security.Some? <==> RequiresPassword(SecurityFlags(ap))
    ensures p.security.Some? ==> p.security.value.psk == StoredPassword(password)
  {
    NewProfile(ssid, Infrastructure, NewSecuritySetting(SecurityFlags(ap), password),
               WirelessType, ssid, Ipv4Auto)
  }

  /** What a Connect click ends in, before NetworkManager answers. */
  datatype ConnectPlan =
    | NoDevice            // "Error: WiFi device not available"
    | PasswordTooShort    // "Password must be at least 8 characters"
    | NoSsid              // "Error: Network has no SSID", refresh re-enabled
    | ValidationFailed    // "Connection validation failed", refresh re-enabled
    | ActivateSaved(index: nat)
    | AddAndActivate(profile: NewProfile)

  /** `_on_connect_clicked` and `_connect_thread`. `entry` is the text of the
      row's password entry, `None` for a row without one; `validates` is
      what NetworkManager's `verify()` answers for the new profile. */
  function PlanConnect(hasDevice: bool, entry: Option<string>, ap: AccessPoint,
                       profiles: seq<SavedProfile>, validates: bool): (plan: ConnectPlan)
    ensures plan == NoDevice <==> !hasDevice
    ensures plan == PasswordTooShort <==>
              hasDevice && entry.Some? && !PasswordLongEnough(entry.value)
    ensures plan == NoSsid <==>
              hasDevice && (entry.None? || PasswordLongEnough(entry.value)) && ap.ssid.None?
    ensures plan.ActivateSaved? ==>
              ap.ssid.Some? && FindSavedProfile(profiles, ap.ssid.value) == Some(plan.index)
    ensures plan.AddAndActivate? || plan == ValidationFailed <==>
              hasDevice && (entry.None? || PasswordLongEnough(entry.value))
              && ap.ssid.Some? && FindSavedProfile(profiles, ap.ssid.value).None?
              && (plan == ValidationFailed <==> !validates)
    ensures plan.AddAndActivate? ==> plan.profile == BuildNewProfile(ap, ap.ssid.value, entry)
  {
    if !hasDevice then NoDevice
    else if entry.Some? && |entry.value| < MinPasswordLength then PasswordTooShort
    else if ap.ssid.None? then NoSsid
    else
      match FindSavedProfile(profiles, ap.ssid.value)
      case Some(i) => ActivateSaved(i)
      case None =>
        if !validates then ValidationFailed
        else AddAndActivate(BuildNewProfile(ap, ap.ssid.value, entry))
  }

  /** A Connect button that can be clicked never ends in the length error:
      the entry's gate and the click handler use the same minimum. */
  lemma SensitiveButtonPassesGate(ap: AccessPoint, profiles: seq<SavedProfile>,
                                  isActive: bool, events: seq<ButtonEvent>, validates: bool)
    requires ControlsFor(isActive, ap, profiles) == PasswordAndConnect
    requires ButtonSensitive(PasswordAndConnect, events)
    ensures PlanConnect(true, Some(EntryText(events)), ap, profiles, validates) != PasswordTooShort
  {
    SensitivePasswordButton(events);
  }

  /** A row that needs a password but offers only a Connect button does so
      because a profile is stored, and clicking it reuses the first one. */
  lemma StoredProfileIsReused(ap: AccessPoint, profiles: seq<SavedProfile>, validates: bool)
    requires ControlsFor(false, ap, profiles) == ConnectButton
    requires RequiresPassword(SecurityFlags(ap))
    ensures PlanConnect(true, None, ap, profiles, validates).ActivateSaved?
  {
    var i :| 0 <= i < |profiles| && ProfileHasSsid(profiles[i], ap.ssid.value);
    assert FindSavedProfile(profiles, ap.ssid.value).Some?;
  }

  /** An open network with nothing stored gets a profile without a
      security setting, in infrastructure mode, with automatic IPv4. */
  lemma OpenNetworkProfile(ap: AccessPoint, profiles: seq<SavedProfile>)
    requires !RequiresPassword(SecurityFlags(ap)) && ap.ssid.Some?
    requires forall i :: 0 <= i < |profiles| ==> !ProfileHasSsid(profiles[i], ap.ssid.value)
    ensures var plan := PlanConnect(true, None, ap, profiles, true);
            plan.AddAndActivate? && plan.profile.security.None?
            && plan.profile.mode == Infrastructure && plan.profile.ipv4Method == Ipv4Auto
  {
  }

  type ConnId = nat
  type DeviceId = nat

  /** An active connection and the devices it runs on. */
  datatype ActiveConnection = ActiveConnection(id: ConnId, devices: seq<DeviceId>)

  /** The fallback search of `_disconnect_thread`: the first active
      connection that lists the device. */
  function FirstOnDevice(actives: seq<ActiveConnection>, device: DeviceId): (r: Option<nat>)
    ensures r.Some? ==> r.value < |actives| && device in actives[r.value].devices
    ensures r.Some? ==> forall j :: 0 <= j < r.value ==> device !in actives[j].devices
    ensures r.None? ==> forall j :: 0 <= j < |actives| ==> device !in actives[j].devices
  {
    if |actives| == 0 then None
    else if device in actives[0].devices then Some(0)
    else
      match FirstOnDevice(actives[1..], device)
      case None => None
      case Some(i) => Some(i + 1)
  }

  /** The connection `_disconnect_thread` deactivates: the device's own
      active connection if it reports one, else the first active
      connection that lists the device, else none. */
  function DeactivationTarget(own: Option<ConnId>, actives: seq<ActiveConnection>,
                              device: DeviceId): (r: Option<ConnId>)
    ensures own.Some? ==> r == own
    ensures own.None? && r.Some? ==>
              exists i :: 0 <= i < |actives| && device in actives[i].devices
                          && actives[i].id == r.value
                          && forall j :: 0 <= j < i ==> device !in actives[j].devices
    ensures r.None? <==>
              own.None? && forall j :: 0 <= j < |actives| ==> device !in actives[j].devices
  {
    if own.Some? then own
    else
      match FirstOnDevice(actives, device)
      case None => None
      case Some(i) => Some(actives[i].id)
  }

  /** What a Disconnect click ends in, before NetworkManager answers. */
  datatype DisconnectPlan =
    | NoWifiDevice         // "Error: WiFi device not available"
    | NothingToDisconnect  // "No active connection to disconnect", refresh re-enabled
    | Deactivate(conn: ConnId)

  /** `_on_disconnect_clicked` and `_disconnect_thread`. */
  function PlanDisconnect(device: Option<DeviceId>, own: Option<ConnId>,
                          actives: seq<ActiveConnection>): (plan: DisconnectPlan)
    ensures plan == NoWifiDevice <==> device.None?
    ensures plan.Deactivate? ==> DeactivationTarget(own, actives, device.value) == Some(plan.conn)
    ensures plan == NothingToDisconnect <==>
              device.Some? && DeactivationTarget(own, actives, device.value).None?
  {
    if device.None? then NoWifiDevice
    else
      match DeactivationTarget(own, actives, device.value)
      case None => NothingToDisconnect
      case Some(c) => Deactivate(c)
  }
}
