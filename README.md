# smol-wifi-manager: a verified model of the network list logic

`wifi_scanner.py` is a small GTK window over NetworkManager. Under its widget
code sits a handful of decisions, and this project models them in Dafny and
proves what they guarantee:

- **Keys.** A BSSID that the binding hands over as bytes is formatted as a
  lower-case, colon-separated hex string; one handed over as a string is used
  as given, with no change of case (`Bssid`). For byte BSSIDs, formatting and
  parsing are inverse to each other, so two distinct byte addresses never
  share a table key.
- **Row decisions.** The signal tier behind the row icon (`Signal`). The
  security label and the "needs a password" test (`Security`). The controls a
  row's details box offers. Which saved profile a Connect click reuses, what a
  new profile holds, and which active connection a Disconnect click tears
  down (`Profiles`).
- **The scan path** (`ScanPoll`, `Session`).
  - `scan_networks` is gated on the refresh button.
  - `_scan_thread` reads the access-point list at most ten times, then once
    more.
  - `_handle_scan_results` sorts the snapshot by strength.
  - `_populate_networks` reconciles the table `network_rows` and the list box
    with the snapshot. It removes rows of vanished networks, refreshes existing
    rows in place (keeping the row widget), appends new ones, and reorders the
    list strongest first.
- **The connection poll** `check_and_refresh` (`ConnectionPoll`): a counter
  that goes up on every call, and a classification of the device state into
  connected, try again, failed, or timed out.
- **The accordion** `_on_row_expanded`: at most one row is open, and it is the
  recorded one.

The window is a class, `Session.Window`:

- `rows` is `network_rows`, a map from key to entry.
- `order` is the list box, as a sequence of keys from top to bottom.
- `nextRow` numbers the row widgets, so a row's identity is its id.
- It also holds the refresh button's sensitivity, the status line and the
  accordion record.

The loops that change this state are methods with loop invariants. Each is
proved against a function of the old state: `ApplyAll` for `_apply_rows`,
`Restrict`/`Drop` for `_remove_missing_rows`, and "wanted rows first, then
the rest in their old order" for `_reorder_rows`. Lemmas then prove what
`_populate_networks` promises:

- the table holds exactly the snapshot's keys;
- surviving rows keep their widget;
- new rows get fresh widgets;
- the list shows the snapshot strongest first;
- the active network's row, and only it, offers Disconnect.

Sorting is Python's stable `sorted(..., reverse=True)`, written as an insertion
sort and proved descending, a permutation, stable and idempotent.

Files: `types.dfy` (NetworkManager values), `lists.dfy` (list and list-box
operations), `bssid.dfy`, `signal.dfy`, `security.dfy`, `profiles.dfy`,
`ordering.dfy`, `scanpoll.dfy`, `connpoll.dfy`, `window.dfy`.

## Model

| member | source | states |
|---|---|---|
| Bssid.BssidToStr | wifi_scanner.py:270-273 | defines the table key: bytes go through `FormatOctets`, a string is kept as it is; the formatting's properties are the lemmas below |
| Bssid.KeyOf | wifi_scanner.py:284 | defines an access point's key as `BssidToStr` of its BSSID |
| Bssid.FormatOctets | wifi_scanner.py:270-273 | no bytes give the empty string; n > 0 bytes give a string of 3n − 1 characters |
| Bssid.FormatLayout | wifi_scanner.py:270-273 | characters 3i and 3i+1 are byte i as two lower-case hex digits, and character 3i+2 is ':' except after the last byte |
| Bssid.FormatAlphabet | wifi_scanner.py:270-273 | every character of a formatted BSSID is a lower-case hex digit or ':' |
| Bssid.ParseFormat | wifi_scanner.py:270-273 | parsing a formatted BSSID gives back the original bytes |
| Bssid.FormatParsed | wifi_scanner.py:270-273 | every string the parser accepts is the formatting of the bytes it returns, so the two are inverse bijections |
| Bssid.FormatInjective | wifi_scanner.py:211-212 | two byte strings with the same key are equal, so the table key and the active-BSSID key never confuse two access points |
| Signal.TierOf | wifi_scanner.py:486-495 | defines the tier by the 75/50/25 if-chain, for every integer; its bands and monotonicity are `TierBands` and `TierMonotone` |
| Signal.TierBands | wifi_scanner.py:486-495 | Excellent exactly from 75, Good exactly on 50..74, Ok exactly on 25..49, Weak exactly below 25, for every integer |
| Signal.TierMonotone | wifi_scanner.py:488-495 | a stronger signal never shows a lower tier |
| Signal.TierBoundaryValues | wifi_scanner.py:488-495 | examples: the tiers at 100, 75, 74, 50, 49, 25, 24 and 0 |
| Security.HasAny | wifi_scanner.py:533 | defines `flags & mask != 0` as a non-empty intersection of bit sets |
| Security.SecurityParts | wifi_scanner.py:529-540 | "WEP", "WPA2", "WPA" and "PSK" are in the list exactly when the WEP40, CCMP, TKIP and PSK masks meet the flags |
| Security.SecurityPartsOrdered | wifi_scanner.py:533-540 | the parts are the known ones, each at most once, in the order WEP, WPA2, WPA, PSK |
| Security.JoinComma | wifi_scanner.py:542 | defines `", ".join(parts)`; `JoinStartsWithFirst` shows the joined text starts with the first part |
| Security.SecurityLabel | wifi_scanner.py:542 | the label is "Open" exactly when none of the label's bits is set |
| Security.RequiresPassword | wifi_scanner.py:621-623 | defines "needs a password" as the PSK or 802.1X key-management bit being set; `NewSecuritySetting`, `ControlsFor` and `OpenLabelAndPassword` state what follows from it |
| Security.PasswordLongEnough | wifi_scanner.py:663-667 | defines the password gate as a length of at least 8, the minimum line 808 also uses; `SensitiveButtonPassesGate` ties the two together |
| Security.StoredPassword | wifi_scanner.py:455-456 | a PSK is stored exactly when a non-empty password was given, and it is that password |
| Security.NewSecuritySetting | wifi_scanner.py:445-461 | a security setting exists exactly for PSK or 802.1X networks; it holds the stored password; key management is wpa-psk exactly when CCMP or TKIP is present; CCMP gives proto rsn |
| Security.ProtoAgreesWithLabel | wifi_scanner.py:449-454 | for a key-managed network the profile's proto is rsn exactly when the label shows WPA2, wpa exactly when it shows WPA without WPA2, and empty exactly when it shows neither |
| Security.OpenLabelAndPassword | wifi_scanner.py:533-542 | a PSK network is never labelled "Open"; an 802.1X network without cipher bits is labelled "Open" yet still asks for a password |
| Profiles.FindSavedProfile | wifi_scanner.py:415-430 | the result is the first stored profile with a wireless setting whose SSID matches; none means no profile matches |
| Profiles.HasSavedConnection | wifi_scanner.py:773-796 | true exactly when the access point has an SSID and some stored profile is for it |
| Profiles.ControlsFor | wifi_scanner.py:618-676 | Disconnect exactly for the active row; a password entry exactly for an inactive row that needs a password and has no stored profile; otherwise a plain Connect button |
| Profiles.ButtonSensitive | wifi_scanner.py:653-675 | defines whether a row's Connect button can be clicked after the events since its controls were built: a password row's button starts off and each edit sets it to the 8-character test; a plain button starts on; a click with a device turns either off (line 813) |
| Profiles.EntryText | wifi_scanner.py:807 | defines the text `get_text()` reads from the password entry after the events; its meaning is `EntryTextIsLastEdit` |
| Profiles.EntryTextIsLastEdit | wifi_scanner.py:807 | the password entry holds the text of the last edit, or is empty before the first one |
| Profiles.SensitivePlainButton | wifi_scanner.py:798-813 | a plain Connect button can be clicked exactly until it is first clicked with a device: nothing turns it back on until the row's controls are rebuilt |
| Profiles.SensitivePasswordButton | wifi_scanner.py:653-667 | a password row's Connect button can be clicked exactly when some edit left at least 8 characters and neither a later edit nor a click with a device has happened since; then the entry holds at least 8 characters |
| Profiles.BuildNewProfile | wifi_scanner.py:432-462 | a new profile's SSID and id are the network's SSID; it uses infrastructure mode, type 802-11-wireless and automatic IPv4; it has a security setting exactly for key-managed networks, holding the stored password |
| Profiles.PlanConnect | wifi_scanner.py:798-879 | the outcome of a Connect click, per error: no device; a typed password under 8 characters; no SSID; a stored profile, which is the first match; a new profile built from the typed password, or a validation failure exactly when verify() fails |
| Profiles.SensitiveButtonPassesGate | wifi_scanner.py:663-667 | a click on a password row's Connect button that can be clicked never ends in the 8-character error of line 808, whatever the events before it |
| Profiles.StoredProfileIsReused | wifi_scanner.py:625-627 | a row that needs a password but shows a plain Connect button has a stored profile, and clicking it activates one |
| Profiles.OpenNetworkProfile | wifi_scanner.py:845-862 | an open network with nothing stored gets a new infrastructure profile without a security setting, using automatic IPv4 |
| Profiles.FirstOnDevice | wifi_scanner.py:1009-1018 | the result is the first active connection that lists the device; none means no active connection lists it |
| Profiles.DeactivationTarget | wifi_scanner.py:1005-1018 | the device's own active connection if it has one, else the first active connection that lists the device; no target exactly when neither exists |
| Profiles.PlanDisconnect | wifi_scanner.py:987-1046 | no device gives the device error; otherwise the target is deactivated, or "nothing to disconnect" exactly when there is none |
| Ordering.Insert | wifi_scanner.py:218 | defines one insertion step of the sort: before the first access point that is not stronger; `InsertSplit` and `InsertStable` state where it lands |
| Ordering.SortByStrength | wifi_scanner.py:218 | defines `sorted(..., key=strength, reverse=True)` as an insertion sort; its properties are the four `Sort` lemmas below |
| Ordering.SortDescending | wifi_scanner.py:218 | the sorted snapshot is strongest first |
| Ordering.SortPermutation | wifi_scanner.py:218 | sorting only rearranges the snapshot (same multiset) |
| Ordering.SortStable | wifi_scanner.py:218 | access points of equal strength keep their relative order |
| Ordering.InsertStable | wifi_scanner.py:218 | inserting an access point puts it first among those of its strength |
| Ordering.SortIdempotent | wifi_scanner.py:242 | sorting a snapshot that is already strongest first changes nothing |
| Ordering.KeysOf | wifi_scanner.py:236 | the snapshot's table keys in snapshot order: one per access point, the i-th being `_bssid_to_str` of the i-th BSSID |
| Ordering.KeySet | wifi_scanner.py:236 | `current_bssids`: a key is in the set exactly when it is the key of some access point of the snapshot |
| Ordering.SortKeys | wifi_scanner.py:236-242 | sorting keeps the set of keys, and keeps distinct keys distinct |
| Ordering.IsActive | wifi_scanner.py:285 | defines `bool(active_bssid and bssid == active_bssid)`: an empty or missing active key marks no row |
| Ordering.OrderedKeys | wifi_scanner.py:308-315 | defines the keyed lookup: the snapshot's keys that have a row, in snapshot order; its properties are `OrderedKeysAllPresent` and `OrderedKeysFacts` |
| Ordering.AddedKeys | wifi_scanner.py:300-306 | defines the keys `_apply_rows` appends: those without a row, in snapshot order; `AddedKeysFacts` states their set and distinctness |
| Ordering.OrderedKeysAllPresent | wifi_scanner.py:308-315 | when every snapshot key has a row, the ordered rows are all the snapshot keys, in snapshot order |
| Ordering.OrderedKeysFacts | wifi_scanner.py:308-315 | the ordered rows are exactly the snapshot keys that have a row, each once for a snapshot with distinct keys |
| Ordering.AddedKeysFacts | wifi_scanner.py:300-306 | the appended rows are exactly the snapshot keys without a row, each once for a snapshot with distinct keys |
| Ordering.RawLookup | wifi_scanner.py:311-312 | defines the lookup as written: a string BSSID finds the key it spells, a bytes BSSID equals no string key |
| Ordering.OrderedKeysAsWritten | wifi_scanner.py:308-315 | defines `_compute_ordered_rows` as written, with `RawLookup`; `BytesFindNoRow`, `TextAgrees` and `BytesLookupCounterexample` state how it differs from `OrderedKeys` |
| Ordering.BytesFindNoRow | wifi_scanner.py:310-314 | with the raw lookup of line 311, a snapshot of bytes BSSIDs finds no row at all |
| Ordering.TextAgrees | wifi_scanner.py:310-314 | with string BSSIDs, the raw lookup agrees with the keyed one |
| Ordering.BytesLookupCounterexample | wifi_scanner.py:311-312 | a two-network snapshot of bytes BSSIDs where the keyed lookup orders both rows and the raw lookup orders none |
| ScanPoll.IterationsIsTen | wifi_scanner.py:175-177 | `int(5 / 0.5)` is 10 |
| ScanPoll.PollAccessPoints | wifi_scanner.py:174-189 | at most 11 reads; every read before the last was empty; a read within the first ten is non-empty; the last read is what gets handled |
| ConnectionPoll.Connecting | wifi_scanner.py:1142-1149 | defines the five states that count as a connection in progress |
| ConnectionPoll.Classify | wifi_scanner.py:1098-1233 | defines the verdict of check number `count` on one sample; its cases are `ClassifyCases` and `TimeoutExactly` |
| ConnectionPoll.EnablesRefresh | wifi_scanner.py:1112-1228 | defines the verdicts that end in `_enable_refresh()`: every failure and the timeout |
| ConnectionPoll.RefreshesList | wifi_scanner.py:1138-1233 | defines the verdict that ends in `_refresh_after_connect()`: connected |
| ConnectionPoll.ClassifyCases | wifi_scanner.py:1116-1229 | within the budget: connected exactly on ACTIVATED or without a device; connecting states retry; DISCONNECTED retries exactly up to check 3, or check 6 with an active connection; FAILED, UNMANAGED and UNAVAILABLE fail at once; other states retry exactly below 5, then fail naming the state |
| ConnectionPoll.TimeoutExactly | wifi_scanner.py:1093-1114 | a check times out exactly when its number exceeds 30 |
| ConnectionPoll.OneFollowUp | wifi_scanner.py:1112-1233 | every final verdict either re-enables refresh or refreshes the list, and never both |
| ConnectionPoll.ConnectionCheck.constructor | wifi_scanner.py:1094 | the poll's counter `check_count[0]` starts at 0 |
| ConnectionPoll.ConnectionCheck.CheckAndRefresh | wifi_scanner.py:1097-1099 | the counter goes up by one before the sample is classified with the new count |
| ConnectionPoll.RunConnectionChecks | wifi_scanner.py:1094-1235 | the poll always ends, after 1 to 31 calls; it times out exactly on the 31st; every earlier check said "again"; the follow-ups, counted where the deciding call runs them, are exactly one, and it matches the verdict |
| Session.Window.constructor | wifi_scanner.py:80-86 | a new window has an empty table and list, a sensitive refresh button, the "Ready to scan..." status, no device and no expanded row, and satisfies both invariants |
| Session.Window.Valid | wifi_scanner.py:80 | defines the window invariant (`Coherent`): the table and the list box hold the same rows, each once; widget ids are distinct and below the next id; each row is filed under its access point's key and shows its tier; the constructor and the entry points `ScanNetworks`, `Populate`, `ShowSnapshot`, `HandleScanResults` and `ScanThread` keep it, and the internal steps are covered by `RemovalCoherent`, `ApplyAllCoherent` and `ReorderCoherent` |
| Session.Window.AccordionValid | wifi_scanner.py:474-484 | defines the accordion invariant: every open row is the recorded one, so at most one row is open, and it is a widget already made; `OnRowExpanded` and `ScanNetworks` keep it; `Populate`, `ShowSnapshot`, `HandleScanResults` and `ScanThread` change neither record and never lower the next row id, so they keep it too |
| Session.ActiveKeyOf | wifi_scanner.py:208-216 | there is an active key exactly when there is an active access point, and it is that access point's table key |
| Session.Window.ScanNetworks | wifi_scanner.py:127-153 | an automatic scan while the button is insensitive changes nothing; otherwise the button goes insensitive; a manual scan empties the table and the list and shows "Scanning"; the window stays coherent |
| Session.Window.EnableRefresh | wifi_scanner.py:1066-1075 | the refresh button is sensitive |
| Session.Window.RefreshAfterChange | wifi_scanner.py:980-985 | a manual rescan starts exactly when the refresh button is sensitive; otherwise nothing changes |
| Session.Restrict | wifi_scanner.py:276-280 | the table after the `del` loop: exactly the rows whose key is kept, each unchanged |
| Session.Window.RemoveMissingRows | wifi_scanner.py:275-280 | the table keeps exactly the rows whose key is kept, unchanged, and the list loses exactly the removed rows, keeping its order |
| Session.RemovalCoherent | wifi_scanner.py:275-280 | removing rows keeps the table and the list in agreement |
| Session.ApplyOne | wifi_scanner.py:283-306 | defines one step of `_apply_rows`: refresh the found row in place (keeping its marker without a details box), or make a row with the next id and append it; its meaning is `ApplyOneLayout` and `ApplyEntry` |
| Session.ApplyAll | wifi_scanner.py:282-306 | defines `_apply_rows` over a whole snapshot, in order; its meaning is `ApplyAllLayout`, `ApplyAllEntries`, `ApplyAllUntouched` and `ApplyAllCoherent` |
| Session.Window.ApplyRows | wifi_scanner.py:282-306 | the new table, list and id counter are those of `ApplyAll` on the old ones |
| Session.ApplyRefresh | wifi_scanner.py:286-299 | refreshing a found row in place keeps the layout invariant for the longer prefix |
| Session.ApplyAdd | wifi_scanner.py:300-306 | a new row, numbered next and appended, keeps the layout invariant for the longer prefix |
| Session.ApplyOneLayout | wifi_scanner.py:283-306 | one step of `_apply_rows` keeps the layout invariant |
| Session.ApplyAllLayout | wifi_scanner.py:282-306 | the table gains the snapshot's keys; found rows keep their widget; keys without a row get new widgets, numbered and appended to the list in snapshot order; other rows stay unchanged |
| Session.ApplyAllUntouched | wifi_scanner.py:282-306 | the row of a key the snapshot lacks is neither added nor changed |
| Session.ApplyAllEntries | wifi_scanner.py:284-305 | each row shows its access point and the icon of its strength, and has fresh controls; its title marker is updated unless the row had no details box |
| Session.ApplyAllCoherent | wifi_scanner.py:282-306 | applying keeps the window coherent, adds exactly the snapshot's keys, keeps the ids of found rows and gives new rows ids from the counter on |
| Session.AppliedCoherent | wifi_scanner.py:282-306 | the layout and refreshed entries together make a coherent window |
| Session.AppliedIds | wifi_scanner.py:287-305 | old rows keep their ids; new rows get ids from the old counter on; all ids are distinct and below the new counter |
| Session.Window.ComputeOrderedRows | wifi_scanner.py:308-315 | the result is the snapshot keys that have a row, in snapshot order, looked up by key |
| Session.Window.CurrentRows | wifi_scanner.py:317-323 | the result is the list box's rows, first to last |
| Lists.IndexOf | wifi_scanner.py:328 | the position of the first occurrence |
| Lists.Drop | wifi_scanner.py:276-280 | the list without the removed keys, in its old order: its elements are exactly the old ones minus the removed ones |
| Lists.ListRemove | wifi_scanner.py:338-340 | removing a present element shortens the list by one; removing an absent one changes nothing |
| Lists.ListRemoveFirst | wifi_scanner.py:338-340 | `remove` takes out exactly the first occurrence, and everything before and after it stays in place |
| Lists.InsertAt | wifi_scanner.py:341 | the list grows by one, with the element at the index, the earlier elements where they were and the later ones one further; an index past the end appends |
| Lists.InsertAfter | wifi_scanner.py:333-336 | the element lands right behind the first occurrence of the reference row; the elements up to it keep their places and the later ones move one further |
| Lists.WalkStay | wifi_scanner.py:331-332 | a row already at position i is in its wanted place |
| Lists.WalkMove | wifi_scanner.py:333-341 | inserting after the wanted predecessor, or at the top for i = 0, and inserting the copy at i both give the same wanted list |
| Session.Window.ReorderRows | wifi_scanner.py:325-341 | the list ends with the wanted rows first, in order, followed by the others in their old order; if the wanted order was already at the top, no row moved |
| Session.ReorderedIsPermutation | wifi_scanner.py:325-341 | reordering only moves rows: every row is still there, once |
| Session.ReorderCoherent | wifi_scanner.py:325-341 | reordering keeps a coherent window coherent |
| Session.Window.ResortListSimple | wifi_scanner.py:253-268 | the list ends with the ordered rows first, followed by the rest in their old order; nothing moves when the list already begins with them |
| Session.PopulateApplied | wifi_scanner.py:235-245 | after removal and applying, the window is coherent and the table's keys are exactly the snapshot's |
| Session.PopulateIds | wifi_scanner.py:235-245 | a row present before and after keeps its widget, and a new row's id is fresh |
| Session.PopulateResorted | wifi_scanner.py:247-248 | after resorting, the list is the snapshot's keys, strongest first, and the window is coherent |
| Session.Window.ShowSnapshot | wifi_scanner.py:235-250 | for a non-empty snapshot: table keys are the snapshot's; the list is strongest first; every row is refreshed; surviving rows keep their widgets; new rows are fresh; "Found N networks" is shown |
| Session.Window.Populate | wifi_scanner.py:224-251 | refresh is re-enabled; an empty snapshot keeps table and list, and shows "No networks found" only when the table is empty; otherwise as ShowSnapshot |
| Session.PopulatedView | wifi_scanner.py:224-251 | list position i shows the i-th strongest access point, so strengths never increase down the list; an access point's row offers Disconnect exactly when it is the active one |
| Session.Window.HandleScanResults | wifi_scanner.py:205-222 | an empty snapshot gives "No networks found" and re-enables refresh; a non-empty one is sorted and populated with the active access point's key |
| Session.Window.ScanThread | wifi_scanner.py:155-196 | no device gives "No WiFi device found" and re-enables refresh, with no reads; otherwise the device is recorded, the poll's facts hold and the polled snapshot is handled |
| Session.Window.OnRowExpanded | wifi_scanner.py:474-484 | expanding leaves exactly that row open and recorded; collapsing clears the record only when it named that row; at most one row is ever open |

## Left out

- GTK and Adwaita widgets, CSS, icons, titles and subtitles are not modelled. Only the decisions they display are kept: the tier, the label, the marker and the controls.
- Threads, `time.sleep`, and `GLib.idle_add`/`timeout_add` scheduling: the callbacks run at once, in order.
- NetworkManager calls are parameters.
  - `_get_wifi_device` is a boolean.
  - `get_access_points` is the sequence of its answers.
  - `get_active_access_point` is an optional access point.
  - `get_connections` is the list of stored profiles.
  - `verify()` is a boolean.
  - The device state and the active connection are one sample per check.
  - `request_scan_async`, the activation and deactivation calls and their callbacks are not modelled.
- Exceptions (`GLib.Error`, `RuntimeError`, `AttributeError`, `TypeError`) and their status messages are not modelled.
- `NM.utils_ssid_to_utf8`: SSIDs are given as text. `utils_uuid_generate`: the profile's UUID is not modelled.
- Frequency, bitrate and mode formatting (floating point), strength text, and the debug prints and logging helpers.
- Dictionary iteration order in `_remove_missing_rows` is an arbitrary choice; the result does not depend on it.
- Session.Window.Populate: requires a snapshot with distinct BSSIDs. This is an assumption of the model, not something the code checks. With duplicates, `_compute_ordered_rows` would name a row twice and the reorder is not modelled for that case. `ApplyRows` itself handles duplicates.
- Session.Window.ShowSnapshot: same distinct-BSSID precondition, for the same reason.
- Session.Window.HandleScanResults: same distinct-BSSID precondition, for the same reason.
- Session.Window.ScanThread: requires every read to have distinct BSSIDs, for the same reason. The reads are given as at least eleven answers.
- Session.Window.ReorderRows: requires every wanted row to be in the list, without duplicates, as `_resort_list_simple` guarantees. The `ValueError` branch at lines 329-330 therefore cannot run and is not modelled.
- Session.Window.ReorderRows: lines 331-341 are mis-indented and do not parse as shown. The model follows the evident intent:
  - a row already at index i is skipped;
  - otherwise it is moved behind `ordered_rows[i-1]`, or to the top when i = 0;
  - the copy `current_rows` loses the row and gets it back at index i.
- Bssid.BssidToStr: lines 270-273 are mis-indented as well. The model follows the evident intent: bytes are formatted as hex, and a string is used as given. The model has only byte and string BSSIDs. A missing BSSID (`None`, which `str` turns into "None") is not modelled.
- `_update_expander_content` (lines 682-758) makes the same decision as `_setup_expander_content`. Both are `Profiles.ControlsFor`.
- `_create_network_row` (lines 464-472) is unused by the file and not modelled.
- Connection-result handling before the poll (`_handle_failed_start`, `_extract_active_connection`, lines 343-370 and 1078-1090) is not modelled.
- The message texts that carry the SSID or the device state are reduced to their kind.
- The 802.1X case of `_build_new_connection` is modelled as written: it gets `wpa-psk` when a cipher is present, and no key management otherwise. This is not checked against what NetworkManager accepts.

## Findings

| source | as written | input that shows it | evidently intended | confidence | as-written member | corrected member |
|---|---|---|---|---|---|---|
| wifi_scanner.py:311 | `_compute_ordered_rows` looks rows up by the raw `ap.get_bssid()`, but `network_rows` is keyed by `_bssid_to_str` of it | two access points whose `get_bssid()` returns bytes (`b"\x01"` at strength 10, `b"\x02"` at strength 90) with rows for both: no row is found, so the list is never reordered | look rows up by `_bssid_to_str(ap.get_bssid())`, so that every snapshot row is found and the list is strongest first (`Ordering.OrderedKeysAllPresent`, `Session.PopulateResorted`) | not executed | Ordering.BytesLookupCounterexample | Session.Window.ComputeOrderedRows |
