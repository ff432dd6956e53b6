/** The state `SmolWifiManagerWindow` keeps between events: the network
    table `network_rows`, the order of the rows in the list box, the
    refresh button's sensitivity, the status line and the accordion record. */
module Session {
  import opened WifiTypes
  import opened Lists
  import opened Bssid
  import opened Signal
  import opened Ordering
  import Profiles
  import ScanPoll

  /** The identity of a row widget: rows are created with increasing ids. */
  type RowId = nat

  /** A value of `network_rows`: the row, the access point it shows, its
      signal icon, whether its title carries the "• Connected" marker, and
      the controls of its details box (`None` when it has no details box). */
  datatype Entry = Entry(
    row: RowId,
    ap: AccessPoint,
    icon: Tier,
    marked: bool,
    controls: Option<Profiles.RowControls>)

  /** The texts of the status line the scan path sets. */
  datatype Status =
    | ReadyToScan
    | ScanningForNetworks
    | NoWifiDeviceFound
    | NoNetworksFound
    | FoundNetworks(count: nat)

  /** The table, the list and the id of the next row widget, as one value. */
  datatype Table = Table(rows: map<Key, Entry>, order: seq<Key>, next: RowId)

  /** One step of `_apply_rows`: the row of `ap` is refreshed when its key
      has one (keeping its title marker when it had no details box), and
      made and appended otherwise. */
  function ApplyOne(t: Table, ap: AccessPoint, activeKey: Option<Key>,
                    profiles: seq<Profiles.SavedProfile>): Table
  {
    var key := KeyOf(ap);
    var active := IsActive(key, activeKey);
    var controls := Some(Profiles.ControlsFor(active, ap, profiles));
    if key in t.rows then
      var e := t.rows[key];
      var marked := if e.controls.None? then e.marked else active;
      Table(t.rows[key := Entry(e.row, ap, TierOf(ap.strength), marked, controls)], t.order, t.next)
    else
      Table(t.rows[key := Entry(t.next, ap, TierOf(ap.strength), active, controls)],
            t.order + [key], t.next + 1)
  }

  /** `_apply_rows` over the whole snapshot, in its order. */
  function ApplyAll(t: Table, aps: seq<AccessPoint>, activeKey: Option<Key>,
                    profiles: seq<Profiles.SavedProfile>): Table
    decreases |aps|
  {
    if aps == [] then t
    else ApplyOne(ApplyAll(t, aps[..|aps| - 1], activeKey, profiles), aps[|aps| - 1], activeKey, profiles)
  }

  /** `active_bssid` in `_handle_scan_results`: the key of the active
      access point, if the device has one. */
  function ActiveKeyOf(activeAp: Option<AccessPoint>): (k: Option<Key>)
    ensures k.Some? <==> activeAp.Some?
    ensures activeAp.Some? ==> k.value == KeyOf(activeAp.value)
  {
    match activeAp
    case None => None
    case Some(ap) => Some(BssidToStr(ap.bssid))
  }

  /** The table and the list box describe the same rows, each once; row
      widgets are distinct and older than the next one to be made; every
      row is filed under its access point's key and shows the icon of its
      strength. */
  ghost predicate Coherent(rows: map<Key, Entry>, order: seq<Key>, nextRow: RowId) {
    && NoDup(order)
    && rows.Keys == Elems(order)
    && (forall k | k in rows :: rows[k].row < nextRow)
    && (forall k, k' | k in rows && k' in rows && k != k' :: rows[k].row != rows[k'].row)
    && (forall k | k in rows :: KeyOf(rows[k].ap) == k && rows[k].icon == TierOf(rows[k].ap.strength))
  }

  /** The table without the rows whose key is not in `keep`. */
  function Restrict(rows: map<Key, Entry>, keep: set<Key>): (r: map<Key, Entry>)
    ensures r.Keys == rows.Keys * keep
    ensures forall k | k in r :: r[k] == rows[k]
  {
    map k | k in rows.Keys * keep :: rows[k]
  }

  /** What `_apply_rows` leaves in the row of access point `ap`, given the
      table `before` it ran on: the access point and the icon of its
      strength, freshly built controls, and a title marker that is updated
      unless the row had no details box yet. */
  ghost predicate Refreshed(e: Entry, ap: AccessPoint, before: map<Key, Entry>,
                            activeKey: Option<Key>, profiles: seq<Profiles.SavedProfile>)
  {
    var k := KeyOf(ap);
    && e.ap == ap
    && e.icon == TierOf(ap.strength)
    && e.controls == Some(Profiles.ControlsFor(IsActive(k, activeKey), ap, profiles))
    && e.marked == (if k in before && before[k].controls.None? then before[k].marked else IsActive(k, activeKey))
  }

  /** The layout `_apply_rows` leaves when it takes the window from
      `(rows0, order0, next0)` to `(rows, order, next)` for the snapshot
      `aps`: the table gains the snapshot's keys; rows that already existed
      keep their widget; the keys that had no row get new widgets, numbered
      in snapshot order, and are appended to the list in that order; the
      rows of other keys do not change. */
  ghost predicate AppliedLayout(rows0: map<Key, Entry>, order0: seq<Key>, next0: RowId,
                                aps: seq<AccessPoint>,
                                rows: map<Key, Entry>, order: seq<Key>, next: RowId)
  {
    var added := AddedKeys(aps, rows0.Keys);
    && rows.Keys == rows0.Keys + KeySet(aps)
    && order == order0 + added
    && next == next0 + |added|
    && Numbered(rows, added, next0)
    && (forall k | k in rows0 :: k in rows && rows[k].row == rows0[k].row)
    && (forall k | k in rows0 && k !in KeySet(aps) :: k in rows && rows[k] == rows0[k])
  }

  /** Every access point of `aps` has a refreshed row. */
  ghost predicate AppliedEntries(rows0: map<Key, Entry>, aps: seq<AccessPoint>,
                                 activeKey: Option<Key>, profiles: seq<Profiles.SavedProfile>,
                                 rows: map<Key, Entry>)
  {
    forall j | 0 <= j < |aps| ::
      KeyOf(aps[j]) in rows && Refreshed(rows[KeyOf(aps[j])], aps[j], rows0, activeKey, profiles)
  }

  class Window {
    /** `network_rows`. */
    var rows: map<Key, Entry>
    /** The rows of the list box, top to bottom, by their table key. */
    var order: seq<Key>
    var nextRow: RowId
    /** `refresh_btn.get_sensitive()`. */
    var refreshSensitive: bool
    var status: Status
    /** `self.wifi_device` has been set by a scan. */
    var hasWifiDevice: bool
    /** `currently_expanded_row`. */
    var expandedRow: Option<RowId>
    /** The rows whose `expanded` property is on. */
    var openRows: set<RowId>
    /** How many times `_reorder_rows` has moved a row in the list box. */
    ghost var moves: nat

    ghost predicate Valid()
      reads this`rows, this`order, this`nextRow
    {
      Coherent(rows, order, nextRow)
    }

    /** At most one row is expanded, and it is the recorded one. */
    ghost predicate AccordionValid()
      reads this`openRows, this`expandedRow, this`nextRow
    {
      && (forall r :: r in openRows ==> expandedRow == Some(r))
      && (forall r :: r in openRows ==> r < nextRow)
    }

    constructor ()
      ensures Valid() && AccordionValid()
      ensures rows == map[] && order == [] && nextRow == 0
      ensures refreshSensitive && status == ReadyToScan && !hasWifiDevice
      ensures expandedRow == None && openRows == {} && moves == 0
    {
      rows, order, nextRow := map[], [], 0;
      refreshSensitive, status, hasWifiDevice := true, ReadyToScan, false;
      expandedRow, openRows := None, {};
      moves := 0;
    }

    /** `scan_networks`: an automatic scan is skipped while one is running
        (the refresh button is insensitive); otherwise the button is made
        insensitive, and a manual scan also empties the list and the table
        before the scan thread starts. */
    method ScanNetworks(isManual: bool) returns (started: bool)
      requires Valid() && AccordionValid()
      modifies this
      ensures Valid() && AccordionValid()
      ensures started <==> old(refreshSensitive) || isManual
      ensures !started ==> unchanged(this)
      ensures started ==> !refreshSensitive
      ensures started && isManual ==> rows == map[] && order == [] && status == ScanningForNetworks
      ensures !isManual ==> rows == old(rows) && order == old(order) && status == old(status)
      ensures nextRow == old(nextRow) && hasWifiDevice == old(hasWifiDevice)
      ensures expandedRow == old(expandedRow) && openRows == old(openRows)
    {
      if !refreshSensitive && !isManual {
        return false;
      }
      if refreshSensitive {
        refreshSensitive := false;
      }
      if isManual {
        status := ScanningForNetworks;
        // the children are removed from the list box one by one, first first
        var children := order;
        while children != []
          invariant children == old(order)[|old(order)| - |children|..]
          decreases |children|
        {
          children := children[1..];
        }
        order := children;
        rows := map[];
      }
      started := true;
    }

    /** `_enable_refresh`. */
    method EnableRefresh()
      modifies this`refreshSensitive
      ensures refreshSensitive
    {
      refreshSensitive := true;
    }

    /** `_refresh_after_connect` and `_refresh_after_disconnect`: a manual
        rescan, only if no scan is running. */
    method RefreshAfterChange() returns (started: bool)
      requires Valid() && AccordionValid()
      modifies this
      ensures Valid() && AccordionValid()
      ensures started <==> old(refreshSensitive)
      ensures started ==> rows == map[] && order == [] && !refreshSensitive && status == ScanningForNetworks
      ensures !started ==> unchanged(this)
    {
      started := false;
      if refreshSensitive {
        started := ScanNetworks(true);
      }
    }

    /** `_remove_missing_rows`: every row whose key is not in `keep` leaves
        the table and the list; the other rows stay where they were. */
    method RemoveMissingRows(keep: set<Key>)
      requires NoDup(order)
      modifies this`rows, this`order
      ensures rows == Restrict(old(rows), keep)
      ensures order == Drop(old(order), old(rows).Keys - keep)
    {
      var pending := rows.Keys - keep;
      ghost var start := order;
      ghost var removed: set<Key> := {};
      DropNothing(start, {});
      while pending != {}
        invariant removed == (old(rows).Keys - keep) - pending
        invariant pending <= old(rows).Keys - keep
        invariant order == Drop(start, removed)
        invariant rows == Restrict(old(rows), old(rows).Keys - removed)
        decreases pending
      {
        var k :| k in pending;
        DropOneMore(start, removed, k);
        order := ListRemove(order, k);
        rows := rows - {k};
        pending := pending - {k};
        removed := removed + {k};
      }
      assert removed == old(rows).Keys - keep;
    }

    /** `_reorder_rows`, as the shape of its code intends: walking the
        wanted order, a row already at its place is left alone, any other is
        moved behind its predecessor in the wanted order (or to the top), and
        the copy `current` is kept equal to the list. The wanted rows end up
        first, in order, followed by the rest in their old order. */
    method ReorderRows(current: seq<Key>, ordered: seq<Key>)
      requires NoDup(order) && current == order
      requires NoDup(ordered) && Elems(ordered) <= Elems(order)
      modifies this`order, this`moves
      ensures order == ordered + Drop(old(order), Elems(ordered))
      ensures ordered <= old(order) ==> moves == old(moves)
    {
      var cur, o := current, order;
      ghost var start, m0 := order, moves;
      ghost var moved := m0;
      assert Elems(ordered[..0]) == {};
      DropNothing(start, {});
      for i := 0 to |ordered|
        invariant cur == o == Walked(start, ordered, i)
        invariant ordered <= start ==> moved == m0
      {
        var target := ordered[i];
        WalkNext(start, ordered, i);
        var index := IndexOf(cur, target);
        if index == i {
          WalkStay(start, ordered, i);
          continue;
        }
        WalkMove(start, ordered, i);
        // the row is moved in the list box ...
        o := ListRemove(o, target);
        if i > 0 {
          o := InsertAfter(o, target, ordered[i - 1]);
        } else {
          o := [target] + o;
        }
        moved := moved + 1;
        // ... and in the copy
        cur := ListRemove(cur, target);
        cur := InsertAt(cur, i, target);
      }
      assert ordered[..|ordered|] == ordered;
      order := o;
      moves := moved;
    }

    /** `_apply_rows`: walking the snapshot in order, an access point whose
        key has a row refreshes it in place (a row without a details box gets
        one, and keeps its title); any other gets a new row, appended to the
        list. */
    method ApplyRows(sorted: seq<AccessPoint>, activeKey: Option<Key>,
                     profiles: seq<Profiles.SavedProfile>)
      modifies this`rows, this`order, this`nextRow
      ensures old(nextRow) <= nextRow
      ensures Table(rows, order, nextRow)
                == ApplyAll(Table(old(rows), old(order), old(nextRow)), sorted, activeKey, profiles)
    {
      var r, o, n := rows, order, nextRow;
      assert sorted[..0] == [];
      for i := 0 to |sorted|
        invariant Table(r, o, n)
                    == ApplyAll(Table(old(rows), old(order), old(nextRow)), sorted[..i], activeKey, profiles)
        invariant old(nextRow) <= n
      {
        var ap := sorted[i];
        var key := KeyOf(ap);
        var active := IsActive(key, activeKey);
        var controls := Some(Profiles.ControlsFor(active, ap, profiles));
        assert sorted[..i + 1][..i] == sorted[..i];
        if key in r {
          var e := r[key];
          if e.controls.None? {
            r := r[key := Entry(e.row, ap, TierOf(ap.strength), e.marked, controls)];
          } else {
            r := r[key := Entry(e.row, ap, TierOf(ap.strength), active, controls)];
          }
        } else {
          r := r[key := Entry(n, ap, TierOf(ap.strength), active, controls)];
          o := o + [key];
          n := n + 1;
        }
      }
      assert sorted[..|sorted|] == sorted;
      rows, order, nextRow := r, o, n;
    }

    /** `_compute_ordered_rows`, looking each access point's row up by its
        key: the keys of the snapshot that have a row, in snapshot order. */
    method ComputeOrderedRows(sorted: seq<AccessPoint>) returns (ordered: seq<Key>)
      ensures ordered == OrderedKeys(sorted, rows.Keys)
    {
      ordered := [];
      for i := 0 to |sorted|
        invariant ordered == OrderedKeys(sorted[..i], rows.Keys)
      {
        var key := KeyOf(sorted[i]);
        assert sorted[..i + 1][..i] == sorted[..i];
        if key in rows {
          ordered := ordered + [key];
        }
      }
      assert sorted[..|sorted|] == sorted;
    }

    /** `_get_current_rows`: the children of the list box, first to last. */
    method CurrentRows() returns (current: seq<Key>)
      ensures current == order
    {
      current := [];
      var i := 0;
      while i < |order|
        invariant i <= |order| && current == order[..i]
      {
        current := current + [order[i]];
        i := i + 1;
      }
    }

    /** `_resort_list_simple`: nothing moves when the list already shows the
        wanted order; otherwise the rows are reordered. */
    method ResortListSimple(sorted: seq<AccessPoint>)
      requires NoDup(order) && rows.Keys == Elems(order) && DistinctKeys(sorted)
      modifies this`order, this`moves
      ensures order == OrderedKeys(sorted, rows.Keys) + Drop(old(order), Elems(OrderedKeys(sorted, rows.Keys)))
      ensures OrderedKeys(sorted, rows.Keys) <= old(order) ==> moves == old(moves)
    {
      var ordered := ComputeOrderedRows(sorted);
      var current := CurrentRows();
      OrderedKeysFacts(sorted, rows.Keys);
      if |ordered| == |current| && forall i | 0 <= i < |ordered| :: current[i] == ordered[i] {
        assert ordered == current;
        DropEverything(order, Elems(ordered));
        return;
      }
      ReorderRows(current, ordered);
    }

    /** `_populate_networks`: the refresh button is re-enabled; an empty
        snapshot keeps the table, and reports "No networks found" only when
        the table is empty; any other is shown by `ShowSnapshot`. */
    method Populate(aps: Snapshot, activeKey: Option<Key>, profiles: seq<Profiles.SavedProfile>)
      requires Valid() && DistinctKeys(aps)
      modifies this`rows, this`order, this`nextRow, this`moves, this`refreshSensitive, this`status
      ensures old(nextRow) <= nextRow
      ensures Valid() && refreshSensitive
      ensures aps == [] ==> rows == old(rows) && order == old(order) && nextRow == old(nextRow)
      ensures aps == [] ==> status == if old(rows) == map[] then NoNetworksFound else old(status)
      ensures aps != [] ==> status == FoundNetworks(|aps|)
      ensures aps != [] ==> rows.Keys == KeySet(aps)
      ensures aps != [] ==> order == KeysOf(SortByStrength(aps))
      ensures aps != [] ==> AppliedEntries(Restrict(old(rows), KeySet(aps)), SortByStrength(aps), activeKey, profiles, rows)
      ensures forall k | k in rows && k in old(rows) :: rows[k].row == old(rows)[k].row
      ensures forall k | k in rows && k !in old(rows) :: old(nextRow) <= rows[k].row
    {
      refreshSensitive := true;
      if aps == [] {
        if |rows| == 0 {
          status := NoNetworksFound;
        }
      } else {
        ShowSnapshot(aps, activeKey, profiles);
      }
    }

    /** The rest of `_populate_networks` for a non-empty snapshot: rows of
        vanished networks are removed, the others refreshed or added, the
        list is put in snapshot order, strongest first, and the status line
        counts the networks. */
    method ShowSnapshot(aps: Snapshot, activeKey: Option<Key>, profiles: seq<Profiles.SavedProfile>)
      requires Valid() && DistinctKeys(aps)
      modifies this`rows, this`order, this`nextRow, this`moves, this`status
      ensures old(nextRow) <= nextRow
      ensures Valid()
      ensures status == FoundNetworks(|aps|)
      ensures rows.Keys == KeySet(aps)
      ensures order == KeysOf(SortByStrength(aps))
      ensures AppliedEntries(Restrict(old(rows), KeySet(aps)), SortByStrength(aps), activeKey, profiles, rows)
      ensures forall k | k in rows && k in old(rows) :: rows[k].row == old(rows)[k].row
      ensures forall k | k in rows && k !in old(rows) :: old(nextRow) <= rows[k].row
    {
      var current := KeySet(aps);
      ghost var r0, o0, n0 := rows, order, nextRow;
      RemoveMissingRows(current);
      var sortedAps := SortByStrength(aps);
      ghost var t1 := Table(rows, order, nextRow);
      ApplyRows(sortedAps, activeKey, profiles);
      PopulateApplied(r0, o0, n0, aps, activeKey, profiles, rows, order, nextRow);
      PopulateIds(r0, o0, n0, aps, activeKey, profiles, rows, order, nextRow);
      assert DistinctKeys(sortedAps) by {
        SortKeys(aps);
      }
      ApplyAllEntries(t1, sortedAps, activeKey, profiles);
      ghost var o2 := order;
      ResortListSimple(sortedAps);
      status := FoundNetworks(|aps|);
      PopulateResorted(aps, rows, o2, nextRow, order);
    }

    /** `_handle_scan_results`: a non-empty snapshot is sorted, strongest
        first, and handed to `_populate_networks` with the key of the active
        access point; an empty one reports "No networks found" and
        re-enables the refresh button. The main-loop callbacks it schedules
        run at once here. */
    method HandleScanResults(aps: Snapshot, activeAp: Option<AccessPoint>,
                             profiles: seq<Profiles.SavedProfile>)
      requires Valid() && DistinctKeys(aps)
      modifies this`rows, this`order, this`nextRow, this`moves, this`refreshSensitive, this`status
      ensures old(nextRow) <= nextRow
      ensures Valid() && refreshSensitive
      ensures aps == [] ==> status == NoNetworksFound
      ensures aps == [] ==> rows == old(rows) && order == old(order) && nextRow == old(nextRow)
      ensures aps != [] ==> status == FoundNetworks(|aps|)
      ensures aps != [] ==> rows.Keys == KeySet(aps)
      ensures aps != [] ==> order == KeysOf(SortByStrength(aps))
      ensures aps != [] ==> AppliedEntries(Restrict(old(rows), KeySet(aps)), SortByStrength(aps),
                                           ActiveKeyOf(activeAp), profiles, rows)
    {
      if aps != [] {
        var activeKey := ActiveKeyOf(activeAp);
        var sortedAps := SortByStrength(aps);
        SortKeys(aps);
        SortDescending(aps);
        SortIdempotent(sortedAps);
        assert |sortedAps| == |aps| by {
          SortPermutation(aps);
          assert |multiset(aps)| == |multiset(sortedAps)|;
        }
        Populate(sortedAps, activeKey, profiles);
      } else {
        status := NoNetworksFound;
        EnableRefresh();
      }
    }

    /** `_scan_thread`: without a Wi-Fi device the status says so and the
        refresh button is re-enabled; otherwise the device is recorded, the
        access points are polled (`answers[j]` is what the `j`-th read
        returns) and the snapshot the poll settles on is handled. Returns
        that snapshot and the number of reads (none without a device). */
    method ScanThread(hasDevice: bool, answers: seq<Snapshot>, activeAp: Option<AccessPoint>,
                      profiles: seq<Profiles.SavedProfile>)
      returns (aps: Snapshot, readCount: nat)
      requires Valid() && |answers| > ScanPoll.Iterations
      requires forall j | 0 <= j < |answers| :: DistinctKeys(answers[j])
      modifies this`rows, this`order, this`nextRow, this`moves, this`refreshSensitive, this`status,
               this`hasWifiDevice
      ensures old(nextRow) <= nextRow
      ensures Valid() && refreshSensitive
      ensures !hasDevice ==> readCount == 0 && status == NoWifiDeviceFound
      ensures !hasDevice ==> rows == old(rows) && order == old(order) && hasWifiDevice == old(hasWifiDevice)
      ensures hasDevice ==> hasWifiDevice && 1 <= readCount <= ScanPoll.Iterations + 1
      ensures hasDevice ==> aps == answers[readCount - 1]
      ensures hasDevice ==> forall j | 0 <= j < readCount - 1 :: answers[j] == []
      ensures hasDevice && readCount <= ScanPoll.Iterations ==> aps != []
      ensures hasDevice && aps == [] ==> status == NoNetworksFound && rows == old(rows) && order == old(order)
      ensures hasDevice && aps != [] ==> status == FoundNetworks(|aps|) && rows.Keys == KeySet(aps)
      ensures hasDevice && aps != [] ==> order == KeysOf(SortByStrength(aps))
    {
      if !hasDevice {
        status := NoWifiDeviceFound;
        EnableRefresh();
        return [], 0;
      }
      hasWifiDevice := true;
      aps, readCount := ScanPoll.PollAccessPoints(answers);
      HandleScanResults(aps, activeAp, profiles);
    }

    /** `_on_row_expanded`, run after `row`'s expanded property became
        `expanded`. Expanding collapses the recorded row if it is another one
        (whose own handler then clears the record) and records `row`;
        collapsing the recorded row clears the record. */
    method OnRowExpanded(row: RowId, expanded: bool)
      requires AccordionValid() && row < nextRow
      modifies this`expandedRow, this`openRows
      ensures AccordionValid()
      ensures expanded ==> expandedRow == Some(row) && openRows == {row}
      ensures !expanded ==> openRows == old(openRows) - {row}
      ensures !expanded ==> expandedRow == if old(expandedRow) == Some(row) then None else old(expandedRow)
    {
      if expanded {
        openRows := openRows + {row};
        if expandedRow.Some? && expandedRow.value != row {
          var previous := expandedRow.value;
          openRows := openRows - {previous};
          // the collapse runs this handler for `previous`, which clears the record
          expandedRow := None;
        }
        expandedRow := Some(row);
        assert forall r :: r in openRows ==> r == row;
      } else {
        openRows := openRows - {row};
        if expandedRow == Some(row) {
          expandedRow := None;
        }
      }
    }
  }

  /** Before step `i` of `_apply_rows`, the next access point's key has a
      row exactly when it had one at the start, and that row is untouched. */
  lemma {:induction false} ApplyLookup(rows0: map<Key, Entry>, order0: seq<Key>, next0: RowId,
                                       sorted: seq<AccessPoint>, i: nat,
                                       rows: map<Key, Entry>, order: seq<Key>, next: RowId)
    requires DistinctKeys(sorted) && i < |sorted|
    requires AppliedLayout(rows0, order0, next0, sorted[..i], rows, order, next)
    ensures KeyOf(sorted[i]) in rows <==> KeyOf(sorted[i]) in rows0
    ensures KeyOf(sorted[i]) in rows ==> rows[KeyOf(sorted[i])] == rows0[KeyOf(sorted[i])]
  {
    PrefixStep(sorted, rows0.Keys, i);
  }

  /** Step `i` of `_apply_rows` on an access point that has a row. */
  lemma {:induction false} ApplyRefresh(rows0: map<Key, Entry>, order0: seq<Key>, next0: RowId,
                                        sorted: seq<AccessPoint>, i: nat,
                                        rows: map<Key, Entry>, order: seq<Key>, next: RowId, e: Entry)
    requires DistinctKeys(sorted) && i < |sorted|
    requires AppliedLayout(rows0, order0, next0, sorted[..i], rows, order, next)
    requires KeyOf(sorted[i]) in rows && e.row == rows[KeyOf(sorted[i])].row
    ensures AppliedLayout(rows0, order0, next0, sorted[..i + 1], rows[KeyOf(sorted[i]) := e], order, next)
  {
    var k := KeyOf(sorted[i]);
    PrefixStep(sorted, rows0.Keys, i);
    var p, q := sorted[..i], sorted[..i + 1];
    assert q[..i] == p;
    ApplyLookup(rows0, order0, next0, sorted, i, rows, order, next);
    assert AddedKeys(q, rows0.Keys) == AddedKeys(p, rows0.Keys);
    RefreshLayout(rows0, order0, next0, p, q, rows, order, next, k, e);
  }

  /** Refreshing a row in place, for a key the table had from the start,
      keeps the layout of the snapshot prefix `p` valid for its extension
      `q` by that key. */
  lemma {:induction false} RefreshLayout(rows0: map<Key, Entry>, order0: seq<Key>, next0: RowId,
                                         p: seq<AccessPoint>, q: seq<AccessPoint>,
                                         rows: map<Key, Entry>, order: seq<Key>, next: RowId,
                                         k: Key, e: Entry)
    requires AppliedLayout(rows0, order0, next0, p, rows, order, next)
    requires k in rows0 && k in rows && e.row == rows[k].row
    requires KeySet(q) == KeySet(p) + {k} && AddedKeys(q, rows0.Keys) == AddedKeys(p, rows0.Keys)
    ensures AppliedLayout(rows0, order0, next0, q, rows[k := e], order, next)
  {
    var added := AddedKeys(p, rows0.Keys);
    var r' := rows[k := e];
    assert Numbered(r', added, next0) by {
      forall j | 0 <= j < |added|
        ensures added[j] in r' && r'[added[j]].row == next0 + j
      {
        assert added[j] in rows && rows[added[j]].row == next0 + j;
      }
    }
    assert r'.Keys == rows0.Keys + KeySet(q);
  }

  /** Step `i` of `_apply_rows` on an access point without a row. */
  lemma {:induction false} ApplyAdd(rows0: map<Key, Entry>, order0: seq<Key>, next0: RowId,
                                    sorted: seq<AccessPoint>, i: nat,
                                    rows: map<Key, Entry>, order: seq<Key>, next: RowId, e: Entry)
    requires DistinctKeys(sorted) && i < |sorted|
    requires AppliedLayout(rows0, order0, next0, sorted[..i], rows, order, next)
    requires KeyOf(sorted[i]) !in rows && e.row == next
    ensures AppliedLayout(rows0, order0, next0, sorted[..i + 1],
                          rows[KeyOf(sorted[i]) := e], order + [KeyOf(sorted[i])], next + 1)
  {
    var k := KeyOf(sorted[i]);
    PrefixStep(sorted, rows0.Keys, i);
    var p, q := sorted[..i], sorted[..i + 1];
    assert q[..i] == p;
    ApplyLookup(rows0, order0, next0, sorted, i, rows, order, next);
    assert AddedKeys(q, rows0.Keys) == AddedKeys(p, rows0.Keys) + [k];
    AddLayout(rows0, order0, next0, p, q, rows, order, next, k, e);
  }

  /** Adding a row for a key the table never had, with the next widget id,
      keeps the layout of the snapshot prefix `p` valid for its extension
      `q` by that key. */
  lemma {:induction false} AddLayout(rows0: map<Key, Entry>, order0: seq<Key>, next0: RowId,
                                     p: seq<AccessPoint>, q: seq<AccessPoint>,
                                     rows: map<Key, Entry>, order: seq<Key>, next: RowId,
                                     k: Key, e: Entry)
    requires AppliedLayout(rows0, order0, next0, p, rows, order, next)
    requires k !in rows0 && k !in rows && e.row == next
    requires KeySet(q) == KeySet(p) + {k} && AddedKeys(q, rows0.Keys) == AddedKeys(p, rows0.Keys) + [k]
    requires k !in Elems(AddedKeys(p, rows0.Keys))
    ensures AppliedLayout(rows0, order0, next0, q, rows[k := e], order + [k], next + 1)
  {
    var added := AddedKeys(p, rows0.Keys);
    NumberedSnoc(rows, added, next0, k, e);
    assert order + [k] == order0 + (added + [k]);
    var r' := rows[k := e];
    assert r'.Keys == rows0.Keys + KeySet(q);
  }

  /** The new widgets are numbered in the order their keys were added. */
  predicate Numbered(rows: map<Key, Entry>, added: seq<Key>, next0: RowId) {
    forall j | 0 <= j < |added| :: added[j] in rows && rows[added[j]].row == next0 + j
  }

  lemma {:induction false} NumberedSnoc(rows: map<Key, Entry>, added: seq<Key>, next0: RowId, k: Key, e: Entry)
    requires Numbered(rows, added, next0) && k !in Elems(added) && e.row == next0 + |added|
    ensures Numbered(rows[k := e], added + [k], next0)
  {
    var r' := rows[k := e];
    forall j | 0 <= j < |added + [k]|
      ensures (added + [k])[j] in r' && r'[(added + [k])[j]].row == next0 + j
    {
      if j < |added| {
        assert (added + [k])[j] == added[j];
        assert added[j] in Elems(added);
      }
    }
  }

  /** Step `i` of `_apply_rows` leaves a refreshed row for its access point
      and touches no row of an earlier one. */
  lemma {:induction false} ApplyEntry(rows0: map<Key, Entry>, sorted: seq<AccessPoint>, i: nat,
                                      activeKey: Option<Key>, profiles: seq<Profiles.SavedProfile>,
                                      rows: map<Key, Entry>, e: Entry)
    requires DistinctKeys(sorted) && i < |sorted|
    requires AppliedEntries(rows0, sorted[..i], activeKey, profiles, rows)
    requires Refreshed(e, sorted[i], rows0, activeKey, profiles)
    ensures AppliedEntries(rows0, sorted[..i + 1], activeKey, profiles, rows[KeyOf(sorted[i]) := e])
  {
    PrefixStep(sorted, rows0.Keys, i);
    var p, q := sorted[..i], sorted[..i + 1];
    var r' := rows[KeyOf(sorted[i]) := e];
    forall j | 0 <= j < |q|
      ensures KeyOf(q[j]) in r' && Refreshed(r'[KeyOf(q[j])], q[j], rows0, activeKey, profiles)
    {
      if j < i {
        assert q[j] == p[j];
      }
    }
  }

  /** On a snapshot with distinct keys, `_apply_rows` keeps the widgets of
      the rows it finds, numbers and appends the new ones in snapshot order,
      and leaves the rows of other keys alone. */
  lemma {:induction false} ApplyAllLayout(t0: Table, sorted: seq<AccessPoint>, activeKey: Option<Key>,
                                          profiles: seq<Profiles.SavedProfile>)
    requires DistinctKeys(sorted)
    ensures var t := ApplyAll(t0, sorted, activeKey, profiles);
            AppliedLayout(t0.rows, t0.order, t0.next, sorted, t.rows, t.order, t.next)
    decreases |sorted|
  {
    if sorted == [] {
      assert KeysOf(sorted) == [];
    } else {
      var n := |sorted| - 1;
      KeysOfPrefix(sorted, n);
      ApplyAllLayout(t0, sorted[..n], activeKey, profiles);
      var t := ApplyAll(t0, sorted[..n], activeKey, profiles);
      ApplyOneLayout(t0, sorted, n, t, activeKey, profiles);
      assert sorted[..n + 1] == sorted;
    }
  }

  /** One step of `ApplyAllLayout`: applying the next access point keeps
      the layout invariant, whether its row is refreshed or added. */
  lemma {:induction false} ApplyOneLayout(t0: Table, sorted: seq<AccessPoint>, i: nat, t: Table,
                                          activeKey: Option<Key>, profiles: seq<Profiles.SavedProfile>)
    requires DistinctKeys(sorted) && i < |sorted|
    requires AppliedLayout(t0.rows, t0.order, t0.next, sorted[..i], t.rows, t.order, t.next)
    ensures var t' := ApplyOne(t, sorted[i], activeKey, profiles);
            AppliedLayout(t0.rows, t0.order, t0.next, sorted[..i + 1], t'.rows, t'.order, t'.next)
  {
    var key := KeyOf(sorted[i]);
    var e := ApplyOne(t, sorted[i], activeKey, profiles).rows[key];
    if key in t.rows {
      ApplyRefresh(t0.rows, t0.order, t0.next, sorted, i, t.rows, t.order, t.next, e);
    } else {
      ApplyAdd(t0.rows, t0.order, t0.next, sorted, i, t.rows, t.order, t.next, e);
    }
  }

  /** `_apply_rows` does not touch the row of a key the snapshot lacks. */
  lemma {:induction false} ApplyAllUntouched(t0: Table, aps: seq<AccessPoint>, activeKey: Option<Key>,
                                             profiles: seq<Profiles.SavedProfile>, k: Key)
    requires k !in KeySet(aps)
    ensures var t := ApplyAll(t0, aps, activeKey, profiles);
            (k in t.rows <==> k in t0.rows) && (k in t.rows ==> t.rows[k] == t0.rows[k])
    decreases |aps|
  {
    if aps != [] {
      var n := |aps| - 1;
      KeysOfPrefix(aps, n);
      assert KeysOf(aps)[n] == KeyOf(aps[n]);
      ApplyAllUntouched(t0, aps[..n], activeKey, profiles, k);
    }
  }

  /** On a snapshot with distinct keys, `_apply_rows` leaves every access
      point a refreshed row. */
  lemma {:induction false} ApplyAllEntries(t0: Table, sorted: seq<AccessPoint>, activeKey: Option<Key>,
                                           profiles: seq<Profiles.SavedProfile>)
    requires DistinctKeys(sorted)
    ensures AppliedEntries(t0.rows, sorted, activeKey, profiles, ApplyAll(t0, sorted, activeKey, profiles).rows)
    decreases |sorted|
  {
    if sorted != [] {
      var n := |sorted| - 1;
      KeysOfPrefix(sorted, n);
      ApplyAllEntries(t0, sorted[..n], activeKey, profiles);
      var t := ApplyAll(t0, sorted[..n], activeKey, profiles);
      assert sorted[..n + 1] == sorted;
      var key := KeyOf(sorted[n]);
      PrefixStep(sorted, t0.rows.Keys, n);
      ApplyAllUntouched(t0, sorted[..n], activeKey, profiles, key);
      ApplyEntry(t0.rows, sorted, n, activeKey, profiles, t.rows,
                 ApplyOne(t, sorted[n], activeKey, profiles).rows[key]);
    }
  }

  /** `_apply_rows` on a snapshot with distinct keys keeps a coherent window
      coherent, adds exactly the snapshot's keys to the table, keeps the
      widgets of the rows it found and gives the new rows fresh ids. */
  lemma ApplyAllCoherent(t0: Table, sorted: seq<AccessPoint>, activeKey: Option<Key>,
                         profiles: seq<Profiles.SavedProfile>)
    requires Coherent(t0.rows, t0.order, t0.next) && DistinctKeys(sorted)
    ensures var t := ApplyAll(t0, sorted, activeKey, profiles);
            && Coherent(t.rows, t.order, t.next)
            && t.rows.Keys == t0.rows.Keys + KeySet(sorted)
            && (forall k | k in t0.rows :: k in t.rows && t.rows[k].row == t0.rows[k].row)
            && (forall k | k in t.rows && k !in t0.rows :: t0.next <= t.rows[k].row)
  {
    var t := ApplyAll(t0, sorted, activeKey, profiles);
    ApplyAllLayout(t0, sorted, activeKey, profiles);
    ApplyAllEntries(t0, sorted, activeKey, profiles);
    AppliedCoherent(t0.rows, t0.order, t0.next, sorted, activeKey, profiles, t.rows, t.order, t.next);
    AppliedIds(t0.rows, t0.order, t0.next, sorted, t.rows, t.order, t.next);
  }

  /** What `_populate_networks` leaves after removing the rows of vanished
      networks from `(r0, o0, n0)` and applying the sorted snapshot (giving
      `(r2, o2, n2)`): a coherent window whose table holds exactly the
      snapshot's keys. */
  lemma PopulateApplied(r0: map<Key, Entry>, o0: seq<Key>, n0: RowId, aps: seq<AccessPoint>,
                        activeKey: Option<Key>, profiles: seq<Profiles.SavedProfile>,
                        r2: map<Key, Entry>, o2: seq<Key>, n2: RowId)
    requires Coherent(r0, o0, n0) && DistinctKeys(aps)
    requires Table(r2, o2, n2)
               == ApplyAll(Table(Restrict(r0, KeySet(aps)), Drop(o0, r0.Keys - KeySet(aps)), n0),
                           SortByStrength(aps), activeKey, profiles)
    ensures Coherent(r2, o2, n2)
    ensures r2.Keys == KeySet(aps)
  {
    var keep := KeySet(aps);
    var t1 := Table(Restrict(r0, keep), Drop(o0, r0.Keys - keep), n0);
    RemovalCoherent(r0, o0, n0, keep);
    SortKeys(aps);
    ApplyAllCoherent(t1, SortByStrength(aps), activeKey, profiles);
  }

  /** The same step keeps the widgets of the surviving rows and gives the
      new rows ids from `n0` on. */
  lemma PopulateIds(r0: map<Key, Entry>, o0: seq<Key>, n0: RowId, aps: seq<AccessPoint>,
                    activeKey: Option<Key>, profiles: seq<Profiles.SavedProfile>,
                    r2: map<Key, Entry>, o2: seq<Key>, n2: RowId)
    requires Coherent(r0, o0, n0) && DistinctKeys(aps)
    requires Table(r2, o2, n2)
               == ApplyAll(Table(Restrict(r0, KeySet(aps)), Drop(o0, r0.Keys - KeySet(aps)), n0),
                           SortByStrength(aps), activeKey, profiles)
    ensures forall k | k in r2 && k in r0 :: r2[k].row == r0[k].row
    ensures forall k | k in r2 && k !in r0 :: n0 <= r2[k].row
  {
    var keep := KeySet(aps);
    var t1 := Table(Restrict(r0, keep), Drop(o0, r0.Keys - keep), n0);
    RemovalCoherent(r0, o0, n0, keep);
    SortKeys(aps);
    ApplyAllCoherent(t1, SortByStrength(aps), activeKey, profiles);
  }

  /** Resorting a coherent window that holds exactly the snapshot's keys
      lists them in snapshot order and keeps the window coherent. */
  lemma PopulateResorted(aps: seq<AccessPoint>, r2: map<Key, Entry>, o2: seq<Key>, n2: RowId, o3: seq<Key>)
    requires Coherent(r2, o2, n2) && r2.Keys == KeySet(aps) && DistinctKeys(aps)
    requires o3 == OrderedKeys(SortByStrength(aps), r2.Keys)
                   + Drop(o2, Elems(OrderedKeys(SortByStrength(aps), r2.Keys)))
    ensures Coherent(r2, o3, n2)
    ensures o3 == KeysOf(SortByStrength(aps))
  {
    var sorted := SortByStrength(aps);
    var wanted := KeysOf(sorted);
    SortKeys(aps);
    OrderedKeysAllPresent(sorted, r2.Keys);
    OrderedKeysFacts(sorted, r2.Keys);
    DropEverything(o2, Elems(wanted));
    assert o3 == wanted;
    SameRowsCoherent(r2, o2, wanted, n2);
  }

  /** Removing the rows not to keep leaves a coherent window. */
  lemma RemovalCoherent(rows: map<Key, Entry>, order: seq<Key>, nextRow: RowId, keep: set<Key>)
    requires Coherent(rows, order, nextRow)
    ensures Coherent(Restrict(rows, keep), Drop(order, rows.Keys - keep), nextRow)
  {
    DropNoDup(order, rows.Keys - keep);
  }

  /** Applying a snapshot with distinct keys to a coherent window leaves it
      coherent. */
  lemma AppliedCoherent(rows0: map<Key, Entry>, order0: seq<Key>, next0: RowId,
                        aps: seq<AccessPoint>, activeKey: Option<Key>,
                        profiles: seq<Profiles.SavedProfile>,
                        rows: map<Key, Entry>, order: seq<Key>, next: RowId)
    requires Coherent(rows0, order0, next0) && DistinctKeys(aps)
    requires AppliedLayout(rows0, order0, next0, aps, rows, order, next)
    requires AppliedEntries(rows0, aps, activeKey, profiles, rows)
    ensures Coherent(rows, order, next)
  {
    AppliedList(rows0, order0, next0, aps, rows, order, next);
    AppliedIds(rows0, order0, next0, aps, rows, order, next);
    AppliedKeys(rows0, order0, next0, aps, activeKey, profiles, rows, order, next);
  }

  /** The list holds the grown table's rows, once each. */
  lemma AppliedList(rows0: map<Key, Entry>, order0: seq<Key>, next0: RowId,
                                    aps: seq<AccessPoint>,
                                    rows: map<Key, Entry>, order: seq<Key>, next: RowId)
    requires Coherent(rows0, order0, next0) && DistinctKeys(aps)
    requires AppliedLayout(rows0, order0, next0, aps, rows, order, next)
    ensures NoDup(order) && rows.Keys == Elems(order)
  {
    var added := AddedKeys(aps, rows0.Keys);
    AddedKeysFacts(aps, rows0.Keys);
    NoDupAppend(order0, added);
    ElemsAppend(order0, added);
  }

  /** Old widgets keep their ids and new ones get fresh, distinct ids. */
  lemma AppliedIds(rows0: map<Key, Entry>, order0: seq<Key>, next0: RowId,
                                    aps: seq<AccessPoint>,
                                    rows: map<Key, Entry>, order: seq<Key>, next: RowId)
    requires Coherent(rows0, order0, next0) && DistinctKeys(aps)
    requires AppliedLayout(rows0, order0, next0, aps, rows, order, next)
    ensures forall k | k in rows :: rows[k].row < next
    ensures forall k | k in rows && k !in rows0 :: next0 <= rows[k].row
    ensures forall k, k' | k in rows && k' in rows && k != k' :: rows[k].row != rows[k'].row
  {
    var added := AddedKeys(aps, rows0.Keys);
    AddedKeysFacts(aps, rows0.Keys);
    forall k | k in rows && k !in rows0
      ensures next0 <= rows[k].row < next
    {
      assert k in Elems(added);
      var j :| 0 <= j < |added| && added[j] == k;
    }
    forall k, k' | k in rows && k' in rows && k != k'
      ensures rows[k].row != rows[k'].row
    {
      if k !in rows0 && k' !in rows0 {
        assert k in Elems(added) && k' in Elems(added);
        var j :| 0 <= j < |added| && added[j] == k;
        var j' :| 0 <= j' < |added| && added[j'] == k';
      }
    }
  }

  /** Every row is filed under its access point's key and shows its icon. */
  lemma AppliedKeys(rows0: map<Key, Entry>, order0: seq<Key>, next0: RowId,
                    aps: seq<AccessPoint>, activeKey: Option<Key>,
                    profiles: seq<Profiles.SavedProfile>,
                    rows: map<Key, Entry>, order: seq<Key>, next: RowId)
    requires Coherent(rows0, order0, next0)
    requires AppliedLayout(rows0, order0, next0, aps, rows, order, next)
    requires AppliedEntries(rows0, aps, activeKey, profiles, rows)
    ensures forall k | k in rows :: KeyOf(rows[k].ap) == k && rows[k].icon == TierOf(rows[k].ap.strength)
  {
    forall k | k in rows
      ensures KeyOf(rows[k].ap) == k && rows[k].icon == TierOf(rows[k].ap.strength)
    {
      if k in KeySet(aps) {
        var j :| 0 <= j < |aps| && KeysOf(aps)[j] == k;
        assert Refreshed(rows[KeyOf(aps[j])], aps[j], rows0, activeKey, profiles);
      }
    }
  }

  /** What the window shows after `_populate_networks` on a non-empty
      snapshot: list position `i` holds the `i`-th strongest access point,
      so signal strengths never increase down the list, and the row of each
      access point offers Disconnect exactly when it is the active one. */
  lemma PopulatedView(aps: seq<AccessPoint>, rows0: map<Key, Entry>,
                      activeKey: Option<Key>, profiles: seq<Profiles.SavedProfile>,
                      rows: map<Key, Entry>, order: seq<Key>)
    requires order == KeysOf(SortByStrength(aps))
    requires AppliedEntries(rows0, SortByStrength(aps), activeKey, profiles, rows)
    ensures forall i | 0 <= i < |order| :: order[i] in rows && rows[order[i]].ap == SortByStrength(aps)[i]
    ensures forall i, j | 0 <= i < j < |order| ::
              order[i] in rows && order[j] in rows && rows[order[i]].ap.strength >= rows[order[j]].ap.strength
    ensures forall j | 0 <= j < |aps| ::
              KeyOf(aps[j]) in rows
              && (rows[KeyOf(aps[j])].controls == Some(Profiles.DisconnectButton) <==> IsActive(KeyOf(aps[j]), activeKey))
  {
    var sorted := SortByStrength(aps);
    forall i | 0 <= i < |order|
      ensures order[i] in rows && rows[order[i]].ap == sorted[i]
    {
      assert Refreshed(rows[KeyOf(sorted[i])], sorted[i], rows0, activeKey, profiles);
    }
    SortDescending(aps);
    SortPermutation(aps);
    forall j | 0 <= j < |aps|
      ensures KeyOf(aps[j]) in rows
              && (rows[KeyOf(aps[j])].controls == Some(Profiles.DisconnectButton) <==> IsActive(KeyOf(aps[j]), activeKey))
    {
      assert aps[j] in multiset(aps);
      assert aps[j] in multiset(sorted);
      var i :| 0 <= i < |sorted| && sorted[i] == aps[j];
      assert Refreshed(rows[KeyOf(sorted[i])], sorted[i], rows0, activeKey, profiles);
    }
  }

  /** Moving the wanted rows to the front keeps a coherent window coherent. */
  lemma ReorderCoherent(rows: map<Key, Entry>, order: seq<Key>, next: RowId, ordered: seq<Key>)
    requires Coherent(rows, order, next) && NoDup(ordered) && Elems(ordered) <= Elems(order)
    ensures Coherent(rows, ordered + Drop(order, Elems(ordered)), next)
  {
    ReorderedIsPermutation(order, ordered);
  }

  /** A list holding the same rows, each once, keeps the window coherent. */
  lemma SameRowsCoherent(rows: map<Key, Entry>, order: seq<Key>, order': seq<Key>, next: RowId)
    requires Coherent(rows, order, next) && NoDup(order') && Elems(order') == Elems(order)
    ensures Coherent(rows, order', next)
  {
  }

  /** Reordering only moves rows: the result holds every row once. */
  lemma ReorderedIsPermutation(old_: seq<Key>, ordered: seq<Key>)
    requires NoDup(old_) && NoDup(ordered) && Elems(ordered) <= Elems(old_)
    ensures NoDup(ordered + Drop(old_, Elems(ordered)))
    ensures Elems(ordered + Drop(old_, Elems(ordered))) == Elems(old_)
  {
    DropNoDup(old_, Elems(ordered));
    ElemsAppend(ordered, Drop(old_, Elems(ordered)));
    NoDupAppend(ordered, Drop(old_, Elems(ordered)));
  }
}
