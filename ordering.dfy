/** The order of a snapshot and of the list: Python's stable
    `sorted(..., key=strength, reverse=True)`, the table keys of a snapshot,
    and the key sequence the list is reordered to. */
module Ordering {
  import opened WifiTypes
  import opened Lists
  import opened Bssid

  /** Strongest first. */
  predicate Descending(s: seq<AccessPoint>) {
    forall i, j :: 0 <= i < j < |s| ==> s[i].strength >= s[j].strength
  }

  /** Places `x` in front of the first element that is not stronger than it,
      so that it keeps its place before later equals. */
  function Insert(x: AccessPoint, t: seq<AccessPoint>): seq<AccessPoint> {
    if t == [] then [x]
    else if t[0].strength <= x.strength then [x] + t
    else [t[0]] + Insert(x, t[1..])
  }

  /** `sorted(aps, key=lambda ap: ap.get_strength(), reverse=True)`. */
  function SortByStrength(s: seq<AccessPoint>): seq<AccessPoint> {
    if s == [] then [] else Insert(s[0], SortByStrength(s[1..]))
  }

  /** Insertion splits the sequence at a point before which everything is
      strictly stronger than `x`. */
  lemma {:induction false} InsertSplit(x: AccessPoint, t: seq<AccessPoint>) returns (k: nat)
    ensures k <= |t| && Insert(x, t) == t[..k] + [x] + t[k..]
    ensures forall j :: 0 <= j < k ==> t[j].strength > x.strength
    ensures k < |t| ==> t[k].strength <= x.strength
  {
    if t == [] {
      k := 0;
    } else if t[0].strength <= x.strength {
      k := 0;
    } else {
      var k' := InsertSplit(x, t[1..]);
      k := k' + 1;
      assert t[..k] == [t[0]] + t[1..][..k'];
      assert t[k..] == t[1..][k'..];
    }
  }

  lemma {:induction false} InsertDescending(x: AccessPoint, t: seq<AccessPoint>)
    requires Descending(t)
    ensures Descending(Insert(x, t))
  {
    var k := InsertSplit(x, t);
    var r := Insert(x, t);
    forall i, j | 0 <= i < j < |r| ensures r[i].strength >= r[j].strength {
      if j < k || i > k {
        assert r[i] == t[if i < k then i else i - 1];
        assert r[j] == t[if j < k then j else j - 1];
      } else if i == k {
        assert r[j] == t[j - 1];
      } else {
        assert r[i] == t[i];
      }
    }
  }

  /** The sorted snapshot is strongest first. */
  lemma {:induction false} SortDescending(s: seq<AccessPoint>)
    ensures Descending(SortByStrength(s))
  {
    if s != [] {
      SortDescending(s[1..]);
      InsertDescending(s[0], SortByStrength(s[1..]));
    }
  }

  /** Sorting only rearranges the snapshot. */
  lemma {:induction false} SortPermutation(s: seq<AccessPoint>)
    ensures multiset(SortByStrength(s)) == multiset(s)
  {
    if s != [] {
      SortPermutation(s[1..]);
      var t := SortByStrength(s[1..]);
      var x := s[0];
      var k := InsertSplit(x, t);
      MultisetSplice(t, k, x);
      assert s == [x] + s[1..];
    }
  }

  /** The access points of strength `v`, in order. */
  function WithStrength(s: seq<AccessPoint>, v: int): seq<AccessPoint> {
    if s == [] then []
    else (if s[0].strength == v then [s[0]] else []) + WithStrength(s[1..], v)
  }

  lemma {:induction false} WithStrengthAppend(a: seq<AccessPoint>, b: seq<AccessPoint>, v: int)
    ensures WithStrength(a + b, v) == WithStrength(a, v) + WithStrength(b, v)
  {
    if a == [] {
      assert a + b == b;
    } else {
      assert (a + b)[1..] == a[1..] + b;
      WithStrengthAppend(a[1..], b, v);
    }
  }

  lemma {:induction false} WithStrengthNone(a: seq<AccessPoint>, v: int)
    requires forall j :: 0 <= j < |a| ==> a[j].strength != v
    ensures WithStrength(a, v) == []
  {
    if a != [] {
      WithStrengthNone(a[1..], v);
    }
  }

  /** Inserting `x` puts it before every access point of its own strength
      and after every stronger one: among equals it comes first. */
  lemma {:induction false} InsertStable(x: AccessPoint, t: seq<AccessPoint>, v: int)
    ensures WithStrength(Insert(x, t), v) == WithStrength([x], v) + WithStrength(t, v)
  {
    var k := InsertSplit(x, t);
    var before, after := t[..k], t[k..];
    WithStrengthAppend(before + [x], after, v);
    WithStrengthAppend(before, [x], v);
    WithStrengthAppend(before, after, v);
    assert before + after == t;
    if x.strength == v {
      WithStrengthNone(before, v);
    } else {
      assert [x][1..] == [];
      assert WithStrength([x], v) == [];
    }
  }

  /** The sort is stable: access points of equal strength come out in the
      order they came in. */
  lemma {:induction false} SortStable(s: seq<AccessPoint>, v: int)
    ensures WithStrength(SortByStrength(s), v) == WithStrength(s, v)
  {
    if s != [] {
      SortStable(s[1..], v);
      InsertStable(s[0], SortByStrength(s[1..]), v);
      assert s == [s[0]] + s[1..];
      WithStrengthAppend([s[0]], s[1..], v);
    }
  }

  /** A snapshot that is already strongest first is left as it is, so the
      second sort in `_populate_networks` changes nothing. */
  lemma {:induction false} SortIdempotent(s: seq<AccessPoint>)
    requires Descending(s)
    ensures SortByStrength(s) == s
  {
    if s != [] {
      SortIdempotent(s[1..]);
      assert SortByStrength(s[1..]) == s[1..];
      if |s| > 1 {
        assert s[1].strength <= s[0].strength;
      }
      assert s == [s[0]] + s[1..];
    }
  }

  /** The table keys of a snapshot, in snapshot order. */
  function KeysOf(s: seq<AccessPoint>): (ks: seq<Key>)
    ensures |ks| == |s|
    ensures forall i :: 0 <= i < |s| ==> ks[i] == KeyOf(s[i])
  {
    seq(|s|, i requires 0 <= i < |s| => KeyOf(s[i]))
  }

  /** `{_bssid_to_str(ap.get_bssid()) for ap in access_points}`. */
  function KeySet(s: seq<AccessPoint>): (ks: set<Key>)
    ensures forall k :: k in ks <==> k in KeysOf(s)
  {
    Elems(KeysOf(s))
  }

  /** No two access points of the snapshot share a BSSID. */
  predicate DistinctKeys(s: seq<AccessPoint>) {
    NoDup(KeysOf(s))
  }

  lemma KeysOfInsert(x: AccessPoint, t: seq<AccessPoint>, k: nat)
    requires k <= |t| && Insert(x, t) == t[..k] + [x] + t[k..]
    ensures KeysOf(Insert(x, t)) == KeysOf(t)[..k] + [KeyOf(x)] + KeysOf(t)[k..]
  {
  }

  /** Sorting keeps the set of keys and keeps them distinct. */
  lemma {:induction false} SortKeys(s: seq<AccessPoint>)
    ensures KeySet(SortByStrength(s)) == KeySet(s)
    ensures DistinctKeys(s) ==> DistinctKeys(SortByStrength(s))
  {
    if s != [] {
      SortKeys(s[1..]);
      var x, t := s[0], SortByStrength(s[1..]);
      var k := InsertSplit(x, t);
      KeysOfInsert(x, t, k);
      var kt := KeysOf(t);
      SpliceElems(kt, k, KeyOf(x));
      assert KeysOf(s) == [KeyOf(x)] + KeysOf(s[1..]);
      ElemsAppend([KeyOf(x)], KeysOf(s[1..]));
      if DistinctKeys(s) {
        assert KeyOf(x) !in KeysOf(s[1..]);
      }
    }
  }

  /** The keys of the sorted snapshot that name a row of the table, in
      sorted order: what `_compute_ordered_rows` collects when it looks
      rows up by key. */
  function OrderedKeys(sorted: seq<AccessPoint>, table: set<Key>): seq<Key> {
    if sorted == [] then []
    else
      var last := sorted[|sorted| - 1];
      OrderedKeys(sorted[..|sorted| - 1], table) + (if KeyOf(last) in table then [KeyOf(last)] else [])
  }

  /** When every key of the snapshot names a row, the ordered rows are the
      snapshot's keys, in sorted order. */
  lemma {:induction false} OrderedKeysAllPresent(sorted: seq<AccessPoint>, table: set<Key>)
    requires KeySet(sorted) <= table
    ensures OrderedKeys(sorted, table) == KeysOf(sorted)
  {
    if sorted != [] {
      var n := |sorted| - 1;
      assert KeysOf(sorted[..n]) == KeysOf(sorted)[..n];
      assert KeySet(sorted[..n]) <= table by {
        forall k | k in KeySet(sorted[..n]) ensures k in table {
          var i :| 0 <= i < n && KeysOf(sorted[..n])[i] == k;
          assert KeysOf(sorted)[i] == k;
        }
      }
      OrderedKeysAllPresent(sorted[..n], table);
      assert KeyOf(sorted[n]) == KeysOf(sorted)[n];
      assert KeysOf(sorted) == KeysOf(sorted)[..n] + [KeysOf(sorted)[n]];
    }
  }

  /** The keys of an access-point prefix are the prefix of the keys. */
  lemma KeysOfPrefix(s: seq<AccessPoint>, n: nat)
    requires n <= |s|
    ensures KeysOf(s[..n]) == KeysOf(s)[..n]
    ensures DistinctKeys(s) ==> DistinctKeys(s[..n])
    ensures KeySet(s[..n]) <= KeySet(s)
  {
    assert KeysOf(s[..n]) == KeysOf(s)[..n];
    if DistinctKeys(s) {
      NoDupPrefix(KeysOf(s), n);
    }
  }

  /** The ordered keys are the snapshot's keys that are in the table, and
      a snapshot with distinct keys gives each of them once. */
  lemma {:induction false} OrderedKeysFacts(sorted: seq<AccessPoint>, table: set<Key>)
    ensures Elems(OrderedKeys(sorted, table)) == KeySet(sorted) * table
    ensures DistinctKeys(sorted) ==> NoDup(OrderedKeys(sorted, table))
  {
    if sorted != [] {
      var n := |sorted| - 1;
      var k := KeyOf(sorted[n]);
      var init := OrderedKeys(sorted[..n], table);
      var step := if k in table then [k] else [];
      OrderedKeysFacts(sorted[..n], table);
      KeysOfPrefix(sorted, n);
      ElemsAppend(init, step);
      assert KeysOf(sorted) == KeysOf(sorted[..n]) + [k];
      ElemsAppend(KeysOf(sorted[..n]), [k]);
      if DistinctKeys(sorted) {
        assert k !in KeysOf(sorted[..n]);
        NoDupAppend(init, step);
      }
    }
  }

  /** The keys of the sorted snapshot that have no row yet, in sorted
      order: the rows `_apply_rows` appends. */
  function AddedKeys(sorted: seq<AccessPoint>, table: set<Key>): seq<Key> {
    if sorted == [] then []
    else
      var last := sorted[|sorted| - 1];
      AddedKeys(sorted[..|sorted| - 1], table) + (if KeyOf(last) !in table then [KeyOf(last)] else [])
  }

  lemma {:induction false} AddedKeysFacts(sorted: seq<AccessPoint>, table: set<Key>)
    ensures Elems(AddedKeys(sorted, table)) == KeySet(sorted) - table
    ensures DistinctKeys(sorted) ==> NoDup(AddedKeys(sorted, table))
  {
    if sorted != [] {
      var n := |sorted| - 1;
      var k := KeyOf(sorted[n]);
      var init := AddedKeys(sorted[..n], table);
      var step := if k !in table then [k] else [];
      AddedKeysFacts(sorted[..n], table);
      KeysOfPrefix(sorted, n);
      ElemsAppend(init, step);
      assert KeysOf(sorted) == KeysOf(sorted[..n]) + [k];
      ElemsAppend(KeysOf(sorted[..n]), [k]);
      if DistinctKeys(sorted) {
        assert k !in KeysOf(sorted[..n]);
        NoDupAppend(init, step);
      }
    }
  }

  /** One more access point of a snapshot with distinct keys: its key is
      new among the earlier ones, and the key set and the added keys grow
      by it. */
  lemma {:induction false} PrefixStep(sorted: seq<AccessPoint>, table: set<Key>, i: nat)
    requires DistinctKeys(sorted) && i < |sorted|
    ensures KeySet(sorted[..i + 1]) == KeySet(sorted[..i]) + {KeyOf(sorted[i])}
    ensures KeyOf(sorted[i]) !in KeySet(sorted[..i])
    ensures forall j | 0 <= j < i :: KeyOf(sorted[j]) != KeyOf(sorted[i])
    ensures AddedKeys(sorted[..i + 1], table)
            == AddedKeys(sorted[..i], table) + (if KeyOf(sorted[i]) !in table then [KeyOf(sorted[i])] else [])
    ensures Elems(AddedKeys(sorted[..i], table)) == KeySet(sorted[..i]) - table
  {
    var k := KeyOf(sorted[i]);
    var ks := KeysOf(sorted);
    assert sorted[..i + 1][..i] == sorted[..i];
    KeysOfPrefix(sorted, i);
    KeysOfPrefix(sorted, i + 1);
    assert ks[..i + 1] == ks[..i] + [k];
    ElemsAppend(ks[..i], [k]);
    assert forall j | 0 <= j < i :: ks[j] != ks[i];
    AddedKeysFacts(sorted[..i], table);
  }

  /** The table lookup line 311 does with `ap.get_bssid()` itself: a string
      BSSID is the key it spells, a bytes BSSID equals no string key. */
  function RawLookup(raw: RawBssid, table: set<Key>): bool {
    match raw
    case Text(text) => text in table
    case Bytes(_) => false
  }

  /** `_compute_ordered_rows` as written, looking rows up by raw BSSID. */
  function OrderedKeysAsWritten(sorted: seq<AccessPoint>, table: set<Key>): seq<Key> {
    if sorted == [] then []
    else
      var last := sorted[|sorted| - 1];
      OrderedKeysAsWritten(sorted[..|sorted| - 1], table)
        + (if RawLookup(last.bssid, table) then [KeyOf(last)] else [])
  }

  /** With bytes BSSIDs the lookup finds no row at all, so there is nothing
      to reorder towards. */
  lemma {:induction false} BytesFindNoRow(sorted: seq<AccessPoint>, table: set<Key>)
    requires forall i :: 0 <= i < |sorted| ==> sorted[i].bssid.Bytes?
    ensures OrderedKeysAsWritten(sorted, table) == []
  {
    if sorted != [] {
      BytesFindNoRow(sorted[..|sorted| - 1], table);
    }
  }

  /** With string BSSIDs the lookup as written agrees with the keyed one. */
  lemma {:induction false} TextAgrees(sorted: seq<AccessPoint>, table: set<Key>)
    requires forall i :: 0 <= i < |sorted| ==> sorted[i].bssid.Text?
    ensures OrderedKeysAsWritten(sorted, table) == OrderedKeys(sorted, table)
  {
    if sorted != [] {
      TextAgrees(sorted[..|sorted| - 1], table);
    }
  }

  /** A two-network snapshot of bytes BSSIDs whose rows all exist: the
      keyed lookup orders both rows, the lookup as written orders none. */
  lemma BytesLookupCounterexample()
    ensures var weak := AccessPoint(Bytes([1]), Some("a"), 10, {}, {});
            var strong := AccessPoint(Bytes([2]), Some("b"), 90, {}, {});
            var sorted := [strong, weak];
            var table := {KeyOf(weak), KeyOf(strong)};
            OrderedKeys(sorted, table) == [KeyOf(strong), KeyOf(weak)]
            && OrderedKeysAsWritten(sorted, table) == []
  {
    var weak := AccessPoint(Bytes([1]), Some("a"), 10, {}, {});
    var strong := AccessPoint(Bytes([2]), Some("b"), 90, {}, {});
    var sorted := [strong, weak];
    var table := {KeyOf(weak), KeyOf(strong)};
    assert sorted[..1] == [strong];
    assert sorted[..1][..0] == [];
    assert OrderedKeys(sorted[..1], table) == [KeyOf(strong)];
    assert OrderedKeysAsWritten(sorted[..1], table) == [];
  }

  /** `bool(active_bssid and bssid == active_bssid)`: an empty or missing
      active BSSID marks no row. */
  predicate IsActive(k: Key, activeKey: Option<Key>) {
    activeKey.Some? && activeKey.value != "" && k == activeKey.value
  }
}
