/** Sequence helpers used by the list reconciler: the operations a Python
    list and a list widget offer (index, remove, insert, insert-after) and
    the facts about them that the reordering proof needs. */
module Lists {

  /** No element occurs twice. */
  predicate NoDup<T(==)>(s: seq<T>) {
    forall i, j :: 0 <= i < j < |s| ==> s[i] != s[j]
  }

  /** The set of elements of a sequence. */
  function Elems<T>(s: seq<T>): set<T> {
    set x | x in s
  }

  /** Python's `list.index`: the position of the first occurrence. */
  function IndexOf<T(==)>(s: seq<T>, x: T): (i: nat)
    requires x in s
    ensures i < |s| && s[i] == x
    ensures forall j :: 0 <= j < i ==> s[j] != x
  {
    if s[0] == x then 0 else 1 + IndexOf(s[1..], x)
  }

  /** Removes the first occurrence of `x` (Python's `list.remove`, and a
      container widget's `remove`); a sequence without `x` is unchanged. */
  function ListRemove<T(==)>(s: seq<T>, x: T): (r: seq<T>)
    ensures x !in s ==> r == s
    ensures x in s ==> |r| == |s| - 1
  {
    if s == [] then []
    else if s[0] == x then s[1..]
    else [s[0]] + ListRemove(s[1..], x)
  }

  /** `remove` takes out exactly the first occurrence; everything before it
      and everything after it stays in place. */
  lemma {:induction false} ListRemoveFirst<T>(s: seq<T>, x: T)
    requires x in s
    ensures ListRemove(s, x) == s[..IndexOf(s, x)] + s[IndexOf(s, x) + 1..]
  {
    if s[0] != x {
      var t := s[1..];
      ListRemoveFirst(t, x);
      var k := IndexOf(t, x);
      assert IndexOf(s, x) == k + 1;
      calc {
        ListRemove(s, x);
        [s[0]] + ListRemove(t, x);
        [s[0]] + (t[..k] + t[k + 1..]);
        { assert [s[0]] + t[..k] == s[..k + 1]; assert t[k + 1..] == s[k + 2..]; }
        s[..k + 1] + s[k + 2..];
      }
    }
  }

  /** Python's `list.insert(i, x)`: an index past the end appends. */
  function InsertAt<T>(s: seq<T>, i: nat, x: T): (r: seq<T>)
    ensures |r| == |s| + 1
    ensures i <= |s| ==> r[i] == x
    ensures i <= |s| ==> (forall j :: 0 <= j < i ==> r[j] == s[j])
                         && (forall j :: i < j < |r| ==> r[j] == s[j - 1])
    ensures i > |s| ==> r == s + [x]
  {
    if i <= |s| then s[..i] + [x] + s[i..] else s + [x]
  }

  /** A list widget's insert-after: `x` is placed right behind the first
      occurrence of the sibling `ref`. */
  function InsertAfter<T(==)>(s: seq<T>, x: T, ref: T): (r: seq<T>)
    requires ref in s
    ensures |r| == |s| + 1
    ensures r[IndexOf(s, ref) + 1] == x
    ensures forall k :: 0 <= k <= IndexOf(s, ref) ==> r[k] == s[k]
    ensures forall k :: IndexOf(s, ref) + 1 < k < |r| ==> r[k] == s[k - 1]
  {
    var j := IndexOf(s, ref);
    s[..j + 1] + [x] + s[j + 1..]
  }

  /** The elements of `s` that are not in `r`, in their order in `s`. */
  function Drop<T>(s: seq<T>, r: set<T>): (d: seq<T>)
    ensures Elems(d) == Elems(s) - r
    ensures |d| <= |s|
  {
    if s == [] then []
    else
      var head := if s[0] in r then [] else [s[0]];
      var rest := Drop(s[1..], r);
      assert s == [s[0]] + s[1..];
      assert Elems(s) == {s[0]} + Elems(s[1..]);
      assert Elems(head + rest) == Elems(head) + Elems(rest);
      head + rest
  }

  lemma {:induction false} DropNoDup<T>(s: seq<T>, r: set<T>)
    requires NoDup(s)
    ensures NoDup(Drop(s, r))
  {
    if s != [] {
      DropNoDup(s[1..], r);
      assert s[0] !in Elems(s[1..]);
      if s[0] !in r {
        NoDupAppend([s[0]], Drop(s[1..], r));
      }
    }
  }

  lemma {:induction false} DropNothing<T>(s: seq<T>, r: set<T>)
    requires Elems(s) !! r
    ensures Drop(s, r) == s
  {
    if s != [] {
      assert Elems(s[1..]) <= Elems(s);
      DropNothing(s[1..], r);
    }
  }

  lemma {:induction false} DropEverything<T>(s: seq<T>, r: set<T>)
    requires Elems(s) <= r
    ensures Drop(s, r) == []
  {
    if s != [] {
      assert Elems(s[1..]) <= Elems(s);
      DropEverything(s[1..], r);
    }
  }

  /** Dropping the elements of a prefix of a duplicate-free sequence leaves
      the rest of it. */
  lemma {:induction false} DropPrefix<T>(s: seq<T>, i: nat)
    requires NoDup(s) && i <= |s|
    ensures Drop(s, Elems(s[..i])) == s[i..]
  {
    DropSplit(s[..i], s[i..], Elems(s[..i]));
    assert s[..i] + s[i..] == s;
    DropEverything(s[..i], Elems(s[..i]));
    SplitDisjoint(s, i);
    DropNothing(s[i..], Elems(s[..i]));
  }

  /** The two halves of a list without duplicates share no element. */
  lemma {:induction false} SplitDisjoint<T>(s: seq<T>, i: nat)
    requires NoDup(s) && i <= |s|
    ensures Elems(s[i..]) !! Elems(s[..i])
  {
    forall x | x in s[i..] ensures x !in s[..i] {
      var a :| i <= a < |s| && s[a] == x;
      assert forall b :: 0 <= b < i ==> s[..i][b] != s[a];
    }
  }

  lemma {:induction false} DropSplit<T>(p: seq<T>, w: seq<T>, r: set<T>)
    ensures Drop(p + w, r) == Drop(p, r) + Drop(w, r)
  {
    if p != [] {
      assert (p + w)[1..] == p[1..] + w;
      DropSplit(p[1..], w, r);
    } else {
      assert p + w == w;
    }
  }

  /** Removing `x` from what is left after dropping `r` is dropping `r`
      and `x`, when `s` holds `x` at most once. */
  lemma {:induction false} DropOneMore<T>(s: seq<T>, r: set<T>, x: T)
    requires NoDup(s)
    ensures ListRemove(Drop(s, r), x) == Drop(s, r + {x})
  {
    if s != [] {
      var tail := s[1..];
      assert NoDup(tail);
      DropOneMore(tail, r, x);
      if s[0] in r {
        assert Drop(s, r) == Drop(tail, r);
        assert Drop(s, r + {x}) == Drop(tail, r + {x});
      } else if s[0] == x {
        assert Drop(s, r) == [x] + Drop(tail, r);
        assert x !in Elems(tail);
        DropTwice(tail, r, {x});
        DropNothing(Drop(tail, r), {x});
        assert Drop(s, r + {x}) == Drop(tail, r + {x});
      } else {
        assert Drop(s, r) == [s[0]] + Drop(tail, r);
        assert Drop(s, r + {x}) == [s[0]] + Drop(tail, r + {x});
      }
    }
  }

  lemma {:induction false} DropTwice<T>(s: seq<T>, r: set<T>, q: set<T>)
    ensures Drop(Drop(s, r), q) == Drop(s, r + q)
  {
    if s != [] {
      DropTwice(s[1..], r, q);
      var head := if s[0] in r then [] else [s[0]];
      DropSplit(head, Drop(s[1..], r), q);
    }
  }

  lemma {:induction false} ListRemoveAppend<T>(p: seq<T>, w: seq<T>, x: T)
    requires x !in p
    ensures ListRemove(p + w, x) == p + ListRemove(w, x)
  {
    if p == [] {
      assert p + w == w;
    } else {
      assert (p + w)[1..] == p[1..] + w;
      ListRemoveAppend(p[1..], w, x);
    }
  }

  lemma {:induction false} IndexOfAppend<T>(p: seq<T>, w: seq<T>, x: T)
    requires x !in p && x in w
    ensures IndexOf(p + w, x) == |p| + IndexOf(w, x)
  {
    if p == [] {
      assert p + w == w;
    } else {
      assert (p + w)[1..] == p[1..] + w;
      IndexOfAppend(p[1..], w, x);
    }
  }

  lemma {:induction false} IndexOfNoDup<T>(s: seq<T>, i: nat)
    requires NoDup(s) && i < |s|
    ensures IndexOf(s, s[i]) == i
  {
    var k := IndexOf(s, s[i]);
    assert s[k] == s[i];
  }

  /** Inserting after the last element of the prefix `p` puts `x` between
      `p` and `w`. */
  lemma {:induction false} InsertAfterLast<T>(p: seq<T>, w: seq<T>, x: T)
    requires |p| > 0 && NoDup(p)
    ensures InsertAfter(p + w, x, p[|p| - 1]) == p + [x] + w
  {
    var last := p[|p| - 1];
    var k := IndexOf(p + w, last);
    assert (p + w)[|p| - 1] == last;
    assert forall j :: 0 <= j < |p| - 1 ==> (p + w)[j] != last;
    assert (p + w)[..k + 1] == p;
    assert (p + w)[k + 1..] == w;
  }

  lemma ElemsAppend<T>(a: seq<T>, b: seq<T>)
    ensures Elems(a + b) == Elems(a) + Elems(b)
  {
  }

  lemma {:induction false} NoDupAppend<T>(a: seq<T>, b: seq<T>)
    requires NoDup(a) && NoDup(b) && Elems(a) !! Elems(b)
    ensures NoDup(a + b)
  {
    forall i, j | 0 <= i < j < |a + b| ensures (a + b)[i] != (a + b)[j] {
      if i < |a| && |a| <= j {
        assert (a + b)[i] in Elems(a);
        assert (a + b)[j] == b[j - |a|];
        assert b[j - |a|] in Elems(b);
      }
    }
  }

  lemma NoDupPrefix<T>(s: seq<T>, i: nat)
    requires NoDup(s) && i <= |s|
    ensures NoDup(s[..i])
  {
  }

  /** The walk that moves the wanted elements `ordered` to the front, one
      at a time: `ordered[..i]` is in place, the rest follows. The next
      wanted element is among the rest, ... */
  lemma {:induction false} NextInRest<T>(start: seq<T>, ordered: seq<T>, i: nat)
    requires NoDup(ordered) && Elems(ordered) <= Elems(start) && i < |ordered|
    ensures ordered[i] !in ordered[..i]
    ensures ordered[i] in Drop(start, Elems(ordered[..i]))
  {
    var x := ordered[i];
    assert x in Elems(ordered);
    assert x !in Elems(ordered[..i]);
    var d := Drop(start, Elems(ordered[..i]));
    assert x in Elems(d);
  }

  /** ... and placing it leaves the rest without it. */
  lemma {:induction false} NextRest<T>(start: seq<T>, ordered: seq<T>, i: nat)
    requires NoDup(start) && i < |ordered|
    ensures Drop(start, Elems(ordered[..i + 1])) == ListRemove(Drop(start, Elems(ordered[..i])), ordered[i])
  {
    assert ordered[..i + 1] == ordered[..i] + [ordered[i]];
    ElemsAppend(ordered[..i], [ordered[i]]);
    assert Elems([ordered[i]]) == {ordered[i]};
    DropOneMore(start, Elems(ordered[..i]), ordered[i]);
  }

  /** An element found right behind the placed prefix is already in place. */
  lemma {:induction false} AlreadyInPlace<T>(p: seq<T>, w: seq<T>, x: T)
    requires x !in p && x in w && IndexOf(p + w, x) == |p|
    ensures p + w == p + [x] + ListRemove(w, x)
  {
    IndexOfAppend(p, w, x);
    assert w[0] == x;
    assert ListRemove(w, x) == w[1..];
    assert w == [x] + w[1..];
    assert p + [x] + w[1..] == p + ([x] + w[1..]);
  }

  /** Python's `insert(i, x)` at the end of a prefix of length `i`. */
  lemma {:induction false} InsertAtSplit<T>(p: seq<T>, w: seq<T>, x: T)
    ensures InsertAt(p + w, |p|, x) == p + [x] + w
  {
    assert (p + w)[..|p|] == p;
    assert (p + w)[|p|..] == w;
  }

  /** When the wanted order is a prefix of the list, the walk finds every
      element in place: the list is unchanged and the next element sits at
      position `i`. */
  lemma {:induction false} PrefixInPlace<T>(start: seq<T>, ordered: seq<T>, i: nat)
    requires NoDup(start) && ordered <= start && i < |ordered|
    ensures ordered[..i] + Drop(start, Elems(ordered[..i])) == start
    ensures ordered[i] in start && IndexOf(start, ordered[i]) == i
  {
    assert ordered[i] == start[i];
    DropPrefix(start, i);
    assert ordered[..i] == start[..i];
    assert start[..i] + start[i..] == start;
    IndexOfNoDup(start, i);
  }

  /** One step of the walk at position `i`, when the list is `cur`, the
      placed prefix followed by the rest: whichever way the next wanted
      element is placed, the list becomes the longer prefix followed by the
      rest without it; and it is found in place when the wanted order is a
      prefix of the list. */
  lemma {:induction false} WalkStep<T>(start: seq<T>, ordered: seq<T>, i: nat, cur: seq<T>)
    requires NoDup(start) && NoDup(ordered) && Elems(ordered) <= Elems(start)
    requires i < |ordered|
    requires cur == ordered[..i] + Drop(start, Elems(ordered[..i]))
    ensures ordered[i] in cur
    ensures var after := ordered[..i + 1] + Drop(start, Elems(ordered[..i + 1]));
            && (IndexOf(cur, ordered[i]) == i ==> cur == after)
            && (i > 0 ==> ordered[i - 1] in ListRemove(cur, ordered[i])
                          && InsertAfter(ListRemove(cur, ordered[i]), ordered[i], ordered[i - 1]) == after)
            && (i == 0 ==> [ordered[i]] + ListRemove(cur, ordered[i]) == after)
            && InsertAt(ListRemove(cur, ordered[i]), i, ordered[i]) == after
    ensures ordered <= start ==> IndexOf(cur, ordered[i]) == i
  {
    var p, w := ordered[..i], Drop(start, Elems(ordered[..i]));
    var x := ordered[i];
    assert ordered[..i + 1] == p + [x];
    NextInRest(start, ordered, i);
    NextRest(start, ordered, i);
    var after := p + [x] + ListRemove(w, x);
    assert ordered[..i + 1] + Drop(start, Elems(ordered[..i + 1])) == after;
    if ordered <= start {
      PrefixInPlace(start, ordered, i);
    }
    if IndexOf(cur, x) == i {
      AlreadyInPlace(p, w, x);
    }
    ListRemoveAppend(p, w, x);
    var rest := ListRemove(w, x);
    assert ListRemove(cur, x) == p + rest;
    if i > 0 {
      NoDupPrefix(ordered, i);
      assert ordered[i - 1] == p[|p| - 1];
      InsertAfterLast(p, rest, x);
    } else {
      assert p == [];
    }
    InsertAtSplit(p, rest, x);
  }

  /** Putting `x` in at position `k` adds one `x` to the multiset. */
  lemma {:induction false} MultisetSplice<T>(t: seq<T>, k: nat, x: T)
    requires k <= |t|
    ensures multiset(t[..k] + [x] + t[k..]) == multiset(t) + multiset{x}
  {
    assert t == t[..k] + t[k..];
  }

  /** Putting `x` in at position `k` adds `x` to the elements, and keeps
      them distinct when `x` is new. */
  lemma {:induction false} SpliceElems<T>(t: seq<T>, k: nat, x: T)
    requires k <= |t|
    ensures Elems(t[..k] + [x] + t[k..]) == Elems(t) + {x}
    ensures NoDup(t) && x !in t ==> NoDup(t[..k] + [x] + t[k..])
  {
    assert t == t[..k] + t[k..];
    ElemsAppend(t[..k] + [x], t[k..]);
    ElemsAppend(t[..k], [x]);
    ElemsAppend(t[..k], t[k..]);
    if NoDup(t) && x !in t {
      NoDupPrefix(t, k);
      assert NoDup(t[k..]);
      NoDupAppend(t[..k], [x]);
      assert Elems(t[..k] + [x]) !! Elems(t[k..]) by {
        forall a | a in Elems(t[..k]) ensures a !in Elems(t[k..]) {
          var p :| 0 <= p < k && t[p] == a;
          assert forall q :: k <= q < |t| ==> t[q] != t[p];
        }
      }
      NoDupAppend(t[..k] + [x], t[k..]);
    }
  }

  /** The list after the walk has put `ordered[..i]` in place. */
  ghost function Walked<T>(start: seq<T>, ordered: seq<T>, i: nat): seq<T>
    requires i <= |ordered|
  {
    ordered[..i] + Drop(start, Elems(ordered[..i]))
  }

  /** The next wanted element is in the list, and already at its place
      when the wanted order is a prefix of the start. */
  lemma WalkNext<T>(start: seq<T>, ordered: seq<T>, i: nat)
    requires NoDup(start) && NoDup(ordered) && Elems(ordered) <= Elems(start) && i < |ordered|
    ensures ordered[i] in Walked(start, ordered, i)
    ensures ordered <= start ==> IndexOf(Walked(start, ordered, i), ordered[i]) == i
  {
    WalkStep(start, ordered, i, Walked(start, ordered, i));
  }

  /** An element found at its place ends step `i` with nothing to do. */
  lemma WalkStay<T>(start: seq<T>, ordered: seq<T>, i: nat)
    requires NoDup(start) && NoDup(ordered) && Elems(ordered) <= Elems(start) && i < |ordered|
    requires ordered[i] in Walked(start, ordered, i)
    requires IndexOf(Walked(start, ordered, i), ordered[i]) == i
    ensures Walked(start, ordered, i) == Walked(start, ordered, i + 1)
  {
    WalkStep(start, ordered, i, Walked(start, ordered, i));
  }

  /** Any other is taken out and put back behind its predecessor in the
      wanted order, or at the top for the first one; either way it lands
      at position `i`. */
  lemma WalkMove<T>(start: seq<T>, ordered: seq<T>, i: nat)
    requires NoDup(start) && NoDup(ordered) && Elems(ordered) <= Elems(start) && i < |ordered|
    ensures ordered[i] in Walked(start, ordered, i)
    ensures var rest := ListRemove(Walked(start, ordered, i), ordered[i]);
            && (i > 0 ==> ordered[i - 1] in rest
                          && InsertAfter(rest, ordered[i], ordered[i - 1]) == Walked(start, ordered, i + 1))
            && (i == 0 ==> [ordered[i]] + rest == Walked(start, ordered, i + 1))
            && InsertAt(rest, i, ordered[i]) == Walked(start, ordered, i + 1)
  {
    WalkStep(start, ordered, i, Walked(start, ordered, i));
  }
}
