/** Canonical JSON separates values exactly up to the order of object keys. */
module JsonInjectivity {
  import opened CanonicalJson
  import opened JsonReader
  import opened Wrappers

  // ---------------------------------------------------------------- values up to key order

  ghost predicate DistinctKeys(entries: seq<Entry>) {
    forall j, k | 0 <= j < k < |entries| :: entries[j].key != entries[k].key
  }

  /** Every object has each key once, as a value in memory does. */
  ghost predicate WellFormed(v: Value)
    decreases v
  {
    match v
    case Arr(items) => forall k | 0 <= k < |items| :: WellFormed(items[k])
    case Obj(entries) => DistinctKeys(entries) && forall k | 0 <= k < |entries| :: WellFormed(entries[k].value)
    case _ => true
  }

  /** Equal up to the order of object keys. */
  ghost predicate Same(v: Value, w: Value)
    decreases v
  {
    match v
    case Arr(items) =>
      w.Arr? && |items| == |w.items| && forall k | 0 <= k < |items| :: Same(items[k], w.items[k])
    case Obj(entries) => w.Obj? && SameEntries(entries, w.entries)
    case _ => v == w
  }

  ghost predicate SameEntry(e: Entry, f: Entry)
    decreases e, 0
  {
    e.key == f.key && Same(e.value, f.value)
  }

  /** Every entry of either list has a partner in the other. */
  ghost predicate SameEntries(v: seq<Entry>, w: seq<Entry>)
    decreases v
  {
    && |v| == |w|
    && (forall k | 0 <= k < |v| :: HasPartner(v[k], w))
    && (forall j | 0 <= j < |w| :: IsPartner(v, w[j]))
  }

  ghost predicate HasPartner(e: Entry, w: seq<Entry>)
    decreases e, 1
  {
    exists j :: 0 <= j < |w| && SameEntry(e, w[j])
  }

  ghost predicate IsPartner(v: seq<Entry>, f: Entry)
    decreases v, 0
  {
    exists k :: 0 <= k < |v| && SameEntry(v[k], f)
  }

  /** One normal form for two values means they are the same up to key order, whatever the sort did. */
  lemma {:induction false} NormSeparates(v: Value, w: Value, before: (string, string) -> bool)
    requires Norm(v, before) == Norm(w, before)
    ensures Same(v, w)
    decreases v
  {
    hide Sorted, SameEntries;
    match v
    case Arr(items) =>
      forall k | 0 <= k < |items|
        ensures Same(items[k], w.items[k])
      {
        assert Norm(v, before).items[k] == Norm(w, before).items[k];
        NormSeparates(items[k], w.items[k], before);
      }
    case Obj(entries) =>
      var s, t := Sorted(entries, before), Sorted(w.entries, before);
      SortedMembers(entries, before);
      SortedMembers(w.entries, before);
      assert |s| == |Norm(v, before).entries| == |Norm(w, before).entries| == |t|;
      forall p | 0 <= p < |s|
        ensures s[p].key == t[p].key && Norm(s[p].value, before) == Norm(t[p].value, before)
      {
        NormKeys(entries, before, p);
        NormKeys(w.entries, before, p);
      }
      EntriesSeparate(entries, w.entries, s, t, before);
    case _ =>
  }

  lemma NormKeys(v: seq<Entry>, before: (string, string) -> bool, p: nat)
    requires p < |v|
    ensures |Sorted(v, before)| == |v|
    ensures Norm(Obj(v), before).Obj? && |Norm(Obj(v), before).entries| == |v|
    ensures Norm(Obj(v), before).entries[p].key == Sorted(v, before)[p].key
    ensures Norm(Obj(v), before).entries[p].value == Norm(Sorted(v, before)[p].value, before)
  {
    hide Sorted;
    SortedMembers(v, before);
    assert Sorted(v, before)[p] in v;
  }

  /** The lists `s` and `t` hold the entries of `v` and `w` and have the same keys and normal forms, place by place. */
  lemma {:induction false} EntriesSeparate(v: seq<Entry>, w: seq<Entry>, s: seq<Entry>, t: seq<Entry>,
                                           before: (string, string) -> bool)
    requires |v| == |s| && |w| == |t| && |s| == |t|
    requires (forall e :: e in s <==> e in v) && (forall e :: e in t <==> e in w)
    requires forall p | 0 <= p < |s| :: s[p].key == t[p].key && Norm(s[p].value, before) == Norm(t[p].value, before)
    ensures SameEntries(v, w)
    decreases v, 1
  {
    hide Norm, Same, SameEntry;
    forall k | 0 <= k < |v|
      ensures HasPartner(v[k], w)
    {
      var j := EntrySeparates(v, w, s, t, before, k);
    }
    forall j | 0 <= j < |w|
      ensures IsPartner(v, w[j])
    {
      var k := EntrySeparatesBack(v, w, s, t, before, j);
    }
  }

  lemma {:induction false} EntrySeparates(v: seq<Entry>, w: seq<Entry>, s: seq<Entry>, t: seq<Entry>,
                                          before: (string, string) -> bool, k: nat) returns (j: nat)
    requires |v| == |s| && |w| == |t| && |s| == |t| && k < |v|
    requires (forall e | e in v :: e in s) && (forall e | e in t :: e in w)
    requires forall p | 0 <= p < |s| :: s[p].key == t[p].key && Norm(s[p].value, before) == Norm(t[p].value, before)
    ensures j < |w| && SameEntry(v[k], w[j])
    decreases v, 0
  {
    hide Norm, Same;
    assert v[k] in v;
    var p :| 0 <= p < |s| && s[p] == v[k];
    assert t[p] in t;
    j :| 0 <= j < |w| && w[j] == t[p];
    NormSeparates(v[k].value, w[j].value, before);
  }

  lemma {:induction false} EntrySeparatesBack(v: seq<Entry>, w: seq<Entry>, s: seq<Entry>, t: seq<Entry>,
                                              before: (string, string) -> bool, j: nat) returns (k: nat)
    requires |v| == |s| && |w| == |t| && |s| == |t| && j < |w|
    requires (forall e | e in w :: e in t) && (forall e | e in s :: e in v)
    requires forall p | 0 <= p < |s| :: s[p].key == t[p].key && Norm(s[p].value, before) == Norm(t[p].value, before)
    ensures k < |v| && SameEntry(v[k], w[j])
    decreases v, 0
  {
    hide Norm, Same;
    assert w[j] in w;
    var p :| 0 <= p < |t| && t[p] == w[j];
    assert s[p] in s;
    k :| 0 <= k < |v| && v[k] == s[p];
    NormSeparates(v[k].value, w[j].value, before);
  }

  // ---------------------------------------------------------------- orders on keys

  ghost predicate StrictOrder(before: (string, string) -> bool) {
    && (forall a :: !before(a, a))
    && (forall a, b, c :: before(a, b) && before(b, c) ==> before(a, c))
  }

  /** What a comparison that sorts by classes of equal keys is. */
  ghost predicate WeakOrder(before: (string, string) -> bool) {
    StrictOrder(before) && forall a, b, c :: before(a, c) ==> before(a, b) || before(b, c)
  }

  predicate Tied(a: string, b: string, before: (string, string) -> bool) {
    !before(a, b) && !before(b, a)
  }

  ghost predicate NoTies(entries: seq<Entry>, before: (string, string) -> bool) {
    forall j, k | 0 <= j < k < |entries| :: !Tied(entries[j].key, entries[k].key, before)
  }

  /** No two keys of one object are tied, anywhere in the value. */
  ghost predicate Untied(v: Value, before: (string, string) -> bool)
    decreases v
  {
    match v
    case Arr(items) => forall k | 0 <= k < |items| :: Untied(items[k], before)
    case Obj(entries) => NoTies(entries, before) && forall k | 0 <= k < |entries| :: Untied(entries[k].value, before)
    case _ => true
  }

  ghost predicate Ascending(s: seq<Entry>, before: (string, string) -> bool) {
    forall j, k | 0 <= j < k < |s| :: before(s[j].key, s[k].key)
  }

  // ---------------------------------------------------------------- untied values have one normal form

  lemma {:induction false} InsertedAscending(e: Entry, s: seq<Entry>, before: (string, string) -> bool)
    requires StrictOrder(before) && Ascending(s, before)
    requires forall k | 0 <= k < |s| :: !Tied(s[k].key, e.key, before)
    ensures Ascending(Inserted(e, s, before), before)
    decreases |s|
  {
    if s != [] && !before(e.key, s[0].key) {
      InsertedAscending(e, s[1..], before);
      var r := Inserted(e, s[1..], before);
      assert before(s[0].key, e.key);
      forall k | 0 <= k < |r|
        ensures before(s[0].key, r[k].key)
      {
        assert r[k] in multiset(r);
        assert r[k] == e || r[k] in s[1..];
      }
    } else if s != [] {
      assert forall k | 0 < k < |s| :: before(s[0].key, s[k].key);
    }
  }

  lemma {:induction false} SortedAscending(entries: seq<Entry>, before: (string, string) -> bool)
    requires StrictOrder(before) && NoTies(entries, before)
    ensures Ascending(Sorted(entries, before), before)
    decreases |entries|
  {
    if entries != [] {
      var n := |entries| - 1;
      SortedAscending(entries[..n], before);
      SortedMembers(entries[..n], before);
      var s := Sorted(entries[..n], before);
      forall k | 0 <= k < |s|
        ensures !Tied(s[k].key, entries[n].key, before)
      {
        assert s[k] in entries[..n];
        var j :| 0 <= j < n && entries[j] == s[k];
      }
      InsertedAscending(entries[n], s, before);
    }
  }

  lemma PositionsAgree(t: seq<Entry>, before: (string, string) -> bool, i: nat, j: nat)
    requires StrictOrder(before) && Ascending(t, before) && i < |t| && j < |t| && before(t[i].key, t[j].key)
    ensures i < j
  {
    assert !before(t[i].key, t[i].key);
    assert !before(t[j].key, t[i].key);
  }

  ghost predicate KeysWithin(s: seq<Entry>, t: seq<Entry>) {
    forall k | 0 <= k < |s| :: exists j :: 0 <= j < |t| && t[j].key == s[k].key
  }

  lemma {:induction false} KeyAtLeast(s: seq<Entry>, t: seq<Entry>, before: (string, string) -> bool, k: nat, j: nat)
    requires StrictOrder(before) && Ascending(s, before) && Ascending(t, before) && KeysWithin(s, t)
    requires k < |s| && j < |t| && t[j].key == s[k].key
    ensures k <= j
    decreases k
  {
    if k > 0 {
      var i :| 0 <= i < |t| && t[i].key == s[k - 1].key;
      KeyAtLeast(s, t, before, k - 1, i);
      assert before(s[k - 1].key, s[k].key);
      PositionsAgree(t, before, i, j);
    }
  }

  lemma {:induction false} KeyAtMost(s: seq<Entry>, t: seq<Entry>, before: (string, string) -> bool, k: nat, j: nat)
    requires StrictOrder(before) && Ascending(s, before) && Ascending(t, before) && KeysWithin(s, t) && |s| == |t|
    requires k < |s| && j < |t| && t[j].key == s[k].key
    ensures j <= k
    decreases |s| - k
  {
    if k + 1 < |s| {
      var i :| 0 <= i < |t| && t[i].key == s[k + 1].key;
      KeyAtMost(s, t, before, k + 1, i);
      assert before(s[k].key, s[k + 1].key);
      PositionsAgree(t, before, j, i);
    }
  }

  /** A value that is the same up to key order has no ties either. */
  lemma {:induction false} UntiedKept(v: Value, w: Value, before: (string, string) -> bool)
    requires WellFormed(v) && WellFormed(w) && Same(v, w) && Untied(v, before)
    ensures Untied(w, before)
    decreases v
  {
    hide NoTies, SameEntries, DistinctKeys;
    match v
    case Arr(items) =>
      forall k | 0 <= k < |items|
        ensures Untied(w.items[k], before)
      {
        UntiedKept(items[k], w.items[k], before);
      }
    case Obj(entries) =>
      forall j | 0 <= j < |w.entries|
        ensures Untied(w.entries[j].value, before)
      {
        var k := PartnerOf(entries, w.entries, j);
        UntiedKept(entries[k].value, w.entries[j].value, before);
      }
      NoTiesKept(entries, w.entries, before);
    case _ =>
  }

  lemma PartnerOf(v: seq<Entry>, w: seq<Entry>, j: nat) returns (k: nat)
    requires SameEntries(v, w) && j < |w|
    ensures k < |v| && v[k].key == w[j].key && Same(v[k].value, w[j].value)
  {
    hide Same;
    assert IsPartner(v, w[j]);
    k :| 0 <= k < |v| && SameEntry(v[k], w[j]);
  }

  lemma NoTiesKept(v: seq<Entry>, w: seq<Entry>, before: (string, string) -> bool)
    requires DistinctKeys(w) && SameEntries(v, w) && NoTies(v, before)
    ensures NoTies(w, before)
  {
    hide SameEntries;
    forall i, j | 0 <= i < j < |w|
      ensures !Tied(w[i].key, w[j].key, before)
    {
      var p := PartnerOf(v, w, i);
      var q := PartnerOf(v, w, j);
      if p < q {
        assert !Tied(v[p].key, v[q].key, before);
      } else {
        assert !Tied(v[q].key, v[p].key, before);
      }
    }
  }

  /** Untied values that are the same up to key order have one normal form. */
  lemma {:induction false} NormMerges(v: Value, w: Value, before: (string, string) -> bool)
    requires StrictOrder(before) && WellFormed(v) && WellFormed(w) && Same(v, w)
    requires Untied(v, before) && Untied(w, before)
    ensures Norm(v, before) == Norm(w, before)
    decreases v
  {
    hide Sorted, SameEntries, NoTies, DistinctKeys, StrictOrder;
    match v
    case Arr(items) =>
      forall k | 0 <= k < |items|
        ensures Norm(items[k], before) == Norm(w.items[k], before)
      {
        NormMerges(items[k], w.items[k], before);
      }
      assert Norm(v, before).items == Norm(w, before).items;
    case Obj(entries) =>
      EntriesMerge(entries, w.entries, before);
    case _ =>
  }

  lemma {:induction false} EntriesMerge(v: seq<Entry>, w: seq<Entry>, before: (string, string) -> bool)
    requires StrictOrder(before) && SameEntries(v, w) && NoTies(v, before) && NoTies(w, before)
    requires forall k | 0 <= k < |v| :: WellFormed(v[k].value) && Untied(v[k].value, before)
    requires forall k | 0 <= k < |w| :: WellFormed(w[k].value) && Untied(w[k].value, before)
    ensures Norm(Obj(v), before) == Norm(Obj(w), before)
    decreases v, 1
  {
    assert |v| == |w|;
    hide Norm, Sorted, WellFormed, Untied, NoTies, SameEntries, StrictOrder, Ascending;
    var s, t := Sorted(v, before), Sorted(w, before);
    SortedMembers(v, before);
    SortedMembers(w, before);
    SortedAscending(v, before);
    SortedAscending(w, before);
    forall k | 0 <= k < |t|
      ensures exists i :: 0 <= i < |s| && s[i].key == t[k].key
    {
      var i := PlaceOf(v, w, before, k);
    }
    forall k | 0 <= k < |t|
      ensures s[k].key == t[k].key && Norm(s[k].value, before) == Norm(t[k].value, before)
    {
      var i := PlaceOf(v, w, before, k);
      KeyAtLeast(t, s, before, k, i);
      KeyAtMost(t, s, before, k, i);
    }
    NormsAgree(v, w, before);
  }

  lemma NormsAgree(v: seq<Entry>, w: seq<Entry>, before: (string, string) -> bool)
    requires |v| == |w| == |Sorted(v, before)| == |Sorted(w, before)|
    requires var s, t := Sorted(v, before), Sorted(w, before);
      forall k | 0 <= k < |t| :: s[k].key == t[k].key && Norm(s[k].value, before) == Norm(t[k].value, before)
    ensures Norm(Obj(v), before) == Norm(Obj(w), before)
  {
    hide Sorted;
    forall k | 0 <= k < |v|
      ensures Norm(Obj(v), before).entries[k] == Norm(Obj(w), before).entries[k]
    {
      NormKeys(v, before, k);
      NormKeys(w, before, k);
    }
    assert Norm(Obj(v), before).entries == Norm(Obj(w), before).entries;
  }

  /** Where the partner of a sorted entry of `w` stands among the sorted entries of `v`. */
  lemma {:induction false} PlaceOf(v: seq<Entry>, w: seq<Entry>, before: (string, string) -> bool, k: nat)
    returns (i: nat)
    requires StrictOrder(before) && SameEntries(v, w) && k < |Sorted(w, before)|
    requires forall k | 0 <= k < |v| :: WellFormed(v[k].value) && Untied(v[k].value, before)
    requires forall k | 0 <= k < |w| :: WellFormed(w[k].value) && Untied(w[k].value, before)
    ensures i < |Sorted(v, before)|
    ensures var e, f := Sorted(v, before)[i], Sorted(w, before)[k];
      e.key == f.key && Norm(e.value, before) == Norm(f.value, before)
    decreases v, 0
  {
    hide Norm, Sorted, WellFormed, Untied, SameEntries, StrictOrder;
    var s, t := Sorted(v, before), Sorted(w, before);
    SortedMembers(v, before);
    SortedMembers(w, before);
    assert t[k] in w;
    var j :| 0 <= j < |w| && w[j] == t[k];
    var p := PartnerOf(v, w, j);
    assert v[p] in s;
    i :| 0 <= i < |s| && s[i] == v[p];
    NormMerges(v[p].value, w[j].value, before);
  }

  // ---------------------------------------------------------------- tied values have another one

  /** No later key sorts before an earlier one. */
  ghost predicate NotDescending(s: seq<Entry>, before: (string, string) -> bool) {
    forall j, k | 0 <= j < k < |s| :: !before(s[k].key, s[j].key)
  }

  lemma {:induction false} InsertedNotDescending(e: Entry, s: seq<Entry>, before: (string, string) -> bool)
    requires StrictOrder(before) && NotDescending(s, before)
    ensures NotDescending(Inserted(e, s, before), before)
    decreases |s|
  {
    if s != [] && !before(e.key, s[0].key) {
      InsertedNotDescending(e, s[1..], before);
      var r := Inserted(e, s[1..], before);
      forall k | 0 <= k < |r|
        ensures !before(r[k].key, s[0].key)
      {
        assert r[k] in multiset(r);
        assert r[k] == e || r[k] in s[1..];
      }
    } else if s != [] {
      forall k | 0 <= k < |s|
        ensures !before(s[k].key, e.key)
      {
        assert k > 0 ==> !before(s[k].key, s[0].key);
      }
    }
  }

  lemma {:induction false} SortedNotDescending(entries: seq<Entry>, before: (string, string) -> bool)
    requires StrictOrder(before)
    ensures NotDescending(Sorted(entries, before), before)
    decreases |entries|
  {
    if entries != [] {
      var n := |entries| - 1;
      SortedNotDescending(entries[..n], before);
      InsertedNotDescending(entries[n], Sorted(entries[..n], before), before);
    }
  }

  lemma {:induction false} InsertedLast(e: Entry, s: seq<Entry>, before: (string, string) -> bool)
    requires forall k | 0 <= k < |s| :: !before(e.key, s[k].key)
    ensures Inserted(e, s, before) == s + [e]
    decreases |s|
  {
    if s != [] {
      InsertedLast(e, s[1..], before);
      assert s == [s[0]] + s[1..];
    }
  }

  lemma SortedAppended(r: seq<Entry>, e: Entry, before: (string, string) -> bool)
    requires Sorted(r, before) == r && forall k | 0 <= k < |r| :: !before(e.key, r[k].key)
    ensures Sorted(r + [e], before) == r + [e]
  {
    hide Inserted;
    var s := r + [e];
    assert s[..|s| - 1] == r && s[|s| - 1] == e;
    InsertedLast(e, r, before);
  }

  lemma NotDescendingFront(s: seq<Entry>, before: (string, string) -> bool)
    requires NotDescending(s, before) && s != []
    ensures var r := s[..|s| - 1];
      NotDescending(r, before) && forall k | 0 <= k < |r| :: !before(s[|s| - 1].key, r[k].key)
  {
    var r := s[..|s| - 1];
    forall j, k | 0 <= j < k < |r|
      ensures !before(r[k].key, r[j].key)
    {
      assert !before(s[k].key, s[j].key);
    }
    forall k | 0 <= k < |r|
      ensures !before(s[|s| - 1].key, r[k].key)
    {
      assert !before(s[|s| - 1].key, s[k].key);
    }
  }

  /** The sort leaves sorted entries as they are. */
  lemma {:induction false} SortedAlready(s: seq<Entry>, before: (string, string) -> bool)
    requires NotDescending(s, before)
    ensures Sorted(s, before) == s
    decreases |s|
  {
    if s != [] {
      hide Sorted, Inserted, NotDescending;
      var e, r := s[|s| - 1], s[..|s| - 1];
      NotDescendingFront(s, before);
      SortedAlready(r, before);
      SortedAppended(r, e, before);
      assert s == r + [e];
    }
  }

  function Swapped(t: seq<Entry>, p: nat, q: nat): seq<Entry>
    requires p < q < |t|
  {
    t[p := t[q]][q := t[p]]
  }

  /** Two tied entries may change places. */
  lemma SwappedNotDescending(t: seq<Entry>, p: nat, q: nat, before: (string, string) -> bool)
    requires WeakOrder(before) && NotDescending(t, before) && p < q < |t| && Tied(t[p].key, t[q].key, before)
    ensures NotDescending(Swapped(t, p, q), before)
  {
    var u := Swapped(t, p, q);
    forall j, k | 0 <= j < k < |u|
      ensures !before(u[k].key, u[j].key)
    {
      var x, y := if j == p then q else if j == q then p else j, if k == p then q else if k == q then p else k;
      assert u[j] == t[x] && u[k] == t[y];
      TiedPlaces(t, p, q, before, j, k, x, y);
    }
  }

  lemma TiedPlaces(t: seq<Entry>, p: nat, q: nat, before: (string, string) -> bool, j: nat, k: nat, x: nat, y: nat)
    requires WeakOrder(before) && NotDescending(t, before) && p < q < |t| && Tied(t[p].key, t[q].key, before)
    requires j < k < |t|
    requires x == (if j == p then q else if j == q then p else j) && y == (if k == p then q else if k == q then p else k)
    ensures !before(t[y].key, t[x].key)
  {
    var a, b, c, d := t[p].key, t[q].key, t[j].key, t[k].key;
    assert before(d, b) ==> before(d, a) || before(a, b);
    assert before(a, c) ==> before(a, b) || before(b, c);
  }

  lemma {:induction false} SameAsItself(v: Value)
    ensures Same(v, v)
    decreases v
  {
    hide SameEntries;
    match v
    case Arr(items) => forall k | 0 <= k < |items| ensures Same(items[k], items[k]) { SameAsItself(items[k]); }
    case Obj(entries) =>
      forall k | 0 <= k < |entries|
        ensures Same(entries[k].value, entries[k].value)
      {
        SameAsItself(entries[k].value);
      }
      Aligned(entries, entries);
    case _ =>
  }

  /** Entries that are the same place by place. */
  lemma Aligned(v: seq<Entry>, w: seq<Entry>)
    requires |v| == |w| && forall k | 0 <= k < |v| :: v[k].key == w[k].key && Same(v[k].value, w[k].value)
    ensures SameEntries(v, w)
  {
    hide Same;
    forall k | 0 <= k < |v|
      ensures HasPartner(v[k], w) && IsPartner(v, w[k])
    {
      assert SameEntry(v[k], w[k]);
    }
  }

  lemma {:induction false} SameDefined(v: Value, w: Value)
    requires Same(v, w) && Defined(v)
    ensures Defined(w)
    decreases v
  {
    hide SameEntries;
    match v
    case Arr(items) => forall k | 0 <= k < |items| ensures Defined(w.items[k]) { SameDefined(items[k], w.items[k]); }
    case Obj(entries) =>
      forall j | 0 <= j < |w.entries|
        ensures Defined(w.entries[j].value)
      {
        var k := PartnerOf(entries, w.entries, j);
        SameDefined(entries[k].value, w.entries[j].value);
      }
    case _ =>
  }

  /** Another order of the same entries is the same object. */
  lemma ReorderedSame(v: seq<Entry>, u: seq<Entry>)
    requires |v| == |u| && (forall e :: e in u <==> e in v)
    ensures SameEntries(v, u)
  {
    hide Same;
    forall k | 0 <= k < |v|
      ensures HasPartner(v[k], u)
    {
      assert v[k] in u;
      var j :| 0 <= j < |u| && u[j] == v[k];
      SameAsItself(v[k].value);
      assert SameEntry(v[k], u[j]);
    }
    forall j | 0 <= j < |u|
      ensures IsPartner(v, u[j])
    {
      assert u[j] in v;
      var k :| 0 <= k < |v| && v[k] == u[j];
      SameAsItself(v[k].value);
      assert SameEntry(v[k], u[j]);
    }
  }

  /** A sort keeps the keys of entries distinct. */
  lemma {:induction false} InsertedDistinct(e: Entry, s: seq<Entry>, before: (string, string) -> bool)
    requires DistinctKeys(s) && forall k | 0 <= k < |s| :: s[k].key != e.key
    ensures DistinctKeys(Inserted(e, s, before))
    decreases |s|
  {
    if s != [] && !before(e.key, s[0].key) {
      InsertedDistinct(e, s[1..], before);
      var r := Inserted(e, s[1..], before);
      forall k | 0 <= k < |r|
        ensures r[k].key != s[0].key
      {
        assert r[k] in multiset(r);
        assert r[k] == e || r[k] in s[1..];
      }
    }
  }

  lemma {:induction false} SortedDistinct(entries: seq<Entry>, before: (string, string) -> bool)
    requires DistinctKeys(entries)
    ensures DistinctKeys(Sorted(entries, before))
    decreases |entries|
  {
    if entries != [] {
      var n := |entries| - 1;
      SortedDistinct(entries[..n], before);
      SortedMembers(entries[..n], before);
      var s := Sorted(entries[..n], before);
      forall k | 0 <= k < |s|
        ensures s[k].key != entries[n].key
      {
        assert s[k] in entries[..n];
      }
      InsertedDistinct(entries[n], s, before);
    }
  }

  /** With two tied keys: the sorted entries with those two changed places. */
  lemma TiedKeysReorder(v: seq<Entry>, before: (string, string) -> bool) returns (u: seq<Entry>)
    requires WeakOrder(before) && DistinctKeys(v) && !NoTies(v, before)
    ensures DistinctKeys(u) && (forall e :: e in u <==> e in v) && |u| == |v|
    ensures Norm(Obj(u), before) != Norm(Obj(v), before)
  {
    var i, j :| 0 <= i < j < |v| && Tied(v[i].key, v[j].key, before);
    assert v[i].key != v[j].key;
    hide Norm, Sorted, NotDescending, WeakOrder, Tied, Swapped;
    var t := Sorted(v, before);
    SortedMembers(v, before);
    assert StrictOrder(before) by { WeakIsStrict(before); }
    SortedNotDescending(v, before);
    SortedDistinct(v, before);
    assert v[i] in t && v[j] in t;
    var a :| 0 <= a < |t| && t[a] == v[i];
    var b :| 0 <= b < |t| && t[b] == v[j];
    var p, q := if a < b then a else b, if a < b then b else a;
    assert Tied(t[p].key, t[q].key, before) by { TiedBack(v[i].key, v[j].key, before); }
    u := Swapped(t, p, q);
    SwappedNotDescending(t, p, q, before);
    SortedAlready(u, before);
    SwappedMembers(t, p, q);
    SwappedDistinct(t, p, q);
    NormKeys(v, before, p);
    NormKeys(u, before, p);
    assert u[p] == t[q] && t[p].key != t[q].key;
  }

  lemma WeakIsStrict(before: (string, string) -> bool)
    requires WeakOrder(before)
    ensures StrictOrder(before)
  {
  }

  lemma TiedBack(a: string, b: string, before: (string, string) -> bool)
    requires Tied(a, b, before)
    ensures Tied(b, a, before)
  {
  }

  lemma SwappedMembers(t: seq<Entry>, p: nat, q: nat)
    requires p < q < |t|
    ensures |Swapped(t, p, q)| == |t| && Swapped(t, p, q)[p] == t[q]
    ensures forall e :: e in Swapped(t, p, q) <==> e in t
  {
    var u := Swapped(t, p, q);
    assert u[p] == t[q] && u[q] == t[p];
    forall e
      ensures e in u <==> e in t
    {
      if e in t {
        var k :| 0 <= k < |t| && t[k] == e;
        assert u[if k == p then q else if k == q then p else k] == e;
      }
      if e in u {
        var k :| 0 <= k < |u| && u[k] == e;
        assert t[if k == p then q else if k == q then p else k] == e;
      }
    }
  }

  lemma SwappedDistinct(t: seq<Entry>, p: nat, q: nat)
    requires p < q < |t| && DistinctKeys(t)
    ensures DistinctKeys(Swapped(t, p, q))
  {
    var u := Swapped(t, p, q);
    forall j, k | 0 <= j < k < |u|
      ensures u[j].key != u[k].key
    {
      var x, y := if j == p then q else if j == q then p else j, if k == p then q else if k == q then p else k;
      assert u[j] == t[x] && u[k] == t[y] && x != y;
      if x < y {
        assert t[x].key != t[y].key;
      } else {
        assert t[y].key != t[x].key;
      }
    }
  }

  /** A changed value under an unchanged key shows in the normal form. */
  lemma ChangedEntryShows(v: seq<Entry>, k: nat, x: Value, before: (string, string) -> bool)
    requires k < |v| && DistinctKeys(v) && Norm(x, before) != Norm(v[k].value, before)
    ensures Norm(Obj(v[k := Entry(v[k].key, x)]), before) != Norm(Obj(v), before)
  {
    hide Norm, Sorted;
    var u := v[k := Entry(v[k].key, x)];
    SortedMembers(v, before);
    SortedMembers(u, before);
    assert v[k] in v;
    var p :| 0 <= p < |v| && Sorted(v, before)[p] == v[k];
    NormKeys(v, before, p);
    NormKeys(u, before, p);
    var e := Sorted(u, before)[p];
    assert e in u;
    var j :| 0 <= j < |u| && u[j] == e;
    if e.key == v[k].key {
      assert j == k;
    }
  }

  lemma ChangedEntrySame(v: seq<Entry>, k: nat, x: Value)
    requires k < |v| && Same(v[k].value, x)
    ensures SameEntries(v, v[k := Entry(v[k].key, x)])
  {
    hide Same, SameEntries;
    var u := v[k := Entry(v[k].key, x)];
    forall j | 0 <= j < |v|
      ensures v[j].key == u[j].key && Same(v[j].value, u[j].value)
    {
      SameAsItself(v[j].value);
    }
    Aligned(v, u);
  }

  lemma ChangedItem(items: seq<Value>, k: nat, x: Value, before: (string, string) -> bool)
    requires k < |items| && Same(items[k], x) && Norm(x, before) != Norm(items[k], before)
    ensures Same(Arr(items), Arr(items[k := x])) && Norm(Arr(items[k := x]), before) != Norm(Arr(items), before)
  {
    var u := items[k := x];
    forall j | 0 <= j < |items|
      ensures Same(items[j], u[j])
    {
      SameAsItself(items[j]);
    }
    assert Norm(Arr(u), before).items[k] != Norm(Arr(items), before).items[k];
  }

  /** A value with a tie in it, anywhere, has a reordering with another normal form. */
  lemma {:induction false} TiedReorders(v: Value, before: (string, string) -> bool) returns (w: Value)
    requires WeakOrder(before) && WellFormed(v) && !Untied(v, before)
    ensures WellFormed(w) && Same(v, w) && Norm(w, before) != Norm(v, before)
    decreases v
  {
    hide Norm, SameEntries, NoTies, WeakOrder;
    match v
    case Arr(items) =>
      var k :| 0 <= k < |items| && !Untied(items[k], before);
      var x := TiedReorders(items[k], before);
      ChangedItem(items, k, x, before);
      w := Arr(items[k := x]);
    case Obj(entries) =>
      if !NoTies(entries, before) {
        var u := TiedKeysReorder(entries, before);
        ReorderedSame(entries, u);
        forall k | 0 <= k < |u| ensures WellFormed(u[k].value) { assert u[k] in entries; }
        w := Obj(u);
      } else {
        var k :| 0 <= k < |entries| && !Untied(entries[k].value, before);
        var x := TiedReorders(entries[k].value, before);
        ChangedEntryShows(entries, k, x, before);
        ChangedEntrySame(entries, k, x);
        w := Obj(entries[k := Entry(entries[k].key, x)]);
      }
  }

  // ---------------------------------------------------------------- main results

  /** Equal canonical texts come from values that are the same up to key order, under any comparison. */
  lemma CanonicalSeparates(v: Value, w: Value, before: (string, string) -> bool)
    requires Canonical(v, before).Success? && Canonical(v, before) == Canonical(w, before)
    ensures Same(v, w) && Norm(v, before) == Norm(w, before)
  {
    TextOfNorm(v, before);
    TextOfNorm(w, before);
    NormDefined(v, before);
    NormDefined(w, before);
    var n, m := Norm(v, before), Norm(w, before);
    assert Text(n) + "" == Text(m) + "";
    TextUnique(n, m, "", "");
    NormSeparates(v, w, before);
  }

  /** Of a value without ties the canonical text is injective exactly up to key order, whatever the comparison does
      with other keys. */
  lemma CanonicalIffSame(v: Value, w: Value, before: (string, string) -> bool)
    requires StrictOrder(before) && WellFormed(v) && WellFormed(w) && Defined(v) && Untied(v, before)
    ensures Canonical(v, before) == Canonical(w, before) <==> Same(v, w)
  {
    hide Norm, Same, Untied;
    if Canonical(v, before) == Canonical(w, before) {
      CanonicalSeparates(v, w, before);
    }
    if Same(v, w) {
      UntiedKept(v, w, before);
      SameDefined(v, w);
      NormMerges(v, w, before);
      TextOfNorm(v, before);
      TextOfNorm(w, before);
    }
  }

  /** Under a comparison that sorts by classes, a value has one text in all orders of its keys exactly when no two keys
      of one object in it are tied. */
  lemma OneTextIffUntied(v: Value, before: (string, string) -> bool)
    requires WeakOrder(before) && WellFormed(v) && Defined(v)
    ensures (forall w | WellFormed(w) && Same(v, w) :: Canonical(w, before) == Canonical(v, before))
       <==> Untied(v, before)
  {
    hide Norm, Same, Untied, Canonical;
    if Untied(v, before) {
      forall w | WellFormed(w) && Same(v, w)
        ensures Canonical(w, before) == Canonical(v, before)
      {
        CanonicalIffSame(v, w, before);
      }
    } else {
      var w := TiedReorders(v, before);
      if Canonical(w, before) == Canonical(v, before) {
        assert Canonical(v, before).Success? by { DefinedSucceeds(v, before); }
        CanonicalSeparates(v, w, before);
      }
    }
  }

  lemma DefinedSucceeds(v: Value, before: (string, string) -> bool)
    requires Defined(v)
    ensures Canonical(v, before).Success?
  {
  }
}
