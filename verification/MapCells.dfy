/**
  A sequence of cells, each empty or holding one entry, standing for a finite map.
 */
module MapCells {

  datatype Entry<K, V> = Entry(key: K, val: V)

  datatype Cell<K, V> = Vacant | Full(entry: Entry<K, V>)

  ghost predicate HasKey<K, V>(s: seq<Cell<K, V>>, k: K) {
    exists p :: 0 <= p < |s| && s[p].Full? && s[p].entry.key == k
  }

  ghost predicate KeysDistinct<K, V>(s: seq<Cell<K, V>>) {
    forall i, j :: 0 <= i < j < |s| && s[i].Full? && s[j].Full? ==> s[i].entry.key != s[j].entry.key
  }

  ghost predicate ValuesFrom<K, V>(s: seq<Cell<K, V>>, m: map<K, V>) {
    forall i :: 0 <= i < |s| && s[i].Full? ==> s[i].entry.key in m && m[s[i].entry.key] == s[i].entry.val
  }

  // The number of entries.
  ghost function Count<K, V>(s: seq<Cell<K, V>>): nat {
    if |s| == 0 then 0 else Count(s[..|s| - 1]) + (if s[|s| - 1].Full? then 1 else 0)
  }

  // The cells are exactly the finite map m: same keys and values, no key twice, same number.
  ghost predicate Holds<K, V>(s: seq<Cell<K, V>>, m: map<K, V>) {
    && KeysDistinct(s) && ValuesFrom(s, m)
    && (forall k :: k in m ==> HasKey(s, k))
    && Count(s) == |m|
  }

  lemma {:induction false} CountConcat<K, V>(s: seq<Cell<K, V>>, t: seq<Cell<K, V>>)
    ensures Count(s + t) == Count(s) + Count(t)
  {
    if |t| == 0 {
      assert s + t == s;
    } else {
      assert (s + t)[..|s + t| - 1] == s + t[..|t| - 1];
      CountConcat(s, t[..|t| - 1]);
    }
  }

  // s with cell c put in at position p.
  ghost function Inserted<K, V>(s: seq<Cell<K, V>>, p: nat, c: Cell<K, V>): seq<Cell<K, V>>
    requires p <= |s|
  {
    s[..p] + [c] + s[p..]
  }

  ghost function Removed<K, V>(s: seq<Cell<K, V>>, p: nat): seq<Cell<K, V>>
    requires p < |s|
  {
    s[..p] + s[p + 1..]
  }

  lemma CountInserted<K, V>(s: seq<Cell<K, V>>, p: nat, c: Cell<K, V>)
    requires p <= |s|
    ensures Count(Inserted(s, p, c)) == Count(s) + (if c.Full? then 1 else 0)
  {
    hide Count;
    var l, r := s[..p], s[p..];
    CountConcat(l, [c]);
    CountConcat(l + [c], r);
    CountConcat(l, r);
    assert l + r == s;
    CountOne(c);
  }

  lemma CountOne<K, V>(c: Cell<K, V>)
    ensures Count([c]) == if c.Full? then 1 else 0
  {
    assert [c][..0] == [];
  }

  lemma KeyInserted<K, V>(s: seq<Cell<K, V>>, p: nat, c: Cell<K, V>, k: K)
    requires p <= |s|
    ensures HasKey(Inserted(s, p, c), k) <==> HasKey(s, k) || (c.Full? && c.entry.key == k)
  {
    var s' := Inserted(s, p, c);
    if HasKey(s, k) {
      var j :| 0 <= j < |s| && s[j].Full? && s[j].entry.key == k;
      assert s'[if j < p then j else j + 1] == s[j];
    }
    if c.Full? && c.entry.key == k { assert s'[p] == c; }
    if HasKey(s', k) {
      var j :| 0 <= j < |s'| && s'[j].Full? && s'[j].entry.key == k;
      if j < p { assert s[j] == s'[j]; } else if j > p { assert s[j - 1] == s'[j]; }
    }
  }

  lemma DistinctInserted<K, V>(s: seq<Cell<K, V>>, p: nat, c: Cell<K, V>)
    requires p <= |s| && KeysDistinct(s) && (c.Full? ==> !HasKey(s, c.entry.key))
    ensures KeysDistinct(Inserted(s, p, c))
  {
    var s' := Inserted(s, p, c);
    forall i, j | 0 <= i < j < |s'| && s'[i].Full? && s'[j].Full? ensures s'[i].entry.key != s'[j].entry.key {
      var i', j' := if i < p then i else i - 1, if j < p then j else j - 1;
      assert i != p ==> s'[i] == s[i'];
      assert j != p ==> s'[j] == s[j'];
    }
  }

  // A new entry, or an empty cell, anywhere in the sequence.
  lemma InsertHolds<K, V>(s: seq<Cell<K, V>>, m: map<K, V>, p: nat, e: Entry<K, V>)
    requires Holds(s, m) && p <= |s| && e.key !in m
    ensures Holds(Inserted(s, p, Full(e)), m[e.key := e.val])
  {
    var c, m' := Full(e), m[e.key := e.val];
    var s' := Inserted(s, p, c);
    HoldsKeys(s, m, e.key);
    DistinctInserted(s, p, c);
    CountInserted(s, p, c);
    assert m'.Keys == m.Keys + {e.key};
    ValuesInserted(s, p, c, m');
    hide KeysDistinct, HasKey, Inserted, ValuesFrom;
    forall k | k in m' ensures HasKey(s', k) { KeyInserted(s, p, c, k); }
  }

  lemma ValuesInserted<K, V>(s: seq<Cell<K, V>>, p: nat, c: Cell<K, V>, m: map<K, V>)
    requires p <= |s| && ValuesFrom(s, m)
    requires c.Full? ==> c.entry.key in m && m[c.entry.key] == c.entry.val
    ensures ValuesFrom(Inserted(s, p, c), m)
  {
    var s' := Inserted(s, p, c);
    forall i | 0 <= i < |s'| && s'[i].Full? ensures s'[i].entry.key in m && m[s'[i].entry.key] == s'[i].entry.val {
      var i' := if i < p then i else i - 1;
      assert i != p ==> s'[i] == s[i'];
    }
  }

  lemma VacantHolds<K, V>(s: seq<Cell<K, V>>, m: map<K, V>, p: nat)
    requires Holds(s, m) && p <= |s|
    ensures Holds(Inserted(s, p, Vacant), m)
  {
    var s' := Inserted(s, p, Vacant);
    DistinctInserted(s, p, Vacant);
    CountInserted(s, p, Vacant);
    ValuesInserted(s, p, Vacant, m);
    hide KeysDistinct, HasKey, Inserted, ValuesFrom;
    forall k | k in m ensures HasKey(s', k) { KeyInserted(s, p, Vacant, k); }
  }

  // Taking a cell out of the sequence, with its entry if it has one.
  lemma RemoveHolds<K, V>(s: seq<Cell<K, V>>, m: map<K, V>, p: nat)
    requires Holds(s, m) && p < |s|
    ensures s[p].Full? ==> s[p].entry.key in m && Holds(Removed(s, p), m - {s[p].entry.key})
    ensures s[p].Vacant? ==> Holds(Removed(s, p), m)
  {
    var s' := Removed(s, p);
    var m' := if s[p].Full? then m - {s[p].entry.key} else m;
    RemovedInserts(s, p);
    CountInserted(s', p, s[p]);
    RemovedDistinct(s, p);
    RemovedValues(s, p, m);
    if s[p].Full? { assert m'.Keys == m.Keys - {s[p].entry.key}; }
    forall k | k in m' ensures HasKey(s', k) { KeyInserted(s', p, s[p], k); }
  }

  lemma RemovedInserts<K, V>(s: seq<Cell<K, V>>, p: nat)
    requires p < |s|
    ensures |Removed(s, p)| == |s| - 1 && Inserted(Removed(s, p), p, s[p]) == s
  {}

  lemma RemovedDistinct<K, V>(s: seq<Cell<K, V>>, p: nat)
    requires p < |s| && KeysDistinct(s)
    ensures KeysDistinct(Removed(s, p))
    ensures s[p].Full? ==> !HasKey(Removed(s, p), s[p].entry.key)
  {
    var s' := Removed(s, p);
    forall i | 0 <= i < |s'| ensures s'[i] == s[if i < p then i else i + 1] {}
  }

  lemma RemovedValues<K, V>(s: seq<Cell<K, V>>, p: nat, m: map<K, V>)
    requires p < |s| && KeysDistinct(s) && ValuesFrom(s, m)
    ensures ValuesFrom(Removed(s, p), if s[p].Full? then m - {s[p].entry.key} else m)
  {
    var s' := Removed(s, p);
    forall i | 0 <= i < |s'| ensures s'[i] == s[if i < p then i else i + 1] {}
  }

  lemma HoldsKeys<K, V>(s: seq<Cell<K, V>>, m: map<K, V>, k: K)
    requires Holds(s, m)
    ensures HasKey(s, k) <==> k in m
    ensures forall i :: 0 <= i < |s| && s[i].Full? && s[i].entry.key == k ==> s[i].entry.val == m[k]
  {}

  lemma HoldsCount<K, V>(s: seq<Cell<K, V>>, m: map<K, V>)
    requires Holds(s, m)
    ensures Count(s) == |m|
  {}

  lemma HoldsUnique<K, V>(s: seq<Cell<K, V>>, m: map<K, V>, m': map<K, V>)
    requires Holds(s, m) && Holds(s, m')
    ensures m == m'
  {
    assert forall k :: k in m <==> HasKey(s, k);
    assert forall k :: k in m' <==> HasKey(s, k);
  }

  // ---------- changing one cell ----------

  lemma UpdateIsInsert<K, V>(s: seq<Cell<K, V>>, p: nat, c: Cell<K, V>)
    requires p < |s|
    ensures s[p := c] == Inserted(Removed(s, p), p, c)
  {}

  lemma FillHolds<K, V>(s: seq<Cell<K, V>>, m: map<K, V>, p: nat, e: Entry<K, V>)
    requires Holds(s, m) && p < |s| && s[p].Vacant? && e.key !in m
    ensures Holds(s[p := Full(e)], m[e.key := e.val])
  {
    hide Holds;
    RemoveHolds(s, m, p);
    RemovedInserts(s, p);
    InsertHolds(Removed(s, p), m, p, e);
    UpdateIsInsert(s, p, Full(e));
  }

  lemma EmptyHolds<K, V>(s: seq<Cell<K, V>>, m: map<K, V>, p: nat)
    requires Holds(s, m) && p < |s| && s[p].Full?
    ensures s[p].entry.key in m && Holds(s[p := Vacant], m - {s[p].entry.key})
  {
    hide Holds;
    RemoveHolds(s, m, p);
    RemovedInserts(s, p);
    VacantHolds(Removed(s, p), m - {s[p].entry.key}, p);
    UpdateIsInsert(s, p, Vacant);
  }

  lemma AssignHolds<K, V>(s: seq<Cell<K, V>>, m: map<K, V>, p: nat, v: V)
    requires Holds(s, m) && p < |s| && s[p].Full?
    ensures Holds(s[p := Full(Entry(s[p].entry.key, v))], m[s[p].entry.key := v])
  {
    hide Holds;
    var k := s[p].entry.key;
    EmptyHolds(s, m, p);
    FillHolds(s[p := Vacant], m - {k}, p, Entry(k, v));
    assert s[p := Vacant][p := Full(Entry(k, v))] == s[p := Full(Entry(k, v))];
    assert (m - {k})[k := v] == m[k := v];
  }

  // Moving an entry to an empty cell.
  lemma MoveHolds<K, V>(s: seq<Cell<K, V>>, m: map<K, V>, from: nat, to: nat)
    requires Holds(s, m) && from < |s| && to < |s| && s[from].Full? && s[to].Vacant?
    ensures Holds(s[to := s[from]][from := Vacant], m)
  {
    hide Holds;
    var e := s[from].entry;
    HoldsKeys(s, m, e.key);
    EmptyHolds(s, m, from);
    FillHolds(s[from := Vacant], m - {e.key}, to, e);
    assert s[from := Vacant][to := Full(e)] == s[to := s[from]][from := Vacant];
    assert (m - {e.key})[e.key := e.val] == m;
  }

  // The finite map of a prefix.
  lemma {:induction false} PrefixHolds<K, V>(s: seq<Cell<K, V>>, m: map<K, V>, p: nat) returns (m': map<K, V>)
    requires Holds(s, m) && p <= |s|
    ensures Holds(s[..p], m') && m'.Keys <= m.Keys
    decreases |s|
  {
    hide Holds;
    if p == |s| {
      m' := m;
      assert s[..p] == s;
    } else {
      var l := |s| - 1;
      RemoveHolds(s, m, l);
      assert Removed(s, l) == s[..l];
      m' := PrefixHolds(s[..l], if s[l].Full? then m - {s[l].entry.key} else m, p);
      assert s[..l][..p] == s[..p];
    }
  }

  // Empty cells at the end change nothing.
  lemma {:induction false} PadHolds<K, V>(s: seq<Cell<K, V>>, m: map<K, V>, k: nat)
    requires Holds(s, m)
    ensures Holds(s + seq(k, _ => Vacant), m)
  {
    hide Holds;
    if k == 0 {
      assert s + seq(k, _ => Vacant) == s;
    } else {
      PadHolds(s, m, k - 1);
      var t := s + seq(k - 1, _ => Vacant);
      VacantHolds(t, m, |t|);
      assert Inserted(t, |t|, Vacant) == s + seq(k, _ => Vacant);
    }
  }

  // One more cell of a sequence that holds m, after a prefix that holds m'.
  lemma NextCell<K, V>(s: seq<Cell<K, V>>, m: map<K, V>, p: nat, m': map<K, V>)
    requires Holds(s, m) && p < |s| && Holds(s[..p], m')
    ensures s[p].Vacant? ==> Holds(s[..p + 1], m')
    ensures s[p].Full? ==> s[p].entry.key !in m' && Holds(s[..p + 1], m'[s[p].entry.key := s[p].entry.val])
  {
    if s[p].Full? { NotBefore(s, m, p, m'); }
    hide Holds;
    assert s[..p + 1] == Inserted(s[..p], p, s[p]);
    if s[p].Vacant? {
      VacantHolds(s[..p], m', p);
    } else {
      InsertHolds(s[..p], m', p, s[p].entry);
    }
  }

  lemma NotBefore<K, V>(s: seq<Cell<K, V>>, m: map<K, V>, p: nat, m': map<K, V>)
    requires Holds(s, m) && p < |s| && Holds(s[..p], m') && s[p].Full?
    ensures s[p].entry.key !in m'
  {
    HoldsKeys(s[..p], m', s[p].entry.key);
  }

  lemma {:induction false} CountPrefix<K, V>(s: seq<Cell<K, V>>, p: nat)
    requires p <= |s|
    ensures Count(s[..p]) <= Count(s)
  {
    CountConcat(s[..p], s[p..]);
    assert s[..p] + s[p..] == s;
  }
}
