/**
  The state of the hopscotch table as a whole, buckets and overflow list together, and the
  elementary steps that keep it sound.
 */
module HopscotchSteps {
  import opened GrowthPolicy
  import opened MapCells
  import opened HopscotchBuckets
  import opened HopscotchLoops

  // Some overflow element has home bucket h.
  ghost predicate Spills<K, V>(cfg: Config<K>, ovf: seq<Entry<K, V>>, n: nat, h: nat)
    requires n > 0
  {
    exists p :: 0 <= p < |ovf| && Home(cfg, ovf[p].key, n) == h
  }

  // The overflow flag of a bucket is set exactly when some overflow element has it as home.
  ghost predicate Flags<K, V>(cfg: Config<K>, b: seq<Bucket<K, V>>, n: nat, ovf: seq<Entry<K, V>>)
    requires n > 0
  {
    forall h: nat :: h < |b| ==> (HasOverflow(b[h]) <==> Spills(cfg, ovf, n, h))
  }

  /**
    The invariant of the table: bitmaps, occupancy and overflow flags agree with the stored values,
    and the buckets and the overflow list together hold exactly the finite map m.
   */
  ghost predicate Sound<K, V>(cfg: Config<K>, b: seq<Bucket<K, V>>, n: nat, ovf: seq<Entry<K, V>>, m: map<K, V>) {
    if n == 0 then ConfigOk(cfg) && b == [] && ovf == [] && m == map[]
    else Hood(cfg, b, n) && Flags(cfg, b, n, ovf) && Holds(Cells(b, ovf), m)
  }

  lemma SoundFacts<K, V>(cfg: Config<K>, b: seq<Bucket<K, V>>, n: nat, ovf: seq<Entry<K, V>>, m: map<K, V>)
    requires Sound(cfg, b, n, ovf, m)
    ensures 4 <= cfg.hood <= 62
    ensures n == 0 ==> b == [] && ovf == [] && m == map[]
    ensures n > 0 ==> IsPow2(n) && |b| == n + cfg.hood - 1 && Hood(cfg, b, n) && Holds(Cells(b, ovf), m)
  {
    hide Holds, Cells;
  }

  lemma SoundFlags<K, V>(cfg: Config<K>, b: seq<Bucket<K, V>>, n: nat, ovf: seq<Entry<K, V>>, m: map<K, V>, h: nat)
    requires Sound(cfg, b, n, ovf, m) && h < |b|
    ensures n > 0 && (HasOverflow(b[h]) <==> Spills(cfg, ovf, n, h))
  {
    hide Holds, Cells, Hood, HasOverflow, Spills;
  }

  // The number of values in a sequence of buckets.
  ghost function Occupied<K, V>(b: seq<Bucket<K, V>>): nat {
    Count(Slots(b))
  }

  // The element count is the number of occupied buckets plus the length of the overflow list.
  lemma SizeIsSum<K, V>(cfg: Config<K>, b: seq<Bucket<K, V>>, n: nat, ovf: seq<Entry<K, V>>, m: map<K, V>)
    requires Sound(cfg, b, n, ovf, m)
    ensures |m| == Occupied(b) + |ovf|
  {
    hide Sound, Holds, Count, Hood;
    SoundFacts(cfg, b, n, ovf, m);
    if n == 0 {
      CountFull(Slots(b));
    } else {
      CellsCount(b, ovf);
      HoldsCount(Cells(b, ovf), m);
    }
  }

  lemma CellsCount<K, V>(b: seq<Bucket<K, V>>, ovf: seq<Entry<K, V>>)
    ensures Count(Cells(b, ovf)) == Occupied(b) + |ovf|
  {
    hide Count;
    CountConcat(Over(ovf), Slots(b));
    CountFull(Over(ovf));
  }

  lemma {:induction false} CountFull<K, V>(s: seq<Cell<K, V>>)
    requires forall i :: 0 <= i < |s| ==> s[i].Full?
    ensures Count(s) == |s|
  {
    if |s| > 0 { CountFull(s[..|s| - 1]); }
  }

  // A key of the map is in a bucket, or in the overflow list behind a set flag; never in both.
  lemma Located<K, V>(cfg: Config<K>, b: seq<Bucket<K, V>>, n: nat, ovf: seq<Entry<K, V>>, m: map<K, V>, k: K)
    requires Sound(cfg, b, n, ovf, m) && n > 0
    ensures k in m <==> InBuckets(b, k) || InList(ovf, k)
    ensures InList(ovf, k) ==> !InBuckets(b, k)
    ensures Home(cfg, k, n) < |b| && (InList(ovf, k) ==> HasOverflow(b[Home(cfg, k, n)]))
  {
    SoundFacts(cfg, b, n, ovf, m);
    HoldsKeys(Cells(b, ovf), m, k);
    InCells(b, ovf, k);
    NotTwice(b, ovf, m, k);
    hide Hood, Holds, Cells, HasKey, InBuckets, HasOverflow, Home;
    if InList(ovf, k) {
      assert Spills(cfg, ovf, n, Home(cfg, k, n));
    }
  }

  lemma InCells<K, V>(b: seq<Bucket<K, V>>, ovf: seq<Entry<K, V>>, k: K)
    ensures HasKey(Cells(b, ovf), k) <==> InBuckets(b, k) || InList(ovf, k)
  {
    var s := Cells(b, ovf);
    if InBuckets(b, k) {
      var p :| 0 <= p < |b| && b[p].slot.Full? && b[p].slot.entry.key == k;
      assert s[|ovf| + p] == b[p].slot;
    }
    if InList(ovf, k) {
      var p :| 0 <= p < |ovf| && ovf[p].key == k;
      assert s[p] == Full(ovf[p]);
    }
    if HasKey(s, k) {
      var p :| 0 <= p < |s| && s[p].Full? && s[p].entry.key == k;
      if p >= |ovf| { assert b[p - |ovf|].slot == s[p]; }
    }
  }

  lemma NotTwice<K, V>(b: seq<Bucket<K, V>>, ovf: seq<Entry<K, V>>, m: map<K, V>, k: K)
    requires Holds(Cells(b, ovf), m)
    ensures InList(ovf, k) ==> !InBuckets(b, k)
  {
    var s := Cells(b, ovf);
    if InList(ovf, k) {
      var q :| 0 <= q < |ovf| && ovf[q].key == k;
      assert s[q] == Full(ovf[q]);
      forall p | 0 <= p < |b| && b[p].slot.Full? ensures b[p].slot.entry.key != k {
        assert s[|ovf| + p] == b[p].slot;
      }
    }
  }

  lemma BucketValue<K, V>(cfg: Config<K>, b: seq<Bucket<K, V>>, n: nat, ovf: seq<Entry<K, V>>, m: map<K, V>, p: nat)
    requires Sound(cfg, b, n, ovf, m) && p < |b| && b[p].slot.Full?
    ensures var e := b[p].slot.entry; e.key in m && m[e.key] == e.val
  {
    assert Cells(b, ovf)[|ovf| + p] == b[p].slot;
  }

  lemma ListValue<K, V>(cfg: Config<K>, b: seq<Bucket<K, V>>, n: nat, ovf: seq<Entry<K, V>>, m: map<K, V>, p: nat)
    requires Sound(cfg, b, n, ovf, m) && p < |ovf|
    ensures ovf[p].key in m && m[ovf[p].key] == ovf[p].val
  {
    assert Cells(b, ovf)[p] == Full(ovf[p]);
  }

  // ---------- buckets ----------

  lemma StoredSound<K, V>(cfg: Config<K>, b: seq<Bucket<K, V>>, n: nat, ovf: seq<Entry<K, V>>, m: map<K, V>,
                          p: nat, e: Entry<K, V>)
    requires Sound(cfg, b, n, ovf, m) && n > 0 && e.key !in m
    requires p < |b| && b[p].slot.Vacant? && Home(cfg, e.key, n) <= p < Home(cfg, e.key, n) + cfg.hood
    ensures Sound(cfg, Stored(b, p, Home(cfg, e.key, n), e), n, ovf, m[e.key := e.val])
    ensures Stored(b, p, Home(cfg, e.key, n), e)[p].slot == Full(e)
  {
    hide Home, HasOverflow, Holds, Spills, Cells, Stored;
    var h := Home(cfg, e.key, n);
    StoredHood(cfg, b, n, p, e);
    StoredEdits(b, p, h, e);
    hide Hood;
    var b' := Stored(b, p, h, e);
    CellsEdit(b, b', ovf, p, Full(e));
    FillHolds(Cells(b, ovf), m, |ovf| + p, e);
  }

  lemma ErasedSound<K, V>(cfg: Config<K>, b: seq<Bucket<K, V>>, n: nat, ovf: seq<Entry<K, V>>, m: map<K, V>, p: nat)
    requires Sound(cfg, b, n, ovf, m) && n > 0 && p < |b| && b[p].slot.Full?
    ensures var k := b[p].slot.entry.key;
            && Home(cfg, k, n) <= p && k in m
            && Sound(cfg, Erased(b, p, Home(cfg, k, n)), n, ovf, m - {k})
  {
    hide Home, HasOverflow, Holds, Spills, Cells, Erased;
    var h := Home(cfg, b[p].slot.entry.key, n);
    ErasedHood(cfg, b, n, p);
    ErasedEdits(b, p, h);
    hide Hood;
    var b' := Erased(b, p, h);
    CellsEdit(b, b', ovf, p, Vacant);
    EmptyHolds(Cells(b, ovf), m, |ovf| + p);
  }

  // Displaced values change neither the flags nor the map.
  lemma RearrangedSound<K, V>(cfg: Config<K>, b: seq<Bucket<K, V>>, b': seq<Bucket<K, V>>, n: nat,
                              ovf: seq<Entry<K, V>>, m: map<K, V>)
    requires Sound(cfg, b, n, ovf, m) && n > 0 && Rearranged(cfg, n, b, b', ovf, m)
    ensures Sound(cfg, b', n, ovf, m)
  {
    hide Hood, HasOverflow, Holds, Spills, Cells;
  }

  // Assigning to the value of a key stored in a bucket.
  function AssignedAt<K, V>(b: seq<Bucket<K, V>>, p: nat, v: V): seq<Bucket<K, V>>
    requires p < |b| && b[p].slot.Full?
  {
    b[p := Assigned(b[p], Entry(b[p].slot.entry.key, v))]
  }

  lemma AssignedSound<K, V>(cfg: Config<K>, b: seq<Bucket<K, V>>, n: nat, ovf: seq<Entry<K, V>>, m: map<K, V>, p: nat,
                            v: V)
    requires Sound(cfg, b, n, ovf, m) && n > 0 && p < |b| && b[p].slot.Full?
    ensures Sound(cfg, AssignedAt(b, p, v), n, ovf, m[b[p].slot.entry.key := v])
  {
    hide Home, HasOverflow, Holds, Spills, Cells, IsEmpty, Neighbor, Assigned;
    var e := Entry(b[p].slot.entry.key, v);
    var b' := AssignedAt(b, p, v);
    AssignedHood(cfg, b, n, p, e);
    hide Hood;
    CellsEdit(b, b', ovf, p, Full(e));
    MapCells.AssignHolds(Cells(b, ovf), m, |ovf| + p, v);
  }

  lemma AssignedHood<K, V>(cfg: Config<K>, b: seq<Bucket<K, V>>, n: nat, p: nat, e: Entry<K, V>)
    requires Hood(cfg, b, n) && p < |b| && b[p].slot.Full? && b[p].slot.entry.key == e.key
    ensures Hood(cfg, b[p := Assigned(b[p], e)], n)
  {
    hide Home, HasOverflow, IsEmpty, Neighbor, Assigned;
    var b' := b[p := Assigned(b[p], e)];
    assert forall j :: 0 <= j < |b| ==> HomeOf(cfg, n, b'[j].slot) == HomeOf(cfg, n, b[j].slot);
    assert forall j :: 0 <= j < |b| ==> SameNeighbors(b[j], b'[j]);
  }

  // ---------- the overflow list ----------

  // Changing the overflow flag of one bucket leaves the neighbourhood invariant alone.
  lemma FlaggedHood<K, V>(cfg: Config<K>, b: seq<Bucket<K, V>>, n: nat, h: nat, flag: bool)
    requires Hood(cfg, b, n) && h < |b|
    ensures Hood(cfg, b[h := SetOverflow(b[h], flag)], n)
  {
    hide Home, HasOverflow, IsEmpty, Neighbor, SetOverflow;
    var b' := b[h := SetOverflow(b[h], flag)];
    assert forall j :: 0 <= j < |b| ==> b'[j].slot == b[j].slot && SameNeighbors(b[j], b'[j]);
  }

  // insert_in_overflow.
  lemma OverflowSound<K, V>(cfg: Config<K>, b: seq<Bucket<K, V>>, n: nat, ovf: seq<Entry<K, V>>, m: map<K, V>,
                            e: Entry<K, V>)
    requires Sound(cfg, b, n, ovf, m) && n > 0 && e.key !in m
    ensures var h := Home(cfg, e.key, n);
            h < |b| && Sound(cfg, b[h := SetOverflow(b[h], true)], n, ovf + [e], m[e.key := e.val])
  {
    hide Home, HasOverflow, Holds, Cells, SetOverflow;
    HoodFacts(cfg, b, n);
    var h := Home(cfg, e.key, n);
    var b' := b[h := SetOverflow(b[h], true)];
    FlaggedHood(cfg, b, n, h, true);
    hide Hood;
    forall j: nat | j < |b'| ensures HasOverflow(b'[j]) <==> Spills(cfg, ovf + [e], n, j) {
      SpillsAppend(cfg, ovf, e, n, j);
    }
    CellsAppend(b, b', ovf, e);
    InsertHolds(Cells(b, ovf), m, |ovf|, e);
  }

  lemma SpillsAppend<K, V>(cfg: Config<K>, ovf: seq<Entry<K, V>>, e: Entry<K, V>, n: nat, h: nat)
    requires n > 0
    ensures Spills(cfg, ovf + [e], n, h) <==> Spills(cfg, ovf, n, h) || Home(cfg, e.key, n) == h
  {
    var t := ovf + [e];
    assert t[|ovf|] == e;
    if Spills(cfg, ovf, n, h) {
      var p :| 0 <= p < |ovf| && Home(cfg, ovf[p].key, n) == h;
      assert t[p] == ovf[p];
    }
    if Spills(cfg, t, n, h) {
      var p :| 0 <= p < |t| && Home(cfg, t[p].key, n) == h;
      assert p < |ovf| ==> t[p] == ovf[p];
    }
  }

  lemma SpillsDrop<K, V>(cfg: Config<K>, ovf: seq<Entry<K, V>>, p: nat, n: nat, h: nat)
    requires n > 0 && p < |ovf| && h != Home(cfg, ovf[p].key, n)
    ensures Spills(cfg, ovf[..p] + ovf[p + 1..], n, h) <==> Spills(cfg, ovf, n, h)
  {
    var t := ovf[..p] + ovf[p + 1..];
    if Spills(cfg, ovf, n, h) {
      var q :| 0 <= q < |ovf| && Home(cfg, ovf[q].key, n) == h;
      assert q != p && t[if q < p then q else q - 1] == ovf[q];
    }
    if Spills(cfg, t, n, h) {
      var q :| 0 <= q < |t| && Home(cfg, t[q].key, n) == h;
      assert t[q] == ovf[if q < p then q else q + 1];
    }
  }

  // Whether some element of the list belongs to bucket h: the loop of erase_from_overflow.
  method AnySpill<K, V>(cfg: Config<K>, ovf: seq<Entry<K, V>>, n: nat, h: nat) returns (r: bool)
    requires IsPow2(n)
    ensures r <==> Spills(cfg, ovf, n, h)
  {
    for i := 0 to |ovf|
      invariant forall j :: 0 <= j < i ==> Home(cfg, ovf[j].key, n) != h
    {
      if BucketForHash(cfg.hash(ovf[i].key), n - 1) == h {
        return true;
      }
    }
    r := false;
  }

  /**
    erase_from_overflow: the element leaves the list, and the flag of its home is cleared when no
    other element of the list belongs there.
   */
  method EraseFromOverflow<K, V>(cfg: Config<K>, b: seq<Bucket<K, V>>, n: nat, ovf: seq<Entry<K, V>>, p: nat, h: nat,
                                 ghost m: map<K, V>)
    returns (b': seq<Bucket<K, V>>, ovf': seq<Entry<K, V>>)
    requires Sound(cfg, b, n, ovf, m) && n > 0 && p < |ovf| && h == Home(cfg, ovf[p].key, n)
    ensures ovf' == ovf[..p] + ovf[p + 1..]
    ensures ovf[p].key in m && Sound(cfg, b', n, ovf', m - {ovf[p].key})
  {
    hide Sound, Hood, Home, HasOverflow, Holds, Cells, SetOverflow, Spills;
    SoundFacts(cfg, b, n, ovf, m);
    ovf' := ovf[..p] + ovf[p + 1..];
    var others := AnySpill(cfg, ovf', n, h);
    b' := b;
    if !others {
      b' := b[h := SetOverflow(b[h], false)];
    }
    DropSound(cfg, b, n, ovf, m, p, b');
  }

  lemma DropSound<K, V>(cfg: Config<K>, b: seq<Bucket<K, V>>, n: nat, ovf: seq<Entry<K, V>>, m: map<K, V>, p: nat,
                        b': seq<Bucket<K, V>>)
    requires Sound(cfg, b, n, ovf, m) && n > 0 && p < |ovf|
    requires var h := Home(cfg, ovf[p].key, n);
             h < |b| && b' == if Spills(cfg, ovf[..p] + ovf[p + 1..], n, h) then b else b[h := SetOverflow(b[h], false)]
    ensures ovf[p].key in m && Sound(cfg, b', n, ovf[..p] + ovf[p + 1..], m - {ovf[p].key})
  {
    hide Home, HasOverflow, Holds, Cells, SetOverflow;
    var h := Home(cfg, ovf[p].key, n);
    var t := ovf[..p] + ovf[p + 1..];
    FlaggedHood(cfg, b, n, h, false);
    hide Hood;
    assert Spills(cfg, ovf, n, h);
    hide Spills;
    forall j: nat | j < |b'| ensures HasOverflow(b'[j]) <==> Spills(cfg, t, n, j) {
      if j != h { SpillsDrop(cfg, ovf, p, n, j); }
    }
    CellsDrop(b, b', ovf, p);
    RemoveHolds(Cells(b, ovf), m, p);
  }

  lemma AssignedListSound<K, V>(cfg: Config<K>, b: seq<Bucket<K, V>>, n: nat, ovf: seq<Entry<K, V>>, m: map<K, V>,
                                p: nat, v: V)
    requires Sound(cfg, b, n, ovf, m) && n > 0 && p < |ovf|
    ensures Sound(cfg, b, n, ovf[p := Entry(ovf[p].key, v)], m[ovf[p].key := v])
  {
    hide Hood, Home, HasOverflow, Holds, Spills, Cells;
    var t := ovf[p := Entry(ovf[p].key, v)];
    forall j: nat ensures Spills(cfg, t, n, j) <==> Spills(cfg, ovf, n, j) {
      SameKeysSpill(cfg, ovf, t, n, j);
    }
    MapCells.AssignHolds(Cells(b, ovf), m, p, v);
    CellsAssign(b, ovf, p, Entry(ovf[p].key, v));
  }

  lemma SameKeysSpill<K, V>(cfg: Config<K>, ovf: seq<Entry<K, V>>, t: seq<Entry<K, V>>, n: nat, h: nat)
    requires n > 0 && |t| == |ovf| && forall i :: 0 <= i < |t| ==> t[i].key == ovf[i].key
    ensures Spills(cfg, t, n, h) <==> Spills(cfg, ovf, n, h)
  {
    hide Home;
    if Spills(cfg, t, n, h) { var p :| 0 <= p < |t| && Home(cfg, t[p].key, n) == h; assert ovf[p].key == t[p].key; }
    if Spills(cfg, ovf, n, h) { var p :| 0 <= p < |t| && Home(cfg, ovf[p].key, n) == h; assert t[p].key == ovf[p].key; }
  }

  lemma CellsAssign<K, V>(b: seq<Bucket<K, V>>, ovf: seq<Entry<K, V>>, p: nat, e: Entry<K, V>)
    requires p < |ovf|
    ensures Cells(b, ovf[p := e]) == Cells(b, ovf)[p := Full(e)]
  {
    assert Over(ovf[p := e]) == Over(ovf)[p := Full(e)];
    var o := Over(ovf);
    assert o[p := Full(e)] + Slots(b) == (o + Slots(b))[p := Full(e)];
  }

  // ---------- an empty table, and one that starts from an overflow list ----------

  lemma BlankHood<K, V>(cfg: Config<K>, b: seq<Bucket<K, V>>, n: nat)
    requires ConfigOk(cfg) && IsPow2(n) && |b| == n + cfg.hood - 1
    requires forall i :: 0 <= i < |b| ==> b[i] == ClearBucket()
    ensures Hood(cfg, b, n) && forall i :: 0 <= i < |b| ==> !HasOverflow(b[i])
  {
    hide Home, HasOverflow, IsEmpty, Neighbor, ClearBucket;
  }

  lemma BlankSound<K, V>(cfg: Config<K>, b: seq<Bucket<K, V>>, n: nat)
    requires ConfigOk(cfg) && (n > 0 ==> IsPow2(n)) && |b| == (if n == 0 then 0 else n + cfg.hood - 1)
    requires forall i :: 0 <= i < |b| ==> b[i] == ClearBucket()
    ensures Sound(cfg, b, n, [], map[])
  {
    hide HasOverflow;
    if n > 0 {
      BlankHood(cfg, b, n);
      EmptyHoldsNothing<K, V>();
      PadHolds<K, V>([], map[], |b|);
      assert Cells(b, []) == [] + seq(|b|, _ => Vacant);
    }
  }

  lemma EmptyHoldsNothing<K, V>()
    ensures Holds<K, V>([], map[])
  {}

  /**
    The start of rehash_impl: the new buckets are empty but for the overflow flags of the list that
    was moved in.
   */
  method MarkOverflow<K, V>(cfg: Config<K>, b: seq<Bucket<K, V>>, n: nat, ovf: seq<Entry<K, V>>, ghost m: map<K, V>)
    returns (b': seq<Bucket<K, V>>)
    requires ConfigOk(cfg) && IsPow2(n) && |b| == n + cfg.hood - 1
    requires forall i :: 0 <= i < |b| ==> b[i] == ClearBucket()
    requires Holds(Over(ovf), m)
    ensures |b'| == |b| && Sound(cfg, b', n, ovf, m)
  {
    hide Hood, Home, HasOverflow, Holds, SetOverflow, ClearBucket, Spills, Cells;
    BlankHood(cfg, b, n);
    b' := b;
    forall h: nat ensures !Spills(cfg, ovf[..0], n, h) { NoSpill(cfg, ovf[..0], n, h); }
    for i := 0 to |ovf|
      invariant |b'| == |b| && Hood(cfg, b', n) && Flags(cfg, b', n, ovf[..i])
      invariant forall j :: 0 <= j < |b| ==> b'[j].slot.Vacant?
    {
      var h := BucketForHash(cfg.hash(ovf[i].key), n - 1);
      HomeIs(cfg, ovf[i].key, n, h);
      FlaggedHood(cfg, b', n, h, true);
      FlagsNext(cfg, b', n, ovf, i, h);
      b' := b'[h := SetOverflow(b'[h], true)];
    }
    assert ovf[..|ovf|] == ovf;
    CellsOfBlank(b', ovf);
    PadHolds(Over(ovf), m, |b'|);
    SoundIs(cfg, b', n, ovf, m);
  }

  lemma NoSpill<K, V>(cfg: Config<K>, ovf: seq<Entry<K, V>>, n: nat, h: nat)
    requires n > 0 && ovf == []
    ensures !Spills(cfg, ovf, n, h)
  {}

  lemma HomeIs<K>(cfg: Config<K>, k: K, n: nat, h: nat)
    requires n > 0 && h == cfg.hash(k) % n
    ensures h == Home(cfg, k, n)
  {}

  lemma FlagsNext<K, V>(cfg: Config<K>, b: seq<Bucket<K, V>>, n: nat, ovf: seq<Entry<K, V>>, i: nat, h: nat)
    requires n > 0 && i < |ovf| && Flags(cfg, b, n, ovf[..i]) && h < |b| && h == Home(cfg, ovf[i].key, n)
    ensures Flags(cfg, b[h := SetOverflow(b[h], true)], n, ovf[..i + 1])
  {
    hide Home, HasOverflow, Spills, SetOverflow;
    assert ovf[..i + 1] == ovf[..i] + [ovf[i]];
    var b' := b[h := SetOverflow(b[h], true)];
    forall j: nat | j < |b'| ensures HasOverflow(b'[j]) <==> Spills(cfg, ovf[..i + 1], n, j) {
      SpillsAppend(cfg, ovf[..i], ovf[i], n, j);
    }
  }

  lemma CellsOfBlank<K, V>(b: seq<Bucket<K, V>>, ovf: seq<Entry<K, V>>)
    requires forall j :: 0 <= j < |b| ==> b[j].slot.Vacant?
    ensures Cells(b, ovf) == Over(ovf) + seq(|b|, _ => Vacant)
  {
    assert Slots(b) == seq(|b|, _ => Vacant);
  }

  lemma SoundIs<K, V>(cfg: Config<K>, b: seq<Bucket<K, V>>, n: nat, ovf: seq<Entry<K, V>>, m: map<K, V>)
    requires n > 0 && Hood(cfg, b, n) && Flags(cfg, b, n, ovf) && Holds(Cells(b, ovf), m)
    ensures Sound(cfg, b, n, ovf, m)
  {
    hide Hood, Holds, Cells, Flags;
  }

  // ---------- the contents, in the order rehash_impl moves them ----------

  lemma OverflowPart<K, V>(cfg: Config<K>, b: seq<Bucket<K, V>>, n: nat, ovf: seq<Entry<K, V>>, m: map<K, V>)
    returns (m': map<K, V>)
    requires Sound(cfg, b, n, ovf, m) && n > 0
    ensures Holds(Over(ovf), m') && Holds(Cells(b, ovf)[..|ovf|], m') && |m'| == |ovf| <= |m| && m'.Keys <= m.Keys
  {
    hide Sound, Hood, Holds, Count, Occupied, Cells, Over;
    SizeIsSum(cfg, b, n, ovf, m);
    SoundFacts(cfg, b, n, ovf, m);
    OverPrefix(b, ovf);
    m' := PrefixHolds(Cells(b, ovf), m, |ovf|);
    OverCount(ovf, m');
  }

  lemma OverPrefix<K, V>(b: seq<Bucket<K, V>>, ovf: seq<Entry<K, V>>)
    ensures Cells(b, ovf)[..|ovf|] == Over(ovf)
  {}

  lemma OverCount<K, V>(ovf: seq<Entry<K, V>>, m: map<K, V>)
    requires Holds(Over(ovf), m)
    ensures |m| == |ovf|
  {
    hide Holds, Count;
    HoldsCount(Over(ovf), m);
    CountFull(Over(ovf));
  }
}
