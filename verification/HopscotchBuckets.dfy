/**
  The bucket array of the hopscotch table: the packed word of each bucket, the neighbourhood
  invariant that ties the words to the stored values, and what one step does to it.
 */
module HopscotchBuckets {
  import opened Bits
  import opened GrowthPolicy
  import opened MapCells

  /**
    The template parameters: the hash functor and NeighborhoodSize.
   */
  datatype Config<!K> = Config(hash: K -> nat, hood: nat)

  ghost predicate ConfigOk<K>(cfg: Config<K>) {
    4 <= cfg.hood <= 62
  }

  // The packed word m_neighborhood_infos, and the storage for one value.
  datatype Bucket<K, V> = Bucket(infos: nat, slot: Cell<K, V>)

  // ---------- the packed word ----------

  // (m_neighborhood_infos & 1) == 0
  predicate IsEmpty<K, V>(b: Bucket<K, V>) {
    !Bit(b.infos, 0)
  }

  // (m_neighborhood_infos & 2) != 0
  predicate HasOverflow<K, V>(b: Bucket<K, V>) {
    Bit(b.infos, 1)
  }

  // check_neighbor_presence
  predicate Neighbor<K, V>(b: Bucket<K, V>, i: nat) {
    Bit(b.infos, i + 2)
  }

  ghost predicate SameNeighbors<K, V>(b: Bucket<K, V>, b': Bucket<K, V>) {
    forall i: nat :: Neighbor(b', i) == Neighbor(b, i)
  }

  ghost predicate OneFlipped<K, V>(b: Bucket<K, V>, b': Bucket<K, V>, i: nat) {
    forall j: nat :: Neighbor(b', j) == (if j == i then !Neighbor(b, j) else Neighbor(b, j))
  }

  function ClearBucket<K, V>(): (r: Bucket<K, V>)
    ensures IsEmpty(r) && !HasOverflow(r) && r.slot.Vacant?
    ensures forall i: nat :: !Neighbor(r, i)
  {
    assert forall i: nat :: !Bit(0, i) by { forall i: nat ensures !Bit(0, i) { ZeroBits(i); } }
    Bucket(0, Vacant)
  }

  // neighborhood_infos(): the neighbour bits alone.
  function NeighborhoodInfos<K, V>(b: Bucket<K, V>): (w: nat)
    ensures forall i: nat :: Bit(w, i) == Neighbor(b, i)
  {
    assert forall i: nat :: Bit(Shr(b.infos, 2), i) == Bit(b.infos, i + 2) by {
      forall i: nat ensures Bit(Shr(b.infos, 2), i) == Bit(b.infos, i + 2) { ShrBit(b.infos, 2, i); }
    }
    Shr(b.infos, 2)
  }

  function SetOverflow<K, V>(b: Bucket<K, V>, flag: bool): (r: Bucket<K, V>)
    ensures r.slot == b.slot && IsEmpty(r) == IsEmpty(b) && HasOverflow(r) == flag && SameNeighbors(b, r)
  {
    b.(infos := if flag then SetBit(b.infos, 1) else UnsetBit(b.infos, 1))
  }

  // toggle_neighbor_presence
  function Toggle<K, V>(b: Bucket<K, V>, i: nat): (r: Bucket<K, V>)
    ensures r.slot == b.slot && IsEmpty(r) == IsEmpty(b) && HasOverflow(r) == HasOverflow(b) && OneFlipped(b, r, i)
  {
    b.(infos := FlipBit(b.infos, i + 2))
  }

  // set_value_of_empty_bucket
  function SetValue<K, V>(b: Bucket<K, V>, e: Entry<K, V>): (r: Bucket<K, V>)
    ensures r.slot == Full(e) && !IsEmpty(r) && HasOverflow(r) == HasOverflow(b) && SameNeighbors(b, r)
  {
    Bucket(SetBit(b.infos, 0), Full(e))
  }

  function RemoveValue<K, V>(b: Bucket<K, V>): (r: Bucket<K, V>)
    ensures r.slot == Vacant && IsEmpty(r) && HasOverflow(r) == HasOverflow(b) && SameNeighbors(b, r)
  {
    Bucket(UnsetBit(b.infos, 0), Vacant)
  }

  // Assigning through a reference to the stored value.
  function Assigned<K, V>(b: Bucket<K, V>, e: Entry<K, V>): (r: Bucket<K, V>)
    ensures r.slot == Full(e) && IsEmpty(r) == IsEmpty(b) && HasOverflow(r) == HasOverflow(b) && SameNeighbors(b, r)
  {
    b.(slot := Full(e))
  }

  // ---------- the neighbourhood invariant ----------

  function Home<K>(cfg: Config<K>, k: K, n: nat): (h: nat)
    requires n > 0
    ensures h < n
  {
    cfg.hash(k) % n
  }

  // The home bucket of what a cell stores, -1 when it stores nothing.
  function HomeOf<K, V>(cfg: Config<K>, n: nat, c: Cell<K, V>): int
    requires n > 0
  {
    match c case Vacant => -1 case Full(e) => Home(cfg, e.key, n)
  }

  // The first bit of each word says whether the bucket stores a value.
  ghost predicate Tagged<K, V>(b: seq<Bucket<K, V>>) {
    forall j :: 0 <= j < |b| ==> (IsEmpty(b[j]) <==> b[j].slot.Vacant?)
  }

  // Every value lies in the neighbourhood of its home bucket.
  ghost predicate Near<K, V>(cfg: Config<K>, b: seq<Bucket<K, V>>, n: nat)
    requires n > 0
  {
    forall j :: 0 <= j < |b| && b[j].slot.Full? ==>
      HomeOf(cfg, n, b[j].slot) <= j < HomeOf(cfg, n, b[j].slot) + cfg.hood
  }

  // Neighbour bit i of bucket h is set exactly when bucket h + i stores a value of home h.
  ghost predicate Marked<K, V>(cfg: Config<K>, b: seq<Bucket<K, V>>, n: nat)
    requires n > 0
  {
    forall h, i: nat :: 0 <= h < |b| ==>
      (Neighbor(b[h], i) <==> i < cfg.hood && h + i < |b| && HomeOf(cfg, n, b[h + i].slot) == h)
  }

  ghost predicate Hood<K, V>(cfg: Config<K>, b: seq<Bucket<K, V>>, n: nat) {
    && ConfigOk(cfg)
    && n > 0 && IsPow2(n)
    && |b| == n + cfg.hood - 1
    && Tagged(b) && Near(cfg, b, n) && Marked(cfg, b, n)
  }

  // b' is b with the cell of bucket p replaced by c and neighbour p - h of bucket h toggled.
  ghost predicate Edited<K, V>(b: seq<Bucket<K, V>>, b': seq<Bucket<K, V>>, p: nat, h: nat, c: Cell<K, V>) {
    && |b'| == |b| && h <= p < |b|
    && Tagged(b') && b'[p].slot == c
    && (forall j :: 0 <= j < |b| && j != p ==> b'[j].slot == b[j].slot)
    && (forall j :: 0 <= j < |b| && j != h ==> SameNeighbors(b[j], b'[j]))
    && OneFlipped(b[h], b'[h], p - h)
    && SameFlags(b, b')
  }

  ghost predicate SameFlags<K, V>(b: seq<Bucket<K, V>>, b': seq<Bucket<K, V>>) {
    |b'| == |b| && forall j :: 0 <= j < |b| ==> HasOverflow(b'[j]) == HasOverflow(b[j])
  }

  // Storing a value of home h in an empty bucket, or removing one, with its bit toggled.
  lemma EditHood<K, V>(cfg: Config<K>, b: seq<Bucket<K, V>>, n: nat, b': seq<Bucket<K, V>>, p: nat, h: nat,
                       c: Cell<K, V>)
    requires Hood(cfg, b, n) && Edited(b, b', p, h, c) && h <= p < h + cfg.hood
    requires b[p].slot.Vacant? != c.Vacant?
    requires HomeOf(cfg, n, if c.Vacant? then b[p].slot else c) == h
    ensures Hood(cfg, b', n)
  {
    hide Neighbor, HasOverflow, IsEmpty, Tagged, Home;
    forall j, i: nat | 0 <= j < |b'|
      ensures Neighbor(b'[j], i) <==> i < cfg.hood && j + i < |b'| && HomeOf(cfg, n, b'[j + i].slot) == j
    {
      assert Neighbor(b[j], i) <==> i < cfg.hood && j + i < |b| && HomeOf(cfg, n, b[j + i].slot) == j;
      if j == h {
        assert OneFlipped(b[h], b'[h], p - h);
      } else {
        assert SameNeighbors(b[j], b'[j]);
        if j + i == p { assert HomeOf(cfg, n, b[p].slot) != j && HomeOf(cfg, n, c) != j; }
      }
    }
  }

  // ---------- the steps of the code ----------

  // insert_in_bucket on the buckets.
  function Stored<K, V>(b: seq<Bucket<K, V>>, p: nat, h: nat, e: Entry<K, V>): seq<Bucket<K, V>>
    requires h <= p < |b|
  {
    var b1 := b[p := SetValue(b[p], e)];
    b1[h := Toggle(b1[h], p - h)]
  }

  // erase_from_bucket on the buckets.
  function Erased<K, V>(b: seq<Bucket<K, V>>, p: nat, h: nat): seq<Bucket<K, V>>
    requires h <= p < |b|
  {
    var b1 := b[p := RemoveValue(b[p])];
    b1[h := Toggle(b1[h], p - h)]
  }

  // swap_value_into_empty_bucket and the two toggles: the value of bucket p, of home h, goes to e.
  function Swapped<K, V>(b: seq<Bucket<K, V>>, p: nat, h: nat, e: nat): seq<Bucket<K, V>>
    requires h <= p < e < |b| && b[p].slot.Full?
  {
    var b1 := b[e := SetValue(b[e], b[p].slot.entry)];
    var b2 := b1[p := RemoveValue(b1[p])];
    var b3 := b2[h := Toggle(b2[h], e - h)];
    b3[h := Toggle(b3[h], p - h)]
  }

  lemma StoredEdits<K, V>(b: seq<Bucket<K, V>>, p: nat, h: nat, e: Entry<K, V>)
    requires Tagged(b) && h <= p < |b|
    ensures Edited(b, Stored(b, p, h, e), p, h, Full(e))
  {
    hide Neighbor, HasOverflow, IsEmpty, SetValue, Toggle;
  }

  lemma ErasedEdits<K, V>(b: seq<Bucket<K, V>>, p: nat, h: nat)
    requires Tagged(b) && h <= p < |b|
    ensures Edited(b, Erased(b, p, h), p, h, Vacant)
  {
    hide Neighbor, HasOverflow, IsEmpty, RemoveValue, Toggle;
  }

  lemma SwappedEdits<K, V>(b: seq<Bucket<K, V>>, p: nat, h: nat, e: nat)
    requires Tagged(b) && h <= p < e < |b| && b[p].slot.Full?
    ensures Edited(Erased(b, p, h), Swapped(b, p, h, e), e, h, b[p].slot)
  {
    hide Neighbor, HasOverflow, IsEmpty, RemoveValue, SetValue, Toggle;
  }

  // The value is at its place, in the neighbourhood of its home, and marked there.
  lemma StoredHood<K, V>(cfg: Config<K>, b: seq<Bucket<K, V>>, n: nat, p: nat, e: Entry<K, V>)
    requires Hood(cfg, b, n) && p < |b| && b[p].slot.Vacant?
    requires Home(cfg, e.key, n) <= p < Home(cfg, e.key, n) + cfg.hood
    ensures Hood(cfg, Stored(b, p, Home(cfg, e.key, n), e), n)
  {
    var h := Home(cfg, e.key, n);
    StoredEdits(b, p, h, e);
    hide Hood, Edited, Stored;
    EditHood(cfg, b, n, Stored(b, p, h, e), p, h, Full(e));
  }

  lemma ErasedHood<K, V>(cfg: Config<K>, b: seq<Bucket<K, V>>, n: nat, p: nat)
    requires Hood(cfg, b, n) && p < |b| && b[p].slot.Full?
    ensures Home(cfg, b[p].slot.entry.key, n) <= p && Hood(cfg, Erased(b, p, Home(cfg, b[p].slot.entry.key, n)), n)
  {
    var h := Home(cfg, b[p].slot.entry.key, n);
    assert h == HomeOf(cfg, n, b[p].slot);
    ErasedEdits(b, p, h);
    hide Edited, Erased;
    EditHood(cfg, b, n, Erased(b, p, h), p, h, Vacant);
  }

  lemma SwappedHood<K, V>(cfg: Config<K>, b: seq<Bucket<K, V>>, n: nat, p: nat, e: nat)
    requires Hood(cfg, b, n) && p < e < |b| && b[p].slot.Full? && b[e].slot.Vacant?
    requires e < Home(cfg, b[p].slot.entry.key, n) + cfg.hood
    ensures var h := Home(cfg, b[p].slot.entry.key, n);
            h <= p && Hood(cfg, Swapped(b, p, h, e), n) && SameFlags(b, Swapped(b, p, h, e))
  {
    var h := Home(cfg, b[p].slot.entry.key, n);
    ErasedHood(cfg, b, n, p);
    ErasedEdits(b, p, h);
    SwappedEdits(b, p, h, e);
    var b1, b2 := Erased(b, p, h), Swapped(b, p, h, e);
    hide Hood, Erased, Swapped;
    EditHood(cfg, b1, n, b2, e, h, b[p].slot);
  }

  // ---------- the cells ----------

  ghost function Slots<K, V>(b: seq<Bucket<K, V>>): (s: seq<Cell<K, V>>)
    ensures |s| == |b| && forall i :: 0 <= i < |b| ==> s[i] == b[i].slot
  {
    seq(|b|, i requires 0 <= i < |b| => b[i].slot)
  }

  ghost function Over<K, V>(ovf: seq<Entry<K, V>>): (s: seq<Cell<K, V>>)
    ensures |s| == |ovf| && forall i :: 0 <= i < |ovf| ==> s[i] == Full(ovf[i])
  {
    seq(|ovf|, i requires 0 <= i < |ovf| => Full(ovf[i]))
  }

  // All the storage of a table: the overflow list, then the buckets.
  ghost function Cells<K, V>(b: seq<Bucket<K, V>>, ovf: seq<Entry<K, V>>): (s: seq<Cell<K, V>>)
    ensures |s| == |ovf| + |b|
    ensures forall i :: 0 <= i < |ovf| ==> s[i] == Full(ovf[i])
    ensures forall i :: 0 <= i < |b| ==> s[|ovf| + i] == b[i].slot
  {
    Over(ovf) + Slots(b)
  }

  lemma CellsEdit<K, V>(b: seq<Bucket<K, V>>, b': seq<Bucket<K, V>>, ovf: seq<Entry<K, V>>, p: nat, c: Cell<K, V>)
    requires |b'| == |b| && p < |b| && b'[p].slot == c
    requires forall j :: 0 <= j < |b| && j != p ==> b'[j].slot == b[j].slot
    ensures Cells(b', ovf) == Cells(b, ovf)[|ovf| + p := c]
  {
    SlotsEdit(b, b', p, c);
    ConcatUpdate(Over(ovf), Slots(b), p, c);
  }

  lemma SlotsEdit<K, V>(b: seq<Bucket<K, V>>, b': seq<Bucket<K, V>>, p: nat, c: Cell<K, V>)
    requires |b'| == |b| && p < |b| && b'[p].slot == c
    requires forall j :: 0 <= j < |b| && j != p ==> b'[j].slot == b[j].slot
    ensures Slots(b') == Slots(b)[p := c]
  {}

  lemma ConcatUpdate<T>(o: seq<T>, s: seq<T>, p: nat, c: T)
    requires p < |s|
    ensures o + s[p := c] == (o + s)[|o| + p := c]
  {}

  lemma CellsAppend<K, V>(b: seq<Bucket<K, V>>, b': seq<Bucket<K, V>>, ovf: seq<Entry<K, V>>, e: Entry<K, V>)
    requires |b'| == |b| && forall j :: 0 <= j < |b| ==> b'[j].slot == b[j].slot
    ensures Cells(b', ovf + [e]) == Inserted(Cells(b, ovf), |ovf|, Full(e))
  {}

  lemma CellsDrop<K, V>(b: seq<Bucket<K, V>>, b': seq<Bucket<K, V>>, ovf: seq<Entry<K, V>>, p: nat)
    requires |b'| == |b| && forall j :: 0 <= j < |b| ==> b'[j].slot == b[j].slot
    requires p < |ovf|
    ensures Cells(b', ovf[..p] + ovf[p + 1..]) == Removed(Cells(b, ovf), p)
  {
    assert Slots(b') == Slots(b);
    OverDrop(ovf, p);
    var o := Over(ovf);
    assert Removed(o, p) + Slots(b) == Removed(o + Slots(b), p);
  }

  lemma OverDrop<K, V>(ovf: seq<Entry<K, V>>, p: nat)
    requires p < |ovf|
    ensures Over(ovf[..p] + ovf[p + 1..]) == Removed(Over(ovf), p)
  {
    var t := ovf[..p] + ovf[p + 1..];
    var o, r := Over(t), Removed(Over(ovf), p);
    forall i | 0 <= i < |t| ensures o[i] == r[i] { assert t[i] == ovf[if i < p then i else i + 1]; }
  }
}
