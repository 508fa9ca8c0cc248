/**
  The loops of the hopscotch table on its buckets and on its overflow list.
 */
module HopscotchLoops {
  import opened Bits
  import opened GrowthPolicy
  import opened MapCells
  import opened HopscotchBuckets

  ghost predicate InBuckets<K, V>(b: seq<Bucket<K, V>>, k: K) {
    exists p :: 0 <= p < |b| && b[p].slot.Full? && b[p].slot.entry.key == k
  }

  // Bits h.. of the word that are still to be scanned.
  ghost predicate Scanning<K, V>(x: Bucket<K, V>, w: nat, from: nat) {
    forall i: nat :: Bit(w, i) == Neighbor(x, from + i)
  }

  lemma ScanNext<K, V>(x: Bucket<K, V>, w: nat, from: nat)
    requires Scanning(x, w, from)
    ensures w % 2 == 1 <==> Neighbor(x, from)
    ensures Scanning(x, w / 2, from + 1)
  {
    assert Bit(w, 0) == Neighbor(x, from + 0);
    forall i: nat ensures Bit(w / 2, i) == Neighbor(x, from + 1 + i) {
      assert Bit(w, i + 1) == Neighbor(x, from + (i + 1));
    }
  }

  lemma ScanOver<K, V>(x: Bucket<K, V>, from: nat)
    requires Scanning(x, 0, from)
    ensures forall i: nat :: i >= from ==> !Neighbor(x, i)
  {
    forall i: nat | i >= from ensures !Neighbor(x, i) {
      ZeroBits(i - from);
      assert Bit(0, i - from) == Neighbor(x, from + (i - from));
    }
  }

  // What a neighbour bit says.
  lemma MarkedAt<K, V>(cfg: Config<K>, b: seq<Bucket<K, V>>, n: nat, h: nat, i: nat)
    requires Hood(cfg, b, n) && h < |b|
    ensures Neighbor(b[h], i) <==> i < cfg.hood && h + i < |b| && HomeOf(cfg, n, b[h + i].slot) == h
  {}

  lemma NearHome<K, V>(cfg: Config<K>, b: seq<Bucket<K, V>>, n: nat, p: nat)
    requires Hood(cfg, b, n) && p < |b| && b[p].slot.Full?
    ensures var h := Home(cfg, b[p].slot.entry.key, n);
            h == HomeOf(cfg, n, b[p].slot) && h <= p < h + cfg.hood && h < |b| && Neighbor(b[h], p - h)
  {
    var h := Home(cfg, b[p].slot.entry.key, n);
    assert HomeOf(cfg, n, b[p].slot) == h;
    MarkedAt(cfg, b, n, h, p - h);
  }

  lemma HoodFacts<K, V>(cfg: Config<K>, b: seq<Bucket<K, V>>, n: nat)
    requires Hood(cfg, b, n)
    ensures n > 0 && |b| == n + cfg.hood - 1 && 4 <= cfg.hood <= 62 && IsPow2(n)
    ensures forall j :: 0 <= j < |b| ==> (IsEmpty(b[j]) <==> b[j].slot.Vacant?)
  {}

  /**
    find_in_buckets: the scan of the home bucket's bitmap finds the key exactly when some bucket
    stores it, and reads stored values only.
   */
  method FindInBuckets<K(==), V>(cfg: Config<K>, b: seq<Bucket<K, V>>, n: nat, key: K) returns (found: bool, p: nat)
    requires Hood(cfg, b, n)
    ensures found <==> InBuckets(b, key)
    ensures found ==> p < |b| && b[p].slot.Full? && b[p].slot.entry.key == key && Home(cfg, key, n) <= p
  {
    hide Hood, Scanning, Neighbor, Home;
    HoodFacts(cfg, b, n);
    var h := Home(cfg, key, n);
    var w := NeighborhoodInfos(b[h]);
    assert Scanning(b[h], w, 0) by { ScanStart(b[h]); }
    p := h;
    while w != 0
      invariant h <= p && Scanning(b[h], w, p - h)
      invariant forall j :: h <= j < p && j < |b| && Neighbor(b[h], j - h) ==>
                  b[j].slot.Full? && b[j].slot.entry.key != key
      decreases w
    {
      ScanNext(b[h], w, p - h);
      MarkedAt(cfg, b, n, h, p - h);
      if w % 2 == 1 {
        if b[p].slot.entry.key == key {
          return true, p;
        }
      }
      p, w := p + 1, w / 2;
    }
    ScanOver(b[h], p - h);
    forall j | 0 <= j < |b| && b[j].slot.Full? ensures b[j].slot.entry.key != key {
      NearHome(cfg, b, n, j);
    }
    found := false;
  }

  lemma ScanStart<K, V>(x: Bucket<K, V>)
    ensures Scanning(x, NeighborhoodInfos(x), 0)
  {}

  ghost predicate InList<K, V>(ovf: seq<Entry<K, V>>, k: K) {
    exists p :: 0 <= p < |ovf| && ovf[p].key == k
  }

  /**
    find_in_overflow (std::find_if): the first element with the key, or the end.
   */
  method FindInOverflow<K(==), V>(ovf: seq<Entry<K, V>>, key: K) returns (p: nat)
    ensures p <= |ovf| && (p < |ovf| <==> InList(ovf, key))
    ensures p < |ovf| ==> ovf[p].key == key
    ensures forall j :: 0 <= j < p ==> ovf[j].key != key
  {
    p := 0;
    while p < |ovf| && ovf[p].key != key
      invariant p <= |ovf| && forall j :: 0 <= j < p ==> ovf[j].key != key
    {
      p := p + 1;
    }
  }

  // The buckets from i up to j all store a value.
  ghost predicate AllFull<K, V>(b: seq<Bucket<K, V>>, i: nat, j: nat) {
    j <= |b| && forall x :: i <= x < j ==> b[x].slot.Full?
  }

  /**
    find_empty_bucket: the first empty bucket within 12 neighbourhoods, or the size of the array.
   */
  method FindEmptyBucket<K, V>(cfg: Config<K>, b: seq<Bucket<K, V>>, ghost n: nat, start: nat) returns (r: nat)
    requires Hood(cfg, b, n) && start < n
    ensures start <= r <= |b|
    ensures r < |b| ==> b[r].slot.Vacant? && AllFull(b, start, r) && r < start + 12 * cfg.hood
    ensures r == |b| ==> AllFull(b, start, if start + 12 * cfg.hood < |b| then start + 12 * cfg.hood else |b|)
  {
    hide Hood, IsEmpty;
    HoodFacts(cfg, b, n);
    var limit := if start + 12 * cfg.hood < |b| then start + 12 * cfg.hood else |b|;
    r := start;
    while r < limit
      invariant start <= r <= limit && AllFull(b, start, r)
    {
      if IsEmpty(b[r]) {
        return;
      }
      r := r + 1;
    }
    r := |b|;
  }

  // The value of bucket p may move to the empty bucket e: e is in the neighbourhood of its home.
  ghost predicate MayMove<K, V>(cfg: Config<K>, b: seq<Bucket<K, V>>, n: nat, p: nat, e: nat)
    requires n > 0
  {
    p < e < |b| && b[p].slot.Full? && e < HomeOf(cfg, n, b[p].slot) + cfg.hood
  }

  // b' is b with the value of bucket p moved to bucket e.
  ghost predicate Moved<K, V>(b: seq<Bucket<K, V>>, b': seq<Bucket<K, V>>, p: nat, e: nat) {
    && |b'| == |b| && p < |b| && e < |b| && b[p].slot.Full? && b[e].slot.Vacant?
    && b'[e].slot == b[p].slot && b'[p].slot.Vacant?
    && (forall j :: 0 <= j < |b| && j != p && j != e ==> b'[j].slot == b[j].slot)
    && SameFlags(b, b')
  }

  lemma SwappedMoves<K, V>(cfg: Config<K>, b: seq<Bucket<K, V>>, n: nat, p: nat, e: nat)
    requires Hood(cfg, b, n) && MayMove(cfg, b, n, p, e) && b[e].slot.Vacant?
    ensures var h := Home(cfg, b[p].slot.entry.key, n);
            h <= p && Hood(cfg, Swapped(b, p, h, e), n) && Moved(b, Swapped(b, p, h, e), p, e)
  {
    hide IsEmpty, Toggle, SetValue, RemoveValue, Home;
    SwappedHood(cfg, b, n, p, e);
    hide Hood;
  }

  // Values of the homes scanned so far cannot move to e.
  ghost predicate NoneFrom<K, V>(cfg: Config<K>, b: seq<Bucket<K, V>>, n: nat, e: nat, homes: nat)
    requires n > 0
  {
    forall p: nat :: MayMove(cfg, b, n, p, e) ==> HomeOf(cfg, n, b[p].slot) >= homes
  }

  /**
    swap_empty_bucket_closer: the first value, by home and then by position, that may move to the
    empty bucket moves there; there is none exactly when the answer is no.
   */
  method SwapEmptyBucketCloser<K, V>(cfg: Config<K>, b: seq<Bucket<K, V>>, n: nat, e: nat)
    returns (ok: bool, b': seq<Bucket<K, V>>, e': nat)
    requires Hood(cfg, b, n) && cfg.hood <= e < |b| && b[e].slot.Vacant?
    ensures Hood(cfg, b', n)
    ensures !ok ==> b' == b && e' == e && forall p: nat :: !MayMove(cfg, b, n, p, e)
    ensures ok ==> e - cfg.hood < e' < e && MayMove(cfg, b, n, e', e) && Moved(b, b', e', e)
    ensures ok ==> NoneFrom(cfg, b, n, e, HomeOf(cfg, n, b[e'].slot))
    ensures ok ==>
              forall p: nat :: MayMove(cfg, b, n, p, e) && HomeOf(cfg, n, b[p].slot) == HomeOf(cfg, n, b[e'].slot) ==>
                  e' <= p
  {
    hide Hood, Swapped, Moved, NoneFrom, MayMove, FirstOf;
    HoodFacts(cfg, b, n);
    var start := e - cfg.hood + 1;
    var toCheck := start;
    FromHomesBefore(cfg, b, n, e, start);
    while toCheck < e
      invariant start <= toCheck <= e && NoneFrom(cfg, b, n, e, toCheck)
    {
      var found, toSwap := ScanHome(cfg, b, n, e, toCheck);
      if found {
        FirstOfFacts(cfg, b, n, e, toCheck, toSwap);
        SwappedMoves(cfg, b, n, toSwap, e);
        b' := Swapped(b, toSwap, toCheck, e);
        return true, b', toSwap;
      }
      toCheck := toCheck + 1;
    }
    NoHomesLeft(cfg, b, n, e);
    ok, b', e' := false, b, e;
  }

  // Bucket p has the first value of home h that may move to e.
  ghost predicate FirstOf<K, V>(cfg: Config<K>, b: seq<Bucket<K, V>>, n: nat, e: nat, h: nat, p: nat)
    requires n > 0
  {
    && MayMove(cfg, b, n, p, e) && HomeOf(cfg, n, b[p].slot) == h && h <= p
    && forall q: nat :: MayMove(cfg, b, n, q, e) && HomeOf(cfg, n, b[q].slot) == h ==> p <= q
  }

  lemma FirstOfFacts<K, V>(cfg: Config<K>, b: seq<Bucket<K, V>>, n: nat, e: nat, h: nat, p: nat)
    requires n > 0 && FirstOf(cfg, b, n, e, h, p)
    ensures MayMove(cfg, b, n, p, e) && p < e < |b| && b[p].slot.Full? && h <= p
    ensures HomeOf(cfg, n, b[p].slot) == h && Home(cfg, b[p].slot.entry.key, n) == h
    ensures forall q: nat :: MayMove(cfg, b, n, q, e) && HomeOf(cfg, n, b[q].slot) == h ==> p <= q
  {}

  lemma FromHomesBefore<K, V>(cfg: Config<K>, b: seq<Bucket<K, V>>, n: nat, e: nat, start: nat)
    requires n > 0 && start + cfg.hood <= e + 1
    ensures NoneFrom(cfg, b, n, e, start)
  {}

  lemma NoHomesLeft<K, V>(cfg: Config<K>, b: seq<Bucket<K, V>>, n: nat, e: nat)
    requires Hood(cfg, b, n) && NoneFrom(cfg, b, n, e, e)
    ensures forall p: nat :: !MayMove(cfg, b, n, p, e)
  {
    hide Hood;
    HoodFacts(cfg, b, n);
    forall p: nat ensures !MayMove(cfg, b, n, p, e) {
      if MayMove(cfg, b, n, p, e) { NearHome(cfg, b, n, p); }
    }
  }

  /**
    The bitmap scan of one home in swap_empty_bucket_closer.
   */
  method ScanHome<K, V>(cfg: Config<K>, b: seq<Bucket<K, V>>, n: nat, e: nat, toCheck: nat)
    returns (found: bool, toSwap: nat)
    requires Hood(cfg, b, n) && toCheck < e < |b| && e < toCheck + cfg.hood && NoneFrom(cfg, b, n, e, toCheck)
    ensures found ==> FirstOf(cfg, b, n, e, toCheck, toSwap)
    ensures !found ==> NoneFrom(cfg, b, n, e, toCheck + 1)
  {
    hide Hood, Scanning, Neighbor;
    HoodFacts(cfg, b, n);
    var w := NeighborhoodInfos(b[toCheck]);
    ScanStart(b[toCheck]);
    toSwap := toCheck;
    while w != 0 && toSwap < e
      invariant toCheck <= toSwap <= e && Scanning(b[toCheck], w, toSwap - toCheck)
      invariant forall i: nat :: i < toSwap - toCheck ==> !Neighbor(b[toCheck], i)
      decreases e - toSwap
    {
      ScanNext(b[toCheck], w, toSwap - toCheck);
      MarkedAt(cfg, b, n, toCheck, toSwap - toCheck);
      if w % 2 == 1 {
        Unmarked(cfg, b, n, e, toCheck, toSwap);
        return true, toSwap;
      }
      toSwap, w := toSwap + 1, w / 2;
    }
    if w == 0 { ScanOver(b[toCheck], toSwap - toCheck); }
    Unmarked(cfg, b, n, e, toCheck, e);
    found := false;
  }

  // No bit of home h below position `to`: the values of that home which may move are from there on.
  lemma Unmarked<K, V>(cfg: Config<K>, b: seq<Bucket<K, V>>, n: nat, e: nat, h: nat, to: nat)
    requires Hood(cfg, b, n) && h < |b| && e < |b|
    requires forall i: nat :: i < to - h ==> !Neighbor(b[h], i)
    requires NoneFrom(cfg, b, n, e, h)
    ensures forall p: nat :: MayMove(cfg, b, n, p, e) && HomeOf(cfg, n, b[p].slot) == h ==> to <= p
    ensures to >= e ==> NoneFrom(cfg, b, n, e, h + 1)
  {
    forall p: nat | MayMove(cfg, b, n, p, e) && HomeOf(cfg, n, b[p].slot) == h ensures to <= p {
      NearHome(cfg, b, n, p);
    }
  }

  // What displacement leaves: the neighbourhood invariant, the flags of b and the finite map m.
  ghost predicate Rearranged<K, V>(cfg: Config<K>, n: nat, b: seq<Bucket<K, V>>, b': seq<Bucket<K, V>>,
                                   ovf: seq<Entry<K, V>>, m: map<K, V>)
  {
    Hood(cfg, b', n) && SameFlags(b, b') && Holds(Cells(b', ovf), m)
  }

  lemma MovedRearranges<K, V>(cfg: Config<K>, n: nat, b0: seq<Bucket<K, V>>, b: seq<Bucket<K, V>>,
                              b': seq<Bucket<K, V>>, p: nat, e: nat, ovf: seq<Entry<K, V>>, m: map<K, V>)
    requires Rearranged(cfg, n, b0, b, ovf, m) && Moved(b, b', p, e) && Hood(cfg, b', n)
    ensures Rearranged(cfg, n, b0, b', ovf, m)
  {
    hide Hood, HasOverflow, Holds;
    MovedHolds(b, b', p, e, ovf, m);
  }

  lemma MovedHolds<K, V>(b: seq<Bucket<K, V>>, b': seq<Bucket<K, V>>, p: nat, e: nat, ovf: seq<Entry<K, V>>,
                         m: map<K, V>)
    requires Moved(b, b', p, e) && Holds(Cells(b, ovf), m)
    ensures Holds(Cells(b', ovf), m)
  {
    hide *;
    MovedCells(b, b', p, e, ovf);
    MoveHolds(Cells(b, ovf), m, |ovf| + p, |ovf| + e);
  }

  lemma MovedCells<K, V>(b: seq<Bucket<K, V>>, b': seq<Bucket<K, V>>, p: nat, e: nat, ovf: seq<Entry<K, V>>)
    requires Moved(b, b', p, e)
    ensures var s := Cells(b, ovf); var i, j := |ovf| + p, |ovf| + e;
            i < |s| && j < |s| && s[i].Full? && s[j].Vacant? && Cells(b', ovf) == s[j := s[i]][i := Vacant]
  {
    hide Cells, SameFlags;
    var b1 := b[e := b'[e]];
    CellsEdit(b, b1, ovf, e, b[p].slot);
    CellsEdit(b1, b', ovf, p, Vacant);
  }

  // Moving a value into the empty bucket keeps the buckets before it full.
  lemma StillFull<K, V>(b: seq<Bucket<K, V>>, b': seq<Bucket<K, V>>, p: nat, e: nat, home: nat)
    requires Moved(b, b', p, e) && AllFull(b, home, e) && p < e
    ensures AllFull(b', home, p) && b'[p].slot.Vacant?
  {}

  /**
    find_empty_bucket and the displacement loop of insert_value.  Either an empty bucket is now in
    the neighbourhood of home, or every bucket of that neighbourhood stores a value.
   */
  method BringEmptyCloser<K, V>(cfg: Config<K>, b: seq<Bucket<K, V>>, n: nat, home: nat,
                                  ghost ovf: seq<Entry<K, V>>, ghost m: map<K, V>)
    returns (found: bool, b': seq<Bucket<K, V>>, e: nat)
    requires Hood(cfg, b, n) && home < n && Holds(Cells(b, ovf), m)
    ensures Rearranged(cfg, n, b, b', ovf, m)
    ensures found ==> home <= e < home + cfg.hood && e < |b'| && b'[e].slot.Vacant?
    ensures !found ==> AllFull(b', home, home + cfg.hood)
  {
    hide Hood, HasOverflow, Moved, Holds, Cells, Rearranged;
    HoodFacts(cfg, b, n);
    RearrangedSelf(cfg, n, b, ovf, m);
    e := FindEmptyBucket(cfg, b, n, home);
    b' := b;
    if e < |b| {
      while true
        invariant home <= e < |b'| && b'[e].slot.Vacant? && AllFull(b', home, e)
        invariant Hood(cfg, b', n) && Rearranged(cfg, n, b, b', ovf, m)
        decreases e
      {
        if e - home < cfg.hood {
          return true, b', e;
        }
        var ok, b1, e1 := SwapEmptyBucketCloser(cfg, b', n, e);
        if !ok {
          break;
        }
        StillFull(b', b1, e1, e, home);
        HoodFacts(cfg, b1, n);
        MovedRearranges(cfg, n, b, b', b1, e1, e, ovf, m);
        b', e := b1, e1;
      }
    }
    found := false;
  }

  lemma RearrangedSelf<K, V>(cfg: Config<K>, n: nat, b: seq<Bucket<K, V>>, ovf: seq<Entry<K, V>>, m: map<K, V>)
    requires Hood(cfg, b, n) && Holds(Cells(b, ovf), m)
    ensures Rearranged(cfg, n, b, b, ovf, m)
  {
    hide Hood, Holds, HasOverflow, Cells;
  }

  // Some value of the neighbourhood of home has another home among n' buckets than among n.
  ghost predicate HomesChange<K, V>(cfg: Config<K>, b: seq<Bucket<K, V>>, n: nat, n': nat, home: nat) {
    n > 0 && n' > 0 &&
    exists j ::
      home <= j < home + cfg.hood && j < |b| && HomeOf(cfg, n, b[j].slot) != HomeOf(cfg, n', b[j].slot)
  }

  ghost predicate SameSlots<K, V>(b: seq<Bucket<K, V>>, b': seq<Bucket<K, V>>) {
    |b'| == |b| && forall j :: 0 <= j < |b| ==> b'[j].slot == b[j].slot
  }

  lemma SlotsDecide<K, V>(cfg: Config<K>, b: seq<Bucket<K, V>>, b': seq<Bucket<K, V>>, n: nat, n': nat, home: nat)
    requires SameSlots(b, b')
    ensures AllFull(b, home, home + cfg.hood) <==> AllFull(b', home, home + cfg.hood)
    ensures HomesChange(cfg, b, n, n', home) <==> HomesChange(cfg, b', n, n', home)
  {
    hide HomeOf;
  }

  /**
    will_neighborhood_change_on_rehash: whether some value of the full neighbourhood gets another
    home when the number of buckets goes from n to n'.
   */
  method WillNeighborhoodChange<K, V>(cfg: Config<K>, b: seq<Bucket<K, V>>, n: nat, n': nat, home: nat)
    returns (r: bool)
    requires Hood(cfg, b, n) && IsPow2(n') && home < n && AllFull(b, home, home + cfg.hood)
    ensures r <==> HomesChange(cfg, b, n, n', home)
  {
    hide Hood;
    HoodFacts(cfg, b, n);
    var i := home;
    while i < |b| && i - home < cfg.hood
      invariant home <= i <= home + cfg.hood
      invariant forall j :: home <= j < i ==> HomeOf(cfg, n, b[j].slot) == HomeOf(cfg, n', b[j].slot)
    {
      var hash := cfg.hash(b[i].slot.entry.key);
      if BucketForHash(hash, n - 1) != BucketForHash(hash, n' - 1) {
        return true;
      }
      i := i + 1;
    }
    r := false;
  }
}
