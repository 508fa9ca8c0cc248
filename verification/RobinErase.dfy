/**
  Deletion in the Robin Hood table: the backward shift after one erased bucket, and the
  compaction after an erased range.
 */
module RobinErase {
  import opened GrowthPolicy
  import opened RobinBuckets
  import opened RobinLoops

  // ---------- one bucket ----------

  // A table with a hole: every invariant holds, except that the bucket after the hole may still
  // be waiting to move back into it.
  ghost predicate Hollow<K(!new), V>(cfg: Config<K>, b: seq<Bucket<K, V>>, hole: nat, m: map<K, V>) {
    && hole < |b| && b[hole].Empty?
    && AllPlaced(cfg, b) && Holds(b, Empty, m)
    && (forall j :: 0 <= j < |b| && j != hole ==> OrderedAt(b, j))
    && Dist(b[Next(hole, |b|)]) <= Dist(b[Prev(hole, |b|)]) + 2
  }

  lemma HollowStart<K(!new), V>(cfg: Config<K>, b: seq<Bucket<K, V>>, pos: nat, m: map<K, V>)
    requires Sound(cfg, b, m) && pos < |b| && b[pos].Full?
    ensures Hollow(cfg, b[pos := Empty], pos, m - {b[pos].key})
  {
    hide Holds, AllPlaced;
    var b' := b[pos := Empty];
    ClearOne(b, m, pos);
    ClearedPlaced(cfg, b, b');
    assert OrderedAt(b, pos) && OrderedAt(b, Prev(pos, |b|));
    forall j | 0 <= j < |b'| && j != pos ensures OrderedAt(b', j) { assert OrderedAt(b, j); }
  }

  // Moving an entry to an empty bucket keeps the finite map.
  lemma MoveHolds<K, V>(b: seq<Bucket<K, V>>, m: map<K, V>, from: nat, to: nat, x: Bucket<K, V>)
    requires Holds(b, Empty, m) && from < |b| && to < |b| && from != to
    requires b[to].Empty? && SameEntry(x, b[from])
    ensures Holds(b[to := x][from := Empty], Empty, m)
  {
    var b1 := b[from := Empty];
    Exchange(b, Empty, m, from, Empty, b[from]);
    Exchange(b1, b[from], m, to, x, Empty);
    assert b[to := x][from := Empty] == b1[to := x];
  }

  // Moving an entry `steps` buckets back towards its home keeps its distance exact.
  lemma MovePlaced<K(!new), V>(cfg: Config<K>, b: seq<Bucket<K, V>>, from: nat, to: nat, steps: nat)
    requires AllPlaced(cfg, b) && from < |b| && to < |b| && b[from].Full?
    requires 0 < steps == Cyc(from, to, |b|) && steps <= b[from].dist
    ensures AllPlaced(cfg, b[to := b[from].(dist := b[from].dist - steps)][from := Empty])
  {
    var n := |b|;
    var b' := b[to := b[from].(dist := b[from].dist - steps)][from := Empty];
    assert Placed(cfg, n, b[from], from);
    forall j | 0 <= j < n ensures Placed(cfg, n, b'[j], j) {
      assert Placed(cfg, n, b[j], j);
    }
  }

  // Move the entry after the hole one bucket closer to its home.
  lemma HollowStep<K(!new), V>(cfg: Config<K>, b: seq<Bucket<K, V>>, hole: nat, m: map<K, V>)
    requires Hollow(cfg, b, hole, m) && Dist(b[Next(hole, |b|)]) > 0
    ensures var i := Next(hole, |b|);
            Hollow(cfg, b[hole := b[i].(dist := b[i].dist - 1)][i := Empty], i, m)
  {
    hide Holds, AllPlaced;
    var n := |b|;
    var i := Next(hole, n);
    var x := b[i].(dist := b[i].dist - 1);
    var b' := b[hole := x][i := Empty];
    MoveHolds(b, m, i, hole, x);
    MovePlaced(cfg, b, i, hole, 1);
    assert OrderedAt(b, i);
    forall j | 0 <= j < n && j != i ensures OrderedAt(b', j) {
      if j != hole { assert OrderedAt(b, j); }
    }
  }

  lemma HollowEnd<K(!new), V>(cfg: Config<K>, b: seq<Bucket<K, V>>, hole: nat, m: map<K, V>)
    requires Hollow(cfg, b, hole, m) && Dist(b[Next(hole, |b|)]) <= 0
    ensures Sound(cfg, b, m)
  {
    assert OrderedAt(b, hole);
  }

  /**
    erase_from_bucket: clear the bucket and shift the following entries back, up to an empty
    bucket or an entry at home.
   */
  method EraseFromBucket<K(!new), V>(ghost cfg: Config<K>, mask: nat, src: seq<Bucket<K, V>>, pos: nat,
                                     ghost m: map<K, V>)
    returns (b: seq<Bucket<K, V>>)
    requires MaskOf(mask, src) && Sound(cfg, src, m) && |m| < |src| && pos < |src| && src[pos].Full?
    ensures |b| == |src| && Sound(cfg, b, m - {src[pos].key})
  {
    hide Hollow, Sound;
    ghost var n, m' := |src|, m - {src[pos].key};
    SoundCount(cfg, src, m);
    ghost var e := EmptyExists(src);
    HollowStart(cfg, src, pos, m);
    b := src[pos := Empty];
    var prev := pos;
    var i := NextIndex(prev, mask);
    while Dist(b[i]) > 0
      invariant |b| == n && prev < n && i == Next(prev, n) && prev != e && b[e].Empty?
      invariant Hollow(cfg, b, prev, m')
      decreases Cyc(e, prev, n)
    {
      HollowStep(cfg, b, prev, m');
      CycNext(e, prev, n);
      b := b[prev := b[i].(dist := b[i].dist - 1)][i := Empty];
      prev := i;
      i := NextIndex(i, mask);
    }
    HollowEnd(cfg, b, prev, m');
  }

  // ---------- a range of buckets ----------

  ghost function KeysIn<K, V>(b: seq<Bucket<K, V>>, lo: nat, hi: nat): set<K>
    requires lo <= hi <= |b|
  {
    set i | lo <= i < hi && b[i].Full? :: b[i].key
  }

  // The finite map without the entries of the buckets [lo, hi).
  ghost function Rest<K, V>(b: seq<Bucket<K, V>>, lo: nat, hi: nat, m: map<K, V>): map<K, V>
    requires lo <= hi <= |b|
  {
    m - KeysIn(b, lo, hi)
  }

  // b is src with the buckets [lo, hi) emptied.
  ghost predicate Cleared<K, V>(src: seq<Bucket<K, V>>, b: seq<Bucket<K, V>>, lo: nat, hi: nat)
    requires lo <= hi <= |src|
  {
    && |b| == |src|
    && (forall j :: lo <= j < hi ==> b[j] == Empty)
    && (forall j :: 0 <= j < lo ==> b[j] == src[j])
    && (forall j :: hi <= j < |b| ==> b[j] == src[j])
  }

  /**
    The loop that clears [first, last): `erased` is the number of entries it destroyed.
   */
  method ClearRange<K(!new), V>(ghost cfg: Config<K>, src: seq<Bucket<K, V>>, first: nat, last: nat, ghost m: map<K, V>)
    returns (b: seq<Bucket<K, V>>, erased: nat)
    requires first <= last <= |src| && AllPlaced(cfg, src) && Holds(src, Empty, m)
    ensures |b| == |src| && AllPlaced(cfg, b)
    ensures Holds(b, Empty, Rest(src, first, last, m)) && |Rest(src, first, last, m)| + erased == |m|
    ensures Cleared(src, b, first, last)
  {
    hide Holds, AllPlaced, Rest;
    b, erased := src, 0;
    RestNone(src, first, m);
    for it := first to last
      invariant Cleared(src, b, first, it)
      invariant Holds(b, Empty, Rest(src, first, it, m)) && |Rest(src, first, it, m)| + erased == |m|
    {
      RestNext(src, first, it, m);
      if b[it].Full? {
        ClearOne(b, Rest(src, first, it, m), it);
        b := b[it := Empty];
        erased := erased + 1;
      }
    }
    ClearedPlaced(cfg, src, b);
  }

  lemma ClearedPlaced<K(!new), V>(cfg: Config<K>, src: seq<Bucket<K, V>>, b: seq<Bucket<K, V>>)
    requires AllPlaced(cfg, src) && |b| == |src|
    requires forall j :: 0 <= j < |b| ==> b[j].Empty? || b[j] == src[j]
    ensures AllPlaced(cfg, b)
  {
    forall j | 0 <= j < |b| ensures Placed(cfg, |b|, b[j], j) { assert Placed(cfg, |src|, src[j], j); }
  }

  lemma RestNone<K, V>(b: seq<Bucket<K, V>>, lo: nat, m: map<K, V>)
    requires lo <= |b|
    ensures Rest(b, lo, lo, m) == m
  {}

  lemma RestNext<K, V>(b: seq<Bucket<K, V>>, lo: nat, i: nat, m: map<K, V>)
    requires lo <= i < |b|
    ensures Rest(b, lo, i + 1, m)
         == if b[i].Full? then Rest(b, lo, i, m) - {b[i].key} else Rest(b, lo, i, m)
  {
    assert KeysIn(b, lo, i + 1) == KeysIn(b, lo, i) + (if b[i].Full? then {b[i].key} else {});
  }

  lemma ClearOne<K, V>(b: seq<Bucket<K, V>>, m: map<K, V>, i: nat)
    requires Holds(b, Empty, m) && i < |b| && b[i].Full?
    ensures Holds(b[i := Empty], Empty, m - {b[i].key}) && |m - {b[i].key}| + 1 == |m|
  {
    Exchange(b, Empty, m, i, Empty, b[i]);
    Drop(b[i := Empty], b[i], m);
    assert (m - {b[i].key}).Keys == m.Keys - {b[i].key};
  }

  /**
    The range-erase loop in progress: buckets [c, t) are empty, the entry in bucket t (if it is not
    at home) is next to move back, at most as far as bucket c.  Nothing is said yet about the step
    from the last bucket around to bucket 0, except for an entry that would land in bucket 0.
   */
  ghost predicate Compacting<K(!new), V>(cfg: Config<K>, b: seq<Bucket<K, V>>, c: nat, t: nat) {
    && c < t <= |b|
    && AllPlaced(cfg, b)
    && (forall j :: c <= j < t ==> b[j].Empty?)
    && (forall j :: 0 <= j < |b| - 1 && j != t - 1 ==> OrderedAt(b, j))
    && (t < |b| && c > 0 ==> Dist(b[t]) - (t - c) <= Dist(b[c - 1]) + 1)
  }

  // Distances grow by at most one per bucket, so by at most j - i over j - i buckets.
  lemma {:induction false} GrowsSlowly<K, V>(b: seq<Bucket<K, V>>, i: nat, j: nat)
    requires i <= j < |b| && Ordered(b)
    ensures Dist(b[j]) <= Dist(b[i]) + (j - i)
    decreases j
  {
    if i < j {
      GrowsSlowly(b, i, j - 1);
      assert OrderedAt(b, j - 1);
    }
  }

  lemma CompactStart<K(!new), V>(cfg: Config<K>, src: seq<Bucket<K, V>>, b: seq<Bucket<K, V>>, first: nat, last: nat)
    requires first < last <= |src| && AllPlaced(cfg, b) && Ordered(src)
    requires Cleared(src, b, first, last)
    ensures Compacting(cfg, b, first, last)
  {
    forall j | 0 <= j < |b| - 1 && j != last - 1 ensures OrderedAt(b, j) { assert OrderedAt(src, j); }
    if last < |b| && first > 0 { GrowsSlowly(src, first - 1, last); }
  }

  // Where the entry in bucket t moves to.
  function Closer<K, V>(b: seq<Bucket<K, V>>, c: nat, t: nat): (r: nat)
    requires c < t < |b| && b[t].Full?
    ensures c <= r <= t && t - r <= b[t].dist
    ensures b[t].dist > 0 ==> r < t
  {
    t - (if t - c < b[t].dist then t - c else b[t].dist)
  }

  lemma CompactStep<K(!new), V>(cfg: Config<K>, b: seq<Bucket<K, V>>, c: nat, t: nat)
    requires Compacting(cfg, b, c, t) && t < |b| && Dist(b[t]) > 0
    ensures var r := Closer(b, c, t);
            Compacting(cfg, b[r := b[t].(dist := b[t].dist - (t - r))][t := Empty], r + 1, t + 1)
  {
    hide AllPlaced;
    var r := Closer(b, c, t);
    var b' := b[r := b[t].(dist := b[t].dist - (t - r))][t := Empty];
    MovePlaced(cfg, b, t, r, t - r);
    forall j | 0 <= j < |b| - 1 && j != t ensures OrderedAt(b', j) {
      if j != t - 1 { assert OrderedAt(b, j); }
    }
    if t + 1 < |b| { assert OrderedAt(b, t); }
  }

  lemma CompactHole<K(!new), V>(cfg: Config<K>, b: seq<Bucket<K, V>>, c: nat, t: nat)
    requires Compacting(cfg, b, c, t)
    ensures AllPlaced(cfg, b)
    ensures forall j :: c <= j < t ==> b[j].Empty?
  {}

  /**
    What a caller can check before erasing [first, last): the compaction meets an entry at home or
    an empty bucket before the end of the array, or no entry around the end is left behind.
   */
  predicate Restores<K, V>(b: seq<Bucket<K, V>>, first: nat, last: nat)
    requires first < last <= |b|
  {
    || (exists j :: last <= j < |b| && Dist(b[j]) <= 0)
    || (if first > 0 then Dist(b[0]) <= 0 else last == |b| || Dist(b[last]) <= last)
  }

  // What bucket 0 looks like while [first, last) is being compacted up to bucket t.
  ghost predicate FrontBucket<K, V>(src: seq<Bucket<K, V>>, b: seq<Bucket<K, V>>, first: nat, last: nat, t: nat)
    requires first < last <= t <= |src| == |b|
  {
    if first > 0 then b[0] == src[0]
    else Dist(b[0]) == if t > last && Dist(src[last]) >= last then Dist(src[last]) - last else -1
  }

  // The early-exit probe for k reaches a bucket that holds it.
  ghost predicate Findable<K(!new), V>(cfg: Config<K>, b: seq<Bucket<K, V>>, k: K)
    requires |b| > 0
  {
    exists d :: 0 <= d < |b| && Reaches(b, cfg.hash(k) % |b|, k, d)
  }

  ghost predicate Reaches<K, V>(b: seq<Bucket<K, V>>, h: nat, k: K, d: nat)
    requires h < |b| && d < |b|
  {
    && b[Adv(h, d, |b|)].Full? && b[Adv(h, d, |b|)].key == k
    && forall t :: 0 <= t <= d ==> Dist(b[Adv(h, t, |b|)]) >= t
  }

  // With the probe invariant every stored key is found.
  lemma OrderedFindable<K(!new), V>(cfg: Config<K>, b: seq<Bucket<K, V>>, p: nat)
    requires AllPlaced(cfg, b) && Ordered(b) && p < |b| && b[p].Full?
    ensures Findable(cfg, b, b[p].key)
  {
    hide Ordered;
    var h := cfg.hash(b[p].key) % |b|;
    assert Placed(cfg, |b|, b[p], p);
    var d := b[p].dist;
    assert Adv(h, d, |b|) == p;
    forall t | 0 <= t <= d ensures Dist(b[Adv(h, t, |b|)]) >= t { RunBack(b, h, d, t); }
    assert Reaches(b, h, b[p].key, d);
  }

  // An entry in bucket 0 that is not at home, after an empty last bucket, is lost.
  lemma WrappedEntryLost<K(!new), V>(cfg: Config<K>, b: seq<Bucket<K, V>>)
    requires AllPlaced(cfg, b) && KeysDistinct(b) && |b| > 0
    requires Dist(b[0]) > 0 && b[|b| - 1].Empty?
    ensures !Findable(cfg, b, b[0].key)
  {
    var n, k := |b|, b[0].key;
    var h := cfg.hash(k) % n;
    assert Placed(cfg, n, b[0], 0);
    forall d | 0 <= d < n ensures !Reaches(b, h, k, d) {
      if d > 0 { AdvNext(h, d - 1, n); }
    }
  }

  ghost predicate AllFindable<K(!new), V>(cfg: Config<K>, b: seq<Bucket<K, V>>) {
    forall p :: 0 <= p < |b| && b[p].Full? ==> Findable(cfg, b, b[p].key)
  }

  lemma FindableOrLost<K(!new), V>(cfg: Config<K>, b: seq<Bucket<K, V>>, m: map<K, V>)
    requires AllPlaced(cfg, b) && Holds(b, Empty, m)
    requires Ordered(b) || (|b| > 0 && b[|b| - 1].Empty? && Dist(b[0]) > 0)
    ensures AllFindable(cfg, b) <==> Ordered(b)
  {
    if Ordered(b) {
      forall p | 0 <= p < |b| && b[p].Full? ensures Findable(cfg, b, b[p].key) { OrderedFindable(cfg, b, p); }
    } else {
      WrappedEntryLost(cfg, b);
    }
  }

  lemma CompactEnd<K(!new), V>(cfg: Config<K>, src: seq<Bucket<K, V>>, b: seq<Bucket<K, V>>, first: nat, last: nat,
                               c: nat, t: nat)
    requires Ordered(src) && first < last <= t <= |src| == |b| && Compacting(cfg, b, c, t)
    requires forall j :: t <= j < |b| ==> b[j] == src[j]
    requires forall j :: last <= j < t ==> Dist(src[j]) > 0
    requires FrontBucket(src, b, first, last, t)
    requires t < |b| ==> Dist(b[t]) <= 0
    ensures Ordered(b) <==> Restores(src, first, last)
    ensures !Restores(src, first, last) ==> b[|b| - 1].Empty? && Dist(b[0]) > 0
  {
    var n := |b|;
    forall j | 0 <= j < n - 1 ensures OrderedAt(b, j) {}
    assert Ordered(b) <==> OrderedAt(b, n - 1);
    assert Next(n - 1, n) == 0;
    if t < n {
      assert Dist(src[t]) <= 0;
      assert OrderedAt(src, n - 1);
      if first == 0 && last < n { GrowsSlowly(src, 0, last); }
    } else {
      assert b[n - 1].Empty?;
    }
  }

  /**
    erase(first, last) on the buckets.  It removes exactly the entries of [first, last), and the
    entry that was at `last` is at the returned position.  The probe invariant is restored, and every
    remaining key is still found, exactly when Restores(src, first, last).
   */
  method EraseRange<K(!new), V>(ghost cfg: Config<K>, src: seq<Bucket<K, V>>, first: nat, last: nat, ghost m: map<K, V>)
    returns (b: seq<Bucket<K, V>>, ret: nat, erased: nat)
    requires Sound(cfg, src, m) && first < last <= |src| && (last < |src| ==> src[last].Full?)
    ensures |b| == |src| && AllPlaced(cfg, b)
    ensures Holds(b, Empty, Rest(src, first, last, m)) && |Rest(src, first, last, m)| + erased == |m|
    ensures if last == |src| then ret == |b| else ret < |b| && SameEntry(b[ret], src[last])
    ensures Ordered(b) <==> Restores(src, first, last)
    ensures AllFindable(cfg, b) <==> Restores(src, first, last)
  {
    hide Holds, AllPlaced, Ordered, Compacting, Rest, Restores, AllFindable;
    b, erased := ClearRange(cfg, src, first, last, m);
    CompactStart(cfg, src, b, first, last);
    if last == |src| {
      CompactEnd(cfg, src, b, first, last, first, last);
      FindableOrLost(cfg, b, Rest(src, first, last, m));
      ret := |b|;
      return;
    }
    var c, t := first, last;
    ret := Closer(b, c, t);
    while t < |b| && Dist(b[t]) > 0
      invariant |b| == |src| && first <= c < t && last <= t <= |b|
      invariant Compacting(cfg, b, c, t) && Holds(b, Empty, Rest(src, first, last, m))
      invariant forall j :: t <= j < |b| ==> b[j] == src[j]
      invariant forall j :: last <= j < t ==> Dist(src[j]) > 0
      invariant FrontBucket(src, b, first, last, t)
      invariant if t == last then c == first && ret == Closer(b, c, t) else ret < c && SameEntry(b[ret], src[last])
    {
      CompactHole(cfg, b, c, t);
      CompactStep(cfg, b, c, t);
      c := Closer(b, c, t);
      var moved := b[t].(dist := b[t].dist - (t - c));
      MoveHolds(b, Rest(src, first, last, m), t, c, moved);
      b := b[c := moved][t := Empty];
      c, t := c + 1, t + 1;
    }
    CompactEnd(cfg, src, b, first, last, c, t);
    CompactHole(cfg, b, c, t);
    FindableOrLost(cfg, b, Rest(src, first, last, m));
  }
}
