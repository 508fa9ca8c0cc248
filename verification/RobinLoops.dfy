/**
  The loops of the Robin Hood table, on the bucket array alone.  The table methods run them on
  their m_buckets_data and keep the counters around them.
 */
module RobinLoops {
  import opened Bits
  import opened GrowthPolicy
  import opened RobinBuckets

  // m_mask of a table with these buckets.
  ghost predicate MaskOf<K, V>(mask: nat, b: seq<Bucket<K, V>>) {
    IsPow2(mask + 1) && mask == (if |b| == 0 then 0 else |b| - 1)
  }

  // m_buckets points to a static empty bucket when there is none.
  function At<K, V>(b: seq<Bucket<K, V>>, i: nat): Bucket<K, V>
    requires i < |b| || |b| == 0
  {
    if |b| == 0 then Empty else b[i]
  }

  ghost predicate WellConfigured<K>(cfg: Config<K>) {
    cfg.lookupHash ==> cfg.storeHash
  }

  // Bucket i is where the probe for key k stops, d steps from its home.
  ghost predicate StopsAt<K(!new), V>(cfg: Config<K>, b: seq<Bucket<K, V>>, k: K, i: nat, d: nat) {
    && (i < |b| || |b| == 0)
    && d > Dist(At(b, i))
    && (|b| > 0 ==> CanPlace(b, cfg.hash(k) % |b|, i, d))
  }

  /**
    The probe loop of find_impl and insert_impl.  It ends at the bucket of the key, or at the
    bucket where the key would be inserted, and then the key is nowhere in the table.
   */
  method Probe<K(==, !new), V>(cfg: Config<K>, mask: nat, b: seq<Bucket<K, V>>, key: K)
    returns (found: bool, i: nat, d: nat)
    requires MaskOf(mask, b) && WellConfigured(cfg) && AllPlaced(cfg, b) && Ordered(b)
    ensures found <==> HasKey(b, key)
    ensures found ==> i < |b| && b[i].Full? && b[i].key == key
    ensures !found ==> StopsAt(cfg, b, key, i, d)
  {
    var hash := cfg.hash(key);
    i := BucketForHash(hash, mask);
    d := 0;
    ghost var n, h := |b|, i;
    while d <= Dist(At(b, i))
      invariant if n == 0 then i == 0 && d == 0 else CanPlace(b, h, i, d) && Passed(b, h, key, d)
      decreases n - d
    {
      assert Placed(cfg, n, b[i], i);
      if (!cfg.lookupHash || b[i].hash == Truncate(hash)) && b[i].key == key {
        return true, i, d;
      }
      ProbeStep(b, h, i, d, key);
      i := NextIndex(i, mask);
      d := d + 1;
    }
    if n > 0 { EarlyExit(cfg, b, h, key, d); }
    return false, i, d;
  }

  /**
    The second probe loop of insert_impl, after a rehash: only the stop position matters.
   */
  method ProbeAgain<K(!new), V>(cfg: Config<K>, mask: nat, b: seq<Bucket<K, V>>, key: K)
    returns (i: nat, d: nat)
    requires MaskOf(mask, b) && AllPlaced(cfg, b)
    ensures StopsAt(cfg, b, key, i, d)
  {
    i := BucketForHash(cfg.hash(key), mask);
    d := 0;
    ghost var n, h := |b|, i;
    while d <= Dist(At(b, i))
      invariant if n == 0 then i == 0 && d == 0 else CanPlace(b, h, i, d)
      decreases n - d
    {
      assert Placed(cfg, n, b[i], i);
      AdvNext(h, d, n);
      i := NextIndex(i, mask);
      d := d + 1;
    }
  }

  // ---------- rehash, as a function of the old buckets ----------

  // The buckets once the entry in hand has settled, walking over at most `left` buckets.
  function Settle<K, V>(b: seq<Bucket<K, V>>, i: nat, hand: Bucket<K, V>, left: nat): (r: seq<Bucket<K, V>>)
    requires i < |b| && hand.Full?
    ensures |r| == |b|
    decreases left
  {
    if left == 0 then b
    else if b[i].Empty? then b[i := hand]
    else if hand.dist > b[i].dist then
      Settle(b[i := hand], Next(i, |b|), b[i].(dist := b[i].dist + 1), left - 1)
    else
      Settle(b, Next(i, |b|), hand.(dist := hand.dist + 1), left - 1)
  }

  lemma SettleStep<K, V>(b: seq<Bucket<K, V>>, i: nat, hand: Bucket<K, V>, left: nat)
    requires i < |b| && hand.Full? && left > 0 && b[i].Full?
    ensures Settle(b, i, hand, left) ==
            if hand.dist > b[i].dist
            then Settle(b[i := hand], Next(i, |b|), b[i].(dist := b[i].dist + 1), left - 1)
            else Settle(b, Next(i, |b|), hand.(dist := hand.dist + 1), left - 1)
  {}

  // Settle(b, i, hand, left) is a whole table for m, said step by step along the walk.
  ghost predicate SettlesSoundly<K(!new), V>(cfg: Config<K>, b: seq<Bucket<K, V>>, i: nat, hand: Bucket<K, V>,
                                             left: nat, m: map<K, V>)
    requires i < |b| && hand.Full?
    decreases left
  {
    if left == 0 then Sound(cfg, b, m)
    else if b[i].Empty? then Sound(cfg, b[i := hand], m)
    else if hand.dist > b[i].dist then
      SettlesSoundly(cfg, b[i := hand], Next(i, |b|), b[i].(dist := b[i].dist + 1), left - 1, m)
    else
      SettlesSoundly(cfg, b, Next(i, |b|), hand.(dist := hand.dist + 1), left - 1, m)
  }

  lemma {:induction false} SettlesSoundlyMeans<K(!new), V>(cfg: Config<K>, b: seq<Bucket<K, V>>, i: nat,
                                                           hand: Bucket<K, V>, left: nat, m: map<K, V>)
    requires i < |b| && hand.Full? && SettlesSoundly(cfg, b, i, hand, left, m)
    ensures Sound(cfg, Settle(b, i, hand, left), m)
    decreases left
  {
    if left > 0 && b[i].Full? {
      if hand.dist > b[i].dist {
        SettlesSoundlyMeans(cfg, b[i := hand], Next(i, |b|), b[i].(dist := b[i].dist + 1), left - 1, m);
      } else {
        SettlesSoundlyMeans(cfg, b, Next(i, |b|), hand.(dist := hand.dist + 1), left - 1, m);
      }
    }
  }

  /**
    Settling keeps every invariant: with an empty bucket ahead, the walk ends in a whole table
    for the same finite map.
   */
  lemma {:induction false} SettleSound<K(!new), V>(cfg: Config<K>, b: seq<Bucket<K, V>>, i: nat, hand: Bucket<K, V>,
                                                   left: nat, e: nat, m: map<K, V>)
    requires Carrying(cfg, b, hand, i, m)
    requires e < |b| && b[e].Empty? && left > Cyc(e, i, |b|)
    ensures SettlesSoundly(cfg, b, i, hand, left, m)
    decreases left
  {
    hide Sound, Holds, AllPlaced, Ordered;
    if b[i].Empty? {
      CarryEnd(cfg, b, hand, i, m);
    } else if hand.dist > b[i].dist {
      CarrySwap(cfg, b, hand, i, m, e);
      SettleSound(cfg, b[i := hand], Next(i, |b|), b[i].(dist := b[i].dist + 1), left - 1, e, m);
    } else {
      CarryOn(cfg, b, hand, i, m, e);
      SettleSound(cfg, b, Next(i, |b|), hand.(dist := hand.dist + 1), left - 1, e, m);
    }
  }

  // The hash a rehash works with: the stored one, or the one of the key computed again.
  function RehashHash<K, V>(cfg: Config<K>, x: Bucket<K, V>, useStored: bool): nat
    requires x.Full?
  {
    if useStored then x.hash else cfg.hash(x.key)
  }

  function KeptHash<K>(cfg: Config<K>, hash: nat): nat {
    if cfg.storeHash then Truncate(hash) else 0
  }

  // All entries of `src`, in bucket order, inserted into n empty buckets.
  function Rehashed<K, V>(cfg: Config<K>, src: seq<Bucket<K, V>>, n: nat, useStored: bool): (r: seq<Bucket<K, V>>)
    requires n > 0
    ensures |r| == n
  {
    if |src| == 0 then seq(n, _ => Empty)
    else
      var l := |src| - 1;
      var b := Rehashed(cfg, src[..l], n, useStored);
      if src[l].Empty? then b
      else
        var hash := RehashHash(cfg, src[l], useStored);
        Settle(b, hash % n, Full(0, KeptHash(cfg, hash), src[l].key, src[l].val), n)
  }

  /**
    The stored 32 bits lead to the same bucket and the same stored hash as the full hash, in
    every table of at most 2^32 buckets.
   */
  lemma StoredHashSuffices<K, V>(cfg: Config<K>, x: Bucket<K, V>, n: nat)
    requires cfg.storeHash && x.Full? && x.hash == StoredHash(cfg, x.key)
    requires IsPow2(n) && n <= TRUNCATED
    ensures x.hash % n == cfg.hash(x.key) % n
    ensures KeptHash(cfg, x.hash) == StoredHash(cfg, x.key)
  {
    var k: nat :| n == Pow2(k);
    Pow2_32();
    Pow2StrictMono(32, k);
    TruncationKeepsBucket(cfg.hash(x.key), k, 32);
  }

  lemma RehashEntry<K, V>(cfg: Config<K>, x: Bucket<K, V>, n: nat, useStored: bool)
    requires x.Full? && x.hash == StoredHash(cfg, x.key) && IsPow2(n)
    requires useStored ==> UseStoredHashOnRehash(cfg, n)
    ensures RehashHash(cfg, x, useStored) % n == cfg.hash(x.key) % n
    ensures KeptHash(cfg, RehashHash(cfg, x, useStored)) == StoredHash(cfg, x.key)
  {
    if useStored { StoredHashSuffices(cfg, x, n); }
  }

  /**
    Rehashing from the stored 32-bit hashes builds, bucket for bucket, the table that rehashing
    with freshly computed full hashes builds.
   */
  lemma {:induction false} RehashFromStoredHash<K(!new), V>(cfg: Config<K>, src: seq<Bucket<K, V>>, n: nat)
    requires cfg.storeHash && IsPow2(n) && n <= TRUNCATED
    requires forall i :: 0 <= i < |src| && src[i].Full? ==> src[i].hash == StoredHash(cfg, src[i].key)
    ensures Rehashed(cfg, src, n, true) == Rehashed(cfg, src, n, false)
  {
    if |src| > 0 {
      var l := |src| - 1;
      RehashFromStoredHash(cfg, src[..l], n);
      if src[l].Full? { StoredHashSuffices(cfg, src[l], n); }
    }
  }

  /**
    insert_value_on_rehash: let the entry in hand settle from bucket `start` on, giving way to
    entries further from their home.
   */
  method SettleFrom<K, V>(mask: nat, src: seq<Bucket<K, V>>, start: nat, entry: Bucket<K, V>)
    returns (b: seq<Bucket<K, V>>)
    requires MaskOf(mask, src) && start < |src| && entry.Full? && Count(src) < |src|
    ensures b == Settle(src, start, entry, |src|)
  {
    var i: nat, hand := start, entry;
    b := src;
    ghost var e, left := EmptyAhead(b, start);
    while true
      invariant |b| == |src| && i < |b| && hand.Full? && e < |b| && b[e].Empty?
      invariant left > Cyc(e, i, |b|)
      invariant Settle(b, i, hand, left) == Settle(src, start, entry, |src|)
      decreases left
    {
      if hand.dist > Dist(b[i]) {
        if b[i].Empty? {
          b := b[i := hand];
          return;
        }
        b, hand := b[i := hand], b[i];
      }
      CycNext(e, i, |b|);
      hand := hand.(dist := hand.dist + 1);
      i := NextIndex(i, mask);
      left := left - 1;
    }
  }

  lemma EmptyAhead<K, V>(b: seq<Bucket<K, V>>, i: nat) returns (e: nat, left: nat)
    requires Count(b) < |b| && i < |b|
    ensures e < |b| && b[e].Empty? && left == |b| > Cyc(e, i, |b|)
  {
    e := EmptyExists(b);
    left := |b|;
  }

  // The start of an insertion: a new entry at the bucket where its probe stopped.
  lemma StartCarry<K(!new), V>(cfg: Config<K>, b: seq<Bucket<K, V>>, m: map<K, V>, key: K, val: V, i: nat, d: nat)
    requires Sound(cfg, b, m) && key !in m && |m| < |b|
    requires CanPlace(b, cfg.hash(key) % |b|, i, d)
    ensures Carrying(cfg, b, Full(d, StoredHash(cfg, key), key, val), i, m[key := val])
  {
    var n := |b|;
    var h := cfg.hash(key) % n;
    Take(b, Full(d, StoredHash(cfg, key), key, val), m);
    var e := EmptyExists(b);
    EmptyBounds(b, e, Prev(i, n));
    assert d < n && Cyc(i, h, n) == d;
  }

  /**
    insert_value_impl: steal bucket `start`, then push the displaced entries along until an empty
    bucket takes the last one.  `grow` reports that some entry was displaced too far.
   */
  method Displace<K, V>(mask: nat, src: seq<Bucket<K, V>>, start: nat, entry: Bucket<K, V>)
    returns (b: seq<Bucket<K, V>>, grow: bool)
    requires MaskOf(mask, src) && start < |src| && entry.Full? && Count(src) < |src|
    requires src[start].Full? && entry.dist > src[start].dist
    ensures b == Settle(src, start, entry, |src|) && b[start] == entry
    ensures grow == Crowds(src, start, entry, |src|)
  {
    hide Settle, Crowds, CrowdsFrom;
    var i: nat, hand := start, src[start].(dist := src[start].dist + 1);
    ghost var e, left := EmptyAhead(src, start);
    CycNext(e, i, |src|);
    SettleStep(src, start, entry, left);
    CrowdsStart(src, start, entry, left);
    b := src[start := entry];
    i := NextIndex(i, mask);
    left := left - 1;
    grow := false;
    while !b[i].Empty?
      invariant |b| == |src| && i < |b| && hand.Full? && e < |b| && b[e].Empty? && b[start] == entry
      invariant left > Cyc(e, i, |b|) && Cyc(e, i, |b|) < Cyc(e, start, |b|)
      invariant Settle(b, i, hand, left) == Settle(src, start, entry, |src|)
      invariant (grow || CrowdsFrom(b, i, hand, left)) == Crowds(src, start, entry, |src|)
      decreases left
    {
      SettleStep(b, i, hand, left);
      CrowdsStep(b, i, hand, left);
      if hand.dist > b[i].dist {
        if hand.dist >= DIST_FROM_IDEAL_BUCKET_LIMIT {
          grow := true;
        }
        b, hand := b[i := hand], b[i];
      }
      CycNext(e, i, |b|);
      hand := hand.(dist := hand.dist + 1);
      i := NextIndex(i, mask);
      left := left - 1;
    }
    SettleLast(b, i, hand, left);
    CrowdsStep(b, i, hand, left);
    b := b[i := hand];
  }

  /**
    The end of insert_impl: the entry goes to bucket i in any case, because it was empty or by
    stealing it.
   */
  method Place<K, V>(mask: nat, src: seq<Bucket<K, V>>, i: nat, entry: Bucket<K, V>)
    returns (b: seq<Bucket<K, V>>, grow: bool)
    requires MaskOf(mask, src) && i < |src| && entry.Full? && Count(src) < |src|
    requires entry.dist > Dist(src[i])
    ensures b == Settle(src, i, entry, |src|) && b[i] == entry
    ensures grow == Crowds(src, i, entry, |src|)
  {
    hide Settle, Crowds, Count;
    if src[i].Empty? {
      SettleLast(src, i, entry, |src|);
      CrowdsNobody(src, i, entry, |src|);
      return src[i := entry], false;
    }
    b, grow := Displace(mask, src, i, entry);
  }

  lemma CrowdsNobody<K, V>(b: seq<Bucket<K, V>>, i: nat, entry: Bucket<K, V>, left: nat)
    requires i < |b| && entry.Full? && b[i].Empty?
    ensures !Crowds(b, i, entry, left)
  {}

  // A new entry, d steps from its home.
  function NewEntry<K, V>(cfg: Config<K>, key: K, val: V, d: nat): Bucket<K, V> {
    Full(d, KeptHash(cfg, cfg.hash(key)), key, val)
  }

  // The walk of the entry in hand steals a bucket for an entry far from its home.
  predicate CrowdsFrom<K, V>(b: seq<Bucket<K, V>>, i: nat, hand: Bucket<K, V>, left: nat)
    requires i < |b| && hand.Full?
    decreases left
  {
    if left == 0 || b[i].Empty? then false
    else if hand.dist > b[i].dist then
      hand.dist >= DIST_FROM_IDEAL_BUCKET_LIMIT
      || CrowdsFrom(b[i := hand], Next(i, |b|), b[i].(dist := b[i].dist + 1), left - 1)
    else CrowdsFrom(b, Next(i, |b|), hand.(dist := hand.dist + 1), left - 1)
  }

  // The same for the entries displaced by a new one, which itself is not asked.
  predicate Crowds<K, V>(b: seq<Bucket<K, V>>, i: nat, entry: Bucket<K, V>, left: nat)
    requires i < |b| && entry.Full?
  {
    left > 0 && b[i].Full? && CrowdsFrom(b[i := entry], Next(i, |b|), b[i].(dist := b[i].dist + 1), left - 1)
  }

  // An entry of b gave way to one that is now in its place far from home.
  ghost predicate CrowdedAt<K, V>(b: seq<Bucket<K, V>>, dst: seq<Bucket<K, V>>, p: nat)
    requires |dst| == |b|
  {
    p < |b| && b[p].Full? && dst[p] != b[p] && Dist(dst[p]) >= 4096
  }

  ghost predicate SomeCrowded<K, V>(b: seq<Bucket<K, V>>, dst: seq<Bucket<K, V>>)
    requires |dst| == |b|
  {
    exists p: nat :: CrowdedAt(b, dst, p)
  }

  // Buckets behind the empty one are out of reach of the walk.
  lemma {:induction false} SettleKeeps<K, V>(b: seq<Bucket<K, V>>, i: nat, hand: Bucket<K, V>, left: nat, e: nat,
                                             p: nat)
    requires i < |b| && hand.Full? && e < |b| && b[e].Empty? && left > Cyc(e, i, |b|)
    requires p < |b| && Cyc(p, i, |b|) > Cyc(e, i, |b|)
    ensures Settle(b, i, hand, left)[p] == b[p]
    decreases left
  {
    if b[i].Full? {
      CycNext(e, i, |b|);
      CycNext(p, i, |b|);
      if hand.dist > b[i].dist {
        SettleKeeps(b[i := hand], Next(i, |b|), b[i].(dist := b[i].dist + 1), left - 1, e, p);
      } else {
        SettleKeeps(b, Next(i, |b|), hand.(dist := hand.dist + 1), left - 1, e, p);
      }
    }
  }

  // Stealing bucket i: who is crowded afterwards.
  lemma StealCrowds<K, V>(b: seq<Bucket<K, V>>, i: nat, x: Bucket<K, V>, dst: seq<Bucket<K, V>>)
    requires i < |b| == |dst| && b[i].Full? && x.Full? && x != b[i] && dst[i] == x
    ensures (exists p: nat :: p != i && CrowdedAt(b, dst, p)) <==> SomeCrowded(b[i := x], dst)
    ensures SomeCrowded(b, dst) <==> x.dist >= DIST_FROM_IDEAL_BUCKET_LIMIT || SomeCrowded(b[i := x], dst)
  {
    var b' := b[i := x];
    forall p: nat ensures CrowdedAt(b', dst, p) <==> p != i && CrowdedAt(b, dst, p) {}
    assert CrowdedAt(b, dst, i) <==> x.dist >= DIST_FROM_IDEAL_BUCKET_LIMIT;
    hide CrowdedAt;
    if p: nat :| p != i && CrowdedAt(b, dst, p) { assert CrowdedAt(b', dst, p); }
    if p: nat :| CrowdedAt(b', dst, p) { assert CrowdedAt(b, dst, p) && p != i; }
  }

  lemma {:induction false} CrowdsFromMeans<K, V>(b: seq<Bucket<K, V>>, i: nat, hand: Bucket<K, V>, left: nat, e: nat)
    requires i < |b| && hand.Full? && e < |b| && b[e].Empty? && left > Cyc(e, i, |b|)
    ensures CrowdsFrom(b, i, hand, left) <==> SomeCrowded(b, Settle(b, i, hand, left))
    decreases left
  {
    hide Settle, CrowdedAt, CrowdsFrom, SomeCrowded;
    var n := |b|;
    CrowdsStep(b, i, hand, left);
    if b[i].Empty? {
      SettleLast(b, i, hand, left);
      NobodyCrowded(b, i, hand);
    } else {
      SettleStep(b, i, hand, left);
      CycNext(e, i, n);
      if hand.dist > b[i].dist {
        var b', hand' := b[i := hand], b[i].(dist := b[i].dist + 1);
        CrowdsFromMeans(b', Next(i, n), hand', left - 1, e);
        SettleKeeps(b', Next(i, n), hand', left - 1, e, i);
        StealCrowds(b, i, hand, Settle(b, i, hand, left));
      } else {
        CrowdsFromMeans(b, Next(i, n), hand.(dist := hand.dist + 1), left - 1, e);
      }
    }
  }

  lemma NobodyCrowded<K, V>(b: seq<Bucket<K, V>>, i: nat, x: Bucket<K, V>)
    requires i < |b| && b[i].Empty?
    ensures !SomeCrowded(b, b[i := x])
  {}

  /**
    Growth is asked for exactly when the insertion leaves some entry, other than the new one, in a bucket
    that it took from another and at a distance of at least the limit.
   */
  lemma CrowdsMeans<K, V>(b: seq<Bucket<K, V>>, i: nat, entry: Bucket<K, V>, e: nat)
    requires i < |b| && entry.Full? && entry.dist > Dist(b[i]) && e < |b| && b[e].Empty?
    ensures var dst := Settle(b, i, entry, |b|);
            Crowds(b, i, entry, |b|) <==> exists p: nat :: p != i && CrowdedAt(b, dst, p)
  {
    hide Settle, CrowdedAt, CrowdsFrom;
    var n := |b|;
    if b[i].Empty? {
      SettleLast(b, i, entry, n);
      NobodyCrowded(b, i, entry);
      assert !SomeCrowded(b, Settle(b, i, entry, n));
    } else {
      var b', hand := b[i := entry], b[i].(dist := b[i].dist + 1);
      SettleStep(b, i, entry, n);
      CycNext(e, i, n);
      CrowdsFromMeans(b', Next(i, n), hand, n - 1, e);
      SettleKeeps(b', Next(i, n), hand, n - 1, e, i);
      StealCrowds(b, i, entry, Settle(b, i, entry, n));
    }
  }

  lemma CrowdsStep<K, V>(b: seq<Bucket<K, V>>, i: nat, hand: Bucket<K, V>, left: nat)
    requires i < |b| && hand.Full? && left > 0
    ensures CrowdsFrom(b, i, hand, left) ==
            if b[i].Empty? then false
            else if hand.dist > b[i].dist
            then hand.dist >= DIST_FROM_IDEAL_BUCKET_LIMIT
                 || CrowdsFrom(b[i := hand], Next(i, |b|), b[i].(dist := b[i].dist + 1), left - 1)
            else CrowdsFrom(b, Next(i, |b|), hand.(dist := hand.dist + 1), left - 1)
  {}

  lemma CrowdsStart<K, V>(b: seq<Bucket<K, V>>, i: nat, entry: Bucket<K, V>, left: nat)
    requires i < |b| && entry.Full? && left > 0 && b[i].Full?
    ensures Crowds(b, i, entry, left) == CrowdsFrom(b[i := entry], Next(i, |b|), b[i].(dist := b[i].dist + 1), left - 1)
  {}

  lemma SettleLast<K, V>(b: seq<Bucket<K, V>>, i: nat, hand: Bucket<K, V>, left: nat)
    requires i < |b| && hand.Full? && left > 0 && b[i].Empty?
    ensures Settle(b, i, hand, left) == b[i := hand]
  {}

  const DIST_FROM_IDEAL_BUCKET_LIMIT: nat := 4096

  predicate UseStoredHashOnRehash<K>(cfg: Config<K>, bucketCount: nat) {
    cfg.storeHash && 0 < bucketCount <= TRUNCATED
  }

  /**
    The loop of rehash_impl: insert every entry of the old buckets into the empty new ones.
   */
  method Fill<K(!new), V>(cfg: Config<K>, mask: nat, blank: seq<Bucket<K, V>>, src: seq<Bucket<K, V>>,
                          ghost m: map<K, V>)
    returns (b: seq<Bucket<K, V>>)
    requires MaskOf(mask, blank) && blank == seq(|blank|, _ => Empty)
    requires Sound(cfg, src, m) && if |blank| == 0 then m == map[] else |m| < |blank|
    ensures |b| == |blank| && Sound(cfg, b, m)
    ensures |b| > 0 ==> b == Rehashed(cfg, src, |b|, false)
  {
    hide Holds, AllPlaced, Ordered, CanPlace, Settle, Rehashed, KeptHash, RehashHash;
    b := blank;
    var useStored := UseStoredHashOnRehash(cfg, |b|);
    ghost var n := |b|;
    ghost var copied: map<K, V> := map[];
    BlankSound(cfg, b);
    NothingCopied(cfg, src, n);
    for i := 0 to |src|
      invariant |b| == n && Sound(cfg, b, copied) && Holds(src[..i], Empty, copied)
      invariant n > 0 ==> b == Rehashed(cfg, src[..i], n, false)
    {
      if src[i].Full? {
        AllPlacedAt(cfg, src, i);
        FillStep(src, m, copied, i);
        RehashEntry(cfg, src[i], n, useStored);
        var hash := RehashHash(cfg, src[i], useStored);
        var home := BucketForHash(hash, mask);
        var entry := Full(0, KeptHash(cfg, hash), src[i].key, src[i].val);
        RehashedStep(cfg, src, i, n, home, entry);
        HomeCanPlace(b, home);
        InsertSound(cfg, b, copied, entry, home);
        SoundCount(cfg, b, copied);
        b := SettleFrom(mask, b, home, entry);
        copied := copied[entry.key := entry.val];
      } else {
        HoldsAppend(src[..i], src[i], copied);
        assert src[..i + 1] == src[..i] + [src[i]];
        if n > 0 { RehashedSkip(cfg, src, i, n); }
      }
    }
    assert src[..|src|] == src;
    HoldsUnique(src, m, copied);
  }

  lemma NothingCopied<K(!new), V>(cfg: Config<K>, src: seq<Bucket<K, V>>, n: nat)
    ensures Holds(src[..0], Empty, map[])
    ensures n > 0 ==> Rehashed(cfg, src[..0], n, false) == seq(n, _ => Empty)
  {}

  lemma RehashedStep<K(!new), V>(cfg: Config<K>, src: seq<Bucket<K, V>>, i: nat, n: nat, home: nat, entry: Bucket<K, V>)
    requires i < |src| && src[i].Full? && n > 0 && home == cfg.hash(src[i].key) % n
    requires entry == Full(0, StoredHash(cfg, src[i].key), src[i].key, src[i].val)
    ensures Rehashed(cfg, src[..i + 1], n, false) == Settle(Rehashed(cfg, src[..i], n, false), home, entry, n)
  {
    assert src[..i + 1][..i] == src[..i];
  }

  lemma RehashedSkip<K(!new), V>(cfg: Config<K>, src: seq<Bucket<K, V>>, i: nat, n: nat)
    requires i < |src| && src[i].Empty? && n > 0
    ensures Rehashed(cfg, src[..i + 1], n, false) == Rehashed(cfg, src[..i], n, false)
  {
    assert src[..i + 1][..i] == src[..i];
  }

  lemma SoundCount<K(!new), V>(cfg: Config<K>, b: seq<Bucket<K, V>>, m: map<K, V>)
    requires Sound(cfg, b, m)
    ensures Count(b) == |m|
  {}

  lemma AllPlacedAt<K(!new), V>(cfg: Config<K>, b: seq<Bucket<K, V>>, i: nat)
    requires AllPlaced(cfg, b) && i < |b| && b[i].Full?
    ensures b[i].hash == StoredHash(cfg, b[i].key)
  {
    assert Placed(cfg, |b|, b[i], i);
  }

  lemma HomeCanPlace<K, V>(b: seq<Bucket<K, V>>, h: nat)
    requires h < |b|
    ensures CanPlace(b, h, h, 0)
  {}

  // A new entry that settles from the bucket where its probe stopped extends the finite map.
  lemma InsertSound<K(!new), V>(cfg: Config<K>, b: seq<Bucket<K, V>>, m: map<K, V>, entry: Bucket<K, V>, i: nat)
    requires Sound(cfg, b, m) && |m| < |b| && entry.Full? && entry.key !in m
    requires entry.hash == StoredHash(cfg, entry.key)
    requires CanPlace(b, cfg.hash(entry.key) % |b|, i, entry.dist)
    ensures i < |b| && Sound(cfg, Settle(b, i, entry, |b|), m[entry.key := entry.val])
  {
    var m' := m[entry.key := entry.val];
    assert SettlesSoundly(cfg, b, i, entry, |b|, m') by {
      StartCarry(cfg, b, m, entry.key, entry.val, i, entry.dist);
      var e := EmptyExists(b);
      SettleSound(cfg, b, i, entry, |b|, e, m');
    }
    SettlesSoundlyMeans(cfg, b, i, entry, |b|, m');
  }

  lemma BlankSound<K(!new), V>(cfg: Config<K>, b: seq<Bucket<K, V>>)
    requires b == seq(|b|, _ => Empty)
    ensures Sound(cfg, b, map[])
  {
    AllEmptyCount(b);
    assert forall i :: 0 <= i < |b| ==> OrderedAt(b, i);
  }
}
