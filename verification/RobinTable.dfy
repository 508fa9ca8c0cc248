/**
  The Robin Hood hash table: cyclic linear probing with stored distances, early-exit lookup,
  displacement chains, backward-shift deletion and rehash driven by stored hashes.

  `model` is the finite map the table stands for; every operation is specified on it.
 */
module RobinTable {
  import opened Bits
  import opened GrowthPolicy
  import opened LoadFactor
  import opened Options
  import opened FiniteFacts
  import opened RobinBuckets
  import opened RobinLoops
  import RobinErase
  import RobinGuaranteed

  datatype InsertResult = Inserted(pos: nat) | Present(pos: nat) | LengthError

  // Overwriting the value of a stored key.
  lemma AssignHolds<K, V>(b: seq<Bucket<K, V>>, m: map<K, V>, i: nat, v: V)
    requires Holds(b, Empty, m) && i < |b| && b[i].Full?
    ensures Holds(b[i := b[i].(val := v)], Empty, m[b[i].key := v])
  {
    hide Holds;
    var x := b[i].(val := v);
    var b1, m1 := b[i := Empty], m - {x.key};
    Exchange(b, Empty, m, i, Empty, b[i]);
    Drop(b1, b[i], m);
    Take(b1, x, m1);
    Exchange(b1, x, m1[x.key := v], i, x, Empty);
    assert b1[i := x] == b[i := x];
    assert m1[x.key := v] == m[x.key := v];
  }

  lemma AssignSound<K(!new), V>(cfg: Config<K>, b: seq<Bucket<K, V>>, m: map<K, V>, i: nat, v: V)
    requires Sound(cfg, b, m) && i < |b| && b[i].Full?
    ensures Sound(cfg, b[i := b[i].(val := v)], m[b[i].key := v])
  {
    hide Holds;
    var b' := b[i := b[i].(val := v)];
    AssignHolds(b, m, i, v);
    forall j | 0 <= j < |b'| ensures OrderedAt(b', j) && Placed(cfg, |b'|, b'[j], j) {
      assert OrderedAt(b, j) && Placed(cfg, |b|, b[j], j);
    }
  }

  lemma SoundLookup<K(!new), V>(cfg: Config<K>, b: seq<Bucket<K, V>>, m: map<K, V>, k: K)
    requires Sound(cfg, b, m)
    ensures HasKey(b, k) <==> k in m
    ensures forall i :: 0 <= i < |b| && b[i].Full? && b[i].key == k ==> b[i].val == m[k]
    ensures forall i, j ::
              0 <= i < |b| && 0 <= j < |b| && b[i].Full? && b[j].Full? && b[i].key == k && b[j].key == k ==> i == j
  {}

  // The bucket of a key, or the number of buckets.
  ghost function PosIn<K, V>(b: seq<Bucket<K, V>>, k: K): (p: nat)
    ensures p <= |b| && (p < |b| ==> b[p].Full? && b[p].key == k)
    ensures p < |b| <==> HasKey(b, k)
  {
    if HasKey(b, k) then
      var i :| 0 <= i < |b| && b[i].Full? && b[i].key == k;
      i
    else |b|
  }

  lemma EmptySound<K(!new), V>(cfg: Config<K>)
    ensures Sound<K, V>(cfg, [], map[])
  {}

  class Table<K(==, !new), V> {
    const cfg: Config<K>
    const growthFactor: nat
    const maxBuckets: nat             // what the bucket vector can hold

    var buckets: seq<Bucket<K, V>>
    var mask: nat
    var nbElements: nat
    var loadThreshold: nat
    var minLoad: real
    var maxLoad: real
    var growOnNextInsert: bool
    var tryShrinkOnNextInsert: bool

    ghost var model: map<K, V>

    // Everything but the probe invariant and the contents.
    ghost predicate Shape()
      reads this
    {
      && WellConfigured(cfg)
      && IsPow2(growthFactor) && growthFactor >= 2 && maxBuckets <= MAX_BUCKET_COUNT
      && 0.2 <= maxLoad <= 0.95 && 0.0 <= minLoad <= 0.15
      && MaskOf(mask, buckets)
      && loadThreshold == Threshold(|buckets|, maxLoad)
      && nbElements == |model|
      && (nbElements < |buckets| || nbElements == |buckets| == 0)
    }

    ghost predicate Valid()
      reads this
    {
      Shape() && Sound(cfg, buckets, model)
    }

    // next_bucket_count()
    function NextBucketCount(): nat
      reads this`mask
    {
      (mask + 1) * growthFactor
    }

    /**
      An empty table with at least bucketCount buckets.
     */
    constructor (cfg: Config<K>, growthFactor: nat, maxBuckets: nat, bucketCount: nat, minLoad: real, maxLoad: real)
      requires WellConfigured(cfg)
      requires IsPow2(growthFactor) && growthFactor >= 2 && maxBuckets <= MAX_BUCKET_COUNT
      requires !TooMany(bucketCount, maxBuckets)
      ensures Valid() && model == map[]
      ensures this.cfg == cfg && this.growthFactor == growthFactor && this.maxBuckets == maxBuckets
      ensures |buckets| == (if bucketCount == 0 then 0 else RoundUp(bucketCount))
      ensures buckets == seq(|buckets|, _ => Empty)
      ensures this.minLoad == Clamp(minLoad, 0.0, 0.15) && this.maxLoad == Clamp(maxLoad, 0.2, 0.95)
      ensures !growOnNextInsert && !tryShrinkOnNextInsert
    {
      hide Sound;
      this.cfg, this.growthFactor, this.maxBuckets := cfg, growthFactor, maxBuckets;
      var n := 0;
      assert Pow2(0) == 1;
      if bucketCount > 0 {
        n := RoundUpToPowerOfTwo(bucketCount);
      }
      buckets := seq(n, _ => Empty);
      mask := if n == 0 then 0 else n - 1;
      nbElements := 0;
      growOnNextInsert, tryShrinkOnNextInsert := false, false;
      this.minLoad := Clamp(minLoad, 0.0, 0.15);
      this.maxLoad := Clamp(maxLoad, 0.2, 0.95);
      loadThreshold := Threshold(n, Clamp(maxLoad, 0.2, 0.95));
      model := map[];
      new;
      BlankSound(cfg, buckets);
    }

    /**
      Construction as a user calls it: an empty table, or length_error for too many buckets.
     */
    static method Create(cfg: Config<K>, growthFactor: nat, maxBuckets: nat, bucketCount: nat, minLoad: real,
                         maxLoad: real)
      returns (t: Option<Table<K, V>>)
      requires WellConfigured(cfg)
      requires IsPow2(growthFactor) && growthFactor >= 2 && maxBuckets <= MAX_BUCKET_COUNT
      ensures t.None? <==> TooMany(bucketCount, maxBuckets)
      ensures t.Some? ==> fresh(t.value) && t.value.Valid() && t.value.model == map[]
      ensures t.Some? ==> t.value.cfg == cfg && t.value.growthFactor == growthFactor && t.value.maxBuckets == maxBuckets
      ensures t.Some? ==> |t.value.buckets| == Rounded(bucketCount)
      ensures t.Some? ==> t.value.minLoad == Clamp(minLoad, 0.0, 0.15) && t.value.maxLoad == Clamp(maxLoad, 0.2, 0.95)
    {
      hide Sound, TooMany, RoundUp;
      if TooMany(bucketCount, maxBuckets) {
        return None;
      }
      var table := new Table<K, V>(cfg, growthFactor, maxBuckets, bucketCount, minLoad, maxLoad);
      t := Some(table);
    }

    // The bucket of a key, or the end position.
    ghost function PosOf(k: K): (p: nat)
      reads this
      ensures p < |buckets| ==> buckets[p].Full? && buckets[p].key == k
      ensures p < |buckets| <==> HasKey(buckets, k)
    {
      PosIn(buckets, k)
    }

    /**
      find: the position of the key when the map has it, the end position otherwise.
     */
    method Find(key: K) returns (pos: nat)
      requires Valid()
      ensures pos == PosOf(key)
      ensures pos < |buckets| <==> key in model
      ensures pos < |buckets| ==> buckets[pos].val == model[key]
    {
      hide Holds, AllPlaced, Ordered;
      var found, i, d := Probe(cfg, mask, buckets, key);
      SoundLookup(cfg, buckets, model, key);
      pos := if found then i else |buckets|;
    }

    /**
      find_guaranteed answers as find does if and only if AnswersAsFind; with at most 2^31 buckets, if and
      only if the key is present or its stored hash does not match exactly one entry on the probe path.
     */
    method FindGuaranteed(key: K) returns (r: RobinGuaranteed.Lookup)
      requires Valid() && cfg.lookupHash
      ensures RobinGuaranteed.AsFind(buckets, key, r) <==> RobinGuaranteed.AnswersAsFind(cfg, buckets, key)
      ensures RobinGuaranteed.AsFind(buckets, key, r) ==>
                r == (if key in model then RobinGuaranteed.Hit(PosOf(key)) else RobinGuaranteed.End)
      ensures |RobinGuaranteed.Candidates(cfg, buckets, key)| == 1 ==>
                var i := ToInt32(RobinGuaranteed.Candidates(cfg, buckets, key)[0]);
                r == if 0 <= i < |buckets| then RobinGuaranteed.Hit(i) else RobinGuaranteed.Stray
      ensures |buckets| <= INT_LIMIT ==>
                (RobinGuaranteed.AsFind(buckets, key, r) <==>
                  key in model || |RobinGuaranteed.Candidates(cfg, buckets, key)| != 1)
    {
      hide AllPlaced, Ordered, RobinGuaranteed.Candidates, RobinGuaranteed.AnswersAsFind, Count;
      r := RobinGuaranteed.FindGuaranteed(cfg, mask, buckets, key);
      SoundLookup(cfg, buckets, model, key);
      if |buckets| <= INT_LIMIT { RobinGuaranteed.UpTo31Bits(cfg, buckets, key); }
    }

    // Requested bucket counts that leave room for what is stored.
    ghost predicate Fits(count: nat)
      reads this
    {
      if count == 0 then nbElements == 0 else nbElements < RoundUp(count)
    }

    /**
      rehash_impl: the same finite map in RoundUp(count) buckets, filled as with full hashes.
     */
    method RehashImpl(count: nat)
      requires Valid() && !TooMany(count, maxBuckets) && Fits(count)
      modifies this
      ensures Valid() && model == old(model)
      ensures |buckets| == (if count == 0 then 0 else RoundUp(count))
      ensures minLoad == old(minLoad) && maxLoad == old(maxLoad)
      ensures !growOnNextInsert && !tryShrinkOnNextInsert
      ensures count > 0 ==> buckets == Rehashed(cfg, old(buckets), |buckets|, false)
    {
      hide Sound, Rehashed, RoundUp;
      NoKeys(model);
      var table: Table<K, V> := new Table<K, V>(cfg, growthFactor, maxBuckets, count, minLoad, maxLoad);
      var filled := Fill(cfg, table.mask, table.buckets, buckets, model);
      buckets, mask, loadThreshold := filled, table.mask, table.loadThreshold;
      growOnNextInsert, tryShrinkOnNextInsert := false, false;
    }

    // A table whose counters are about to change: the bucket count a growing insert asks for.
    ghost predicate WantsGrowth()
      reads this
    {
      growOnNextInsert || nbElements >= loadThreshold
    }

    // load_factor() < m_min_load_factor
    predicate BelowMinLoad()
      reads this`buckets, this`nbElements, this`minLoad
    {
      if |buckets| == 0 then 0.0 < minLoad else nbElements as real / |buckets| as real < minLoad
    }

    // An erase asked for a smaller table, and the load allows it.
    predicate WantsShrink()
      reads this
    {
      tryShrinkOnNextInsert && minLoad != 0.0 && BelowMinLoad()
    }

    // How many buckets there are once a new key has been inserted.
    ghost function InsertBuckets(): nat
      reads this
      requires 0.2 <= maxLoad <= 0.95
    {
      if WantsGrowth() then RoundUp(NextBucketCount())
      else if WantsShrink() then RoundUp(ReserveCount(nbElements + 1))
      else |buckets|
    }

    // The count reserve(count) passes to rehash_impl.
    function ReserveCount(count: nat): (r: nat)
      reads this`nbElements, this`maxLoad
      requires 0.2 <= maxLoad <= 0.95
      ensures r >= BucketsFor(count, maxLoad) && r >= BucketsFor(nbElements, maxLoad)
    {
      RehashCount(BucketsFor(count, maxLoad))
    }

    // The count rehash(count) passes to rehash_impl.
    function RehashCount(count: nat): (r: nat)
      reads this`nbElements, this`maxLoad
      requires 0.2 <= maxLoad <= 0.95
      ensures r >= count && r >= BucketsFor(nbElements, maxLoad)
    {
      var least := BucketsFor(nbElements, maxLoad);
      if count < least then least else count
    }

    // The next insert of a new key will ask for more buckets than the vector can hold.
    ghost predicate GrowthFails()
      reads this
      requires 0.2 <= maxLoad <= 0.95
    {
      if WantsGrowth() then TooMany(NextBucketCount(), maxBuckets)
      else WantsShrink() && TooMany(ReserveCount(nbElements + 1), maxBuckets)
    }

    // Growing at least doubles the bucket count.
    // Growing multiplies the bucket count by the growth factor.
    lemma NextIsMultiple()
      requires Valid()
      ensures NextBucketCount() == (if |buckets| == 0 then growthFactor else |buckets| * growthFactor)
      ensures RoundUp(NextBucketCount()) == NextBucketCount()
    {
      hide Sound, Threshold, IsPow2, RoundUp;
      ProductOfPow2(mask + 1, growthFactor);
      RoundUpOfPow2(NextBucketCount());
    }

    lemma GrowsEnough()
      requires Shape()
      ensures NextBucketCount() >= 2 * (mask + 1)
      ensures RoundUp(NextBucketCount()) >= NextBucketCount()
    {
      MulMono(mask + 1, 2, growthFactor);
    }

    /**
      rehash_on_extreme_load: grow when asked to or when the load threshold is reached, shrink when
      an erase left the table nearly empty.  Afterwards there is room for one more entry.
     */
    method RehashOnExtremeLoad() returns (rehashed: bool, ok: bool)
      requires Valid()
      modifies this
      ensures Valid() && model == old(model)
      ensures ok == !old(GrowthFails())
      ensures ok ==> nbElements + 1 < |buckets| && !tryShrinkOnNextInsert
      ensures rehashed <==> ok && old(WantsGrowth() || WantsShrink())
      ensures rehashed ==>
                |buckets| == old(RoundUp(if WantsGrowth() then NextBucketCount() else ReserveCount(nbElements + 1)))
      ensures rehashed ==> !growOnNextInsert
      ensures !rehashed ==> buckets == old(buckets) && mask == old(mask) && growOnNextInsert == old(growOnNextInsert)
      ensures !ok ==> tryShrinkOnNextInsert ==> old(tryShrinkOnNextInsert)
      ensures minLoad == old(minLoad) && maxLoad == old(maxLoad)
    {
      hide Sound, Threshold, BucketsFor, RoundUp, NextBucketCount, TooMany, BelowMinLoad;
      ThresholdFacts(|buckets|, maxLoad);
      if growOnNextInsert || nbElements >= loadThreshold {
        var count := NextBucketCount();
        GrowsEnough();
        if TooMany(count, maxBuckets) {
          return false, false;
        }
        RehashImpl(count);
        return true, true;
      }
      if tryShrinkOnNextInsert {
        tryShrinkOnNextInsert := false;
        if minLoad != 0.0 && BelowMinLoad() {
          BucketsForFacts(nbElements + 1, maxLoad);
          var count := ReserveCount(nbElements + 1);
          RoundUpAbove(count);
          if TooMany(count, maxBuckets) {
            return false, false;
          }
          RehashImpl(count);
          return true, true;
        }
      }
      return false, true;
    }

    /**
      insert: a present key is left as it is; a new key is added at the returned position.
     */
    method Insert(key: K, val: V) returns (r: InsertResult)
      requires Valid()
      modifies this
      ensures Valid()
      ensures r.LengthError? <==> key !in old(model) && old(GrowthFails())
      ensures r.Present? <==> key in old(model)
      ensures model == if r.Inserted? then old(model)[key := val] else old(model)
      ensures !r.LengthError? ==> r.pos < |buckets| && buckets[r.pos].Full? && buckets[r.pos].key == key
                                  && buckets[r.pos].val == model[key]
      ensures minLoad == old(minLoad) && maxLoad == old(maxLoad)
      ensures r.Present? ==> |buckets| == |old(buckets)| && growOnNextInsert == old(growOnNextInsert)
                             && tryShrinkOnNextInsert == old(tryShrinkOnNextInsert)
      ensures r.LengthError? ==> |buckets| == |old(buckets)| && growOnNextInsert == old(growOnNextInsert)
                                 && (tryShrinkOnNextInsert ==> old(tryShrinkOnNextInsert))
      ensures r.Inserted? ==> !tryShrinkOnNextInsert && (growOnNextInsert ==> |model| > DIST_FROM_IDEAL_BUCKET_LIMIT)
      ensures r.Inserted? ==> |buckets| == old(InsertBuckets())
    {
      hide Sound, GrowthFails, CanPlace, Crowds, RoundUp, WantsShrink, ReserveCount, NextBucketCount;
      SoundParts(cfg, buckets, model);
      SoundLookup(cfg, buckets, model, key);
      var found, i, d := Probe(cfg, mask, buckets, key);
      if found {
        return Present(i);
      }
      var rehashed, ok := RehashOnExtremeLoad();
      if !ok {
        return LengthError;
      }
      if rehashed {
        SoundParts(cfg, buckets, model);
        i, d := ProbeAgain(cfg, mask, buckets, key);
      }
      PlaceNew(i, d, key, val);
      return Inserted(i);
    }

    // The end of insert_impl: the entry goes to bucket i in any case, because it was empty or by
    // stealing it.
    method PlaceNew(i: nat, d: nat, key: K, val: V)
      requires Valid() && key !in model && nbElements + 1 < |buckets|
      requires StopsAt(cfg, buckets, key, i, d)
      modifies this`buckets, this`nbElements, this`growOnNextInsert, this`model
      ensures Valid() && model == old(model)[key := val]
      ensures i < |buckets| == |old(buckets)|
      ensures buckets[i].Full? && buckets[i].key == key && buckets[i].val == val
      ensures growOnNextInsert == old(growOnNextInsert || Crowds(buckets, i, NewEntry(cfg, key, val, d), |buckets|))
      ensures growOnNextInsert ==> old(growOnNextInsert) || |model| > DIST_FROM_IDEAL_BUCKET_LIMIT
    {
      hide Sound, Settle, CanPlace, Crowds;
      var entry := NewEntry(cfg, key, val, d);
      InsertSound(cfg, buckets, model, entry, i);
      SoundCount(cfg, buckets, model);
      CrowdsMany(cfg, buckets, i, entry, model[key := val]);
      SettleLength(buckets, i, entry, |buckets|);
      AddKey(model, key, val);
      var b, grow := Place(mask, buckets, i, entry);
      buckets := b;
      nbElements := nbElements + 1;
      growOnNextInsert := growOnNextInsert || grow;
      model := model[key := val];
    }

    /**
      insert_or_assign: afterwards the key has the value, unless the table cannot grow.
     */
    method InsertOrAssign(key: K, val: V) returns (r: InsertResult)
      requires Valid()
      modifies this
      ensures Valid()
      ensures r.LengthError? <==> key !in old(model) && old(GrowthFails())
      ensures r.Present? <==> key in old(model)
      ensures model == if r.LengthError? then old(model) else old(model)[key := val]
      ensures minLoad == old(minLoad) && maxLoad == old(maxLoad)
      ensures r.Present? ==> |buckets| == |old(buckets)| && growOnNextInsert == old(growOnNextInsert)
                             && tryShrinkOnNextInsert == old(tryShrinkOnNextInsert)
      ensures r.LengthError? ==> |buckets| == |old(buckets)| && growOnNextInsert == old(growOnNextInsert)
                                 && (tryShrinkOnNextInsert ==> old(tryShrinkOnNextInsert))
      ensures r.Inserted? ==> !tryShrinkOnNextInsert && (growOnNextInsert ==> |model| > DIST_FROM_IDEAL_BUCKET_LIMIT)
      ensures r.Inserted? ==> |buckets| == old(InsertBuckets())
    {
      hide Sound, GrowthFails, InsertBuckets;
      r := Insert(key, val);
      if r.Present? {
        AssignSound(cfg, buckets, model, r.pos, val);
        AssignKey(model, key, val);
        buckets := buckets[r.pos := buckets[r.pos].(val := val)];
        model := model[key := val];
      }
    }

    /**
      erase(key): 1 and the key is gone, or 0 and nothing changed.
     */
    method EraseKey(key: K) returns (n: nat)
      requires Valid()
      modifies this
      ensures Valid()
      ensures n == if key in old(model) then 1 else 0
      ensures model == old(model) - {key}
      ensures tryShrinkOnNextInsert == (old(tryShrinkOnNextInsert) || n == 1)
      ensures |buckets| == |old(buckets)| && growOnNextInsert == old(growOnNextInsert)
      ensures minLoad == old(minLoad) && maxLoad == old(maxLoad)
    {
      hide Sound;
      var pos := Find(key);
      RemoveKey(model, key);
      if pos == |buckets| {
        return 0;
      }
      EraseBucket(pos);
      tryShrinkOnNextInsert := true;
      return 1;
    }

    method EraseBucket(pos: nat)
      requires Valid() && pos < |buckets| && buckets[pos].Full?
      modifies this`buckets, this`nbElements, this`model
      ensures Valid() && |buckets| == |old(buckets)|
      ensures old(buckets[pos].key) in old(model) && model == old(model) - {old(buckets[pos].key)}
    {
      hide Sound;
      SoundLookup(cfg, buckets, model, buckets[pos].key);
      RemoveKey(model, buckets[pos].key);
      var b := RobinErase.EraseFromBucket(cfg, mask, buckets, pos, model);
      model := model - {buckets[pos].key};
      buckets := b;
      nbElements := nbElements - 1;
    }

    /**
      erase(pos): the entry at pos goes; the returned position is the first entry at or after pos.
     */
    method EraseAt(pos: nat) returns (next: nat)
      requires Valid() && pos < |buckets| && buckets[pos].Full?
      modifies this
      ensures Valid() && model == old(model) - {old(buckets[pos].key)}
      ensures pos <= next <= |buckets| == |old(buckets)|
      ensures next < |buckets| ==> buckets[next].Full?
      ensures forall i :: pos <= i < next ==> buckets[i].Empty?
      ensures tryShrinkOnNextInsert
      ensures minLoad == old(minLoad) && maxLoad == old(maxLoad) && growOnNextInsert == old(growOnNextInsert)
    {
      hide Sound;
      EraseBucket(pos);
      next := pos;
      while next < |buckets| && buckets[next].Empty?
        invariant pos <= next <= |buckets|
        invariant forall i :: pos <= i < next ==> buckets[i].Empty?
        modifies {}
      {
        next := next + 1;
      }
      tryShrinkOnNextInsert := true;
    }

    /**
      erase(first, last): exactly the entries of the range go, and the entry that was at `last` is
      at the returned position.  The table is valid again if and only if the range passes Restores.
     */
    method EraseRange(first: nat, last: nat) returns (ret: nat)
      requires Valid() && first <= last <= |buckets|
      requires (first < |buckets| ==> buckets[first].Full?) && (last < |buckets| ==> buckets[last].Full?)
      modifies this
      ensures Shape() && |buckets| == |old(buckets)|
      ensures AllPlaced(cfg, buckets) && Holds(buckets, Empty, model)
      ensures model == old(RobinErase.Rest(buckets, first, last, model))
      ensures if last == |buckets| then ret == last else ret < |buckets| && SameEntry(buckets[ret], old(buckets[last]))
      ensures Valid() <==> first == last || old(RobinErase.Restores(buckets, first, last))
      ensures tryShrinkOnNextInsert == (old(tryShrinkOnNextInsert) || first < last)
      ensures minLoad == old(minLoad) && maxLoad == old(maxLoad) && growOnNextInsert == old(growOnNextInsert)
    {
      hide Holds, AllPlaced, Ordered, RobinErase.Rest, RobinErase.Restores;
      if first == last {
        RobinErase.RestNone(buckets, first, model);
        return first;
      }
      var b, r, erased := RobinErase.EraseRange(cfg, buckets, first, last, model);
      model := RobinErase.Rest(buckets, first, last, model);
      buckets := b;
      nbElements := nbElements - erased;
      tryShrinkOnNextInsert := true;
      return r;
    }

    /**
      clear: the empty map; with a positive minimum load factor the buckets are released as well.
     */
    method Clear()
      requires Valid()
      modifies this
      ensures Valid() && model == map[] && !growOnNextInsert
      ensures if minLoad > 0.0 then buckets == [] else |buckets| == |old(buckets)|
      ensures minLoad == old(minLoad) && maxLoad == old(maxLoad)
      ensures tryShrinkOnNextInsert == (minLoad == 0.0 && old(tryShrinkOnNextInsert))
    {
      hide Sound;
      if minLoad > 0.0 {
        ClearAndShrink();
      } else {
        buckets := seq(|buckets|, _ => Empty);
        BlankSound(cfg, buckets);
        nbElements := 0;
        growOnNextInsert := false;
        model := map[];
      }
    }

    method ClearAndShrink()
      requires Valid()
      modifies this
      ensures Valid() && model == map[] && buckets == [] && !growOnNextInsert && !tryShrinkOnNextInsert
      ensures minLoad == old(minLoad) && maxLoad == old(maxLoad)
    {
      hide Sound;
      buckets := [];
      mask := 0;
      nbElements := 0;
      loadThreshold := 0;
      growOnNextInsert, tryShrinkOnNextInsert := false, false;
      model := map[];
      assert Pow2(0) == 1;
      EmptySound<K, V>(cfg);
    }

    /**
      rehash(count): the same finite map in a table of at least count buckets, or length_error.
     */
    method Rehash(count: nat) returns (ok: bool)
      requires Valid()
      modifies this
      ensures Valid() && model == old(model)
      ensures ok == !old(TooMany(RehashCount(count), maxBuckets))
      ensures ok ==> |buckets| >= count
      ensures ok ==> |buckets| == old(Rounded(RehashCount(count)))
      ensures ok ==> !growOnNextInsert && !tryShrinkOnNextInsert
      ensures !ok ==> unchanged(this)
      ensures minLoad == old(minLoad)
      ensures maxLoad == old(maxLoad)
    {
      hide Sound, BucketsFor;
      BucketsForFacts(nbElements, maxLoad);
      var c := RehashCount(count);
      if TooMany(c, maxBuckets) {
        return false;
      }
      RehashImpl(c);
      return true;
    }

    method Reserve(count: nat) returns (ok: bool)
      requires Valid()
      modifies this
      ensures Valid() && model == old(model)
      ensures ok == !old(TooMany(ReserveCount(count), maxBuckets))
      ensures ok ==> EnoughFor(|buckets|, maxLoad, count)
      ensures ok ==> |buckets| == old(Rounded(ReserveCount(count)))
      ensures ok ==> !growOnNextInsert && !tryShrinkOnNextInsert
      ensures !ok ==> unchanged(this)
      ensures minLoad == old(minLoad) && maxLoad == old(maxLoad)
    {
      hide Sound, BucketsFor, EnoughFor, Threshold, RoundUp;
      var c := BucketsFor(count, maxLoad);
      ok := Rehash(c);
      if ok { MoreIsEnough(|buckets|, maxLoad, count); }
    }

    method SetMinLoad(ml: real)
      requires Valid()
      modifies this`minLoad
      ensures Valid() && minLoad == Clamp(ml, 0.0, 0.15)
      ensures (ml >= 0.15 ==> minLoad == 0.15) && (ml <= 0.0 ==> minLoad == 0.0)
      ensures 0.0 <= ml <= 0.15 ==> minLoad == ml
    {
      hide Sound;
      minLoad := Clamp(ml, 0.0, 0.15);
    }

    method SetMaxLoad(ml: real)
      requires Valid()
      modifies this`maxLoad, this`loadThreshold
      ensures Valid() && maxLoad == Clamp(ml, 0.2, 0.95)
      ensures (ml >= 0.95 ==> maxLoad == 0.95) && (ml <= 0.2 ==> maxLoad == 0.2)
      ensures 0.2 <= ml <= 0.95 ==> maxLoad == ml
    {
      hide Sound;
      maxLoad := Clamp(ml, 0.2, 0.95);
      loadThreshold := Threshold(|buckets|, maxLoad);
    }
  }

  lemma SettleLength<K, V>(b: seq<Bucket<K, V>>, i: nat, hand: Bucket<K, V>, left: nat)
    requires i < |b| && hand.Full?
    ensures |Settle(b, i, hand, left)| == |b|
  {}

  lemma NoKeys<K, V>(m: map<K, V>)
    ensures |m| == 0 ==> m == map[]
  {
    if |m| == 0 { assert m.Keys == {}; }
  }

  lemma SoundParts<K(!new), V>(cfg: Config<K>, b: seq<Bucket<K, V>>, m: map<K, V>)
    requires Sound(cfg, b, m)
    ensures AllPlaced(cfg, b) && Ordered(b)
  {}

  lemma ThresholdFacts(n: nat, f: real)
    requires 0.2 <= f <= 0.95
    ensures n > 0 ==> Threshold(n, f) < n
    ensures n == 0 ==> Threshold(n, f) == 0
  {}

  // ---------- entries far from home ----------

  // The buckets reached from h in at most d steps.
  ghost function Reached(h: nat, d: nat, n: nat): (r: set<nat>)
    requires h < n && d < n
    ensures |r| == d + 1
    ensures forall i: nat :: i in r <==> i < n && Cyc(i, h, n) <= d
  {
    if d == 0 then {h} else Reached(h, d - 1, n) + {Adv(h, d, n)}
  }

  lemma {:induction false} CountAtLeast<K, V>(b: seq<Bucket<K, V>>, s: set<nat>)
    requires forall i: nat :: i in s ==> i < |b| && b[i].Full?
    ensures Count(b) >= |s|
    decreases |b|
  {
    if b == [] {
      assert s == {};
    } else {
      var l := |b| - 1;
      CountAtLeast(b[..l], s - {l});
    }
  }

  // An entry d steps from its home has at least d others before it.
  lemma FarMeansMany<K(!new), V>(cfg: Config<K>, b: seq<Bucket<K, V>>, m: map<K, V>, p: nat)
    requires Sound(cfg, b, m) && p < |b| && b[p].Full?
    ensures |m| > b[p].dist
  {
    hide Ordered, Holds;
    var n := |b|;
    var h, d := cfg.hash(b[p].key) % n, b[p].dist;
    assert Placed(cfg, n, b[p], p);
    assert Adv(h, d, n) == p;
    forall i: nat | i in Reached(h, d, n) ensures b[i].Full? {
      RunBack(b, h, d, Cyc(i, h, n));
      assert Adv(h, Cyc(i, h, n), n) == i;
    }
    CountAtLeast(b, Reached(h, d, n));
    SoundCount(cfg, b, m);
  }

  // Growth is asked for in tables with more than 4096 elements only.
  lemma CrowdsMany<K(!new), V>(cfg: Config<K>, b: seq<Bucket<K, V>>, i: nat, entry: Bucket<K, V>, m: map<K, V>)
    requires i < |b| && entry.Full? && entry.dist > Dist(b[i]) && Count(b) < |b|
    requires |Settle(b, i, entry, |b|)| == |b| && Sound(cfg, Settle(b, i, entry, |b|), m)
    ensures Crowds(b, i, entry, |b|) ==> |m| > DIST_FROM_IDEAL_BUCKET_LIMIT
  {
    hide Sound, Settle, Crowds;
    var e := EmptyExists(b);
    CrowdsMeans(b, i, entry, e);
    if Crowds(b, i, entry, |b|) {
      var p: nat :| p != i && CrowdedAt(b, Settle(b, i, entry, |b|), p);
      FarMeansMany(cfg, Settle(b, i, entry, |b|), m, p);
    }
  }
}
