/**
  The hopscotch hash table: neighbourhood bitmaps, displacement, an overflow list, and an insert
  that may rehash and try again.

  `model` is the finite map the table stands for; every operation is specified on it.
 */
module HopscotchTable {
  import opened Bits
  import opened GrowthPolicy
  import opened LoadFactor
  import opened FiniteFacts
  import opened Options
  import opened MapCells
  import opened HopscotchBuckets
  import opened HopscotchLoops
  import opened HopscotchSteps

  const MIN_LOAD_FACTOR_FOR_REHASH: real := 0.1

  ghost predicate Thresholds(n: nat, maxLoad: real, minThreshold: nat, maxThreshold: nat) {
    && 0.1 <= maxLoad <= 0.95
    && minThreshold == Threshold(n, 0.1) && maxThreshold == Threshold(n, maxLoad)
  }

  // Reaching either threshold bounds the buckets by the elements.
  lemma ThresholdFacts(n: nat, f: real, lo: nat, hi: nat)
    requires Thresholds(n, f, lo, hi)
    ensures n <= 10 * lo + 9 && n <= 10 * hi + 9
    ensures n == 0 ==> hi == 0
  {
    ThresholdAtLeast(n, f);
    ThresholdAtLeast(n, MIN_LOAD_FACTOR_FOR_REHASH);
  }

  // Every key of the map has another home among n' buckets than among n.
  ghost predicate AllMove<K(!new), V>(cfg: Config<K>, n: nat, n': nat, m: map<K, V>) {
    n > 0 && n' > 0 && forall k :: k in m ==> Home(cfg, k, n) != Home(cfg, k, n')
  }

  // Going from n buckets to the next bucket count moves every key.
  ghost predicate Moves<K(!new), V>(cfg: Config<K>, growthFactor: nat, n: int, m: map<K, V>) {
    n > 0 && AllMove(cfg, n, n * growthFactor, m)
  }

  // Then a rehash changes every full neighbourhood.
  lemma AllMoveChanges<K(!new), V>(cfg: Config<K>, b: seq<Bucket<K, V>>, n: nat, n': nat, ovf: seq<Entry<K, V>>,
                                   m: map<K, V>, home: nat)
    requires Sound(cfg, b, n, ovf, m) && AllMove(cfg, n, n', m) && home < n && AllFull(b, home, home + cfg.hood)
    ensures HomesChange(cfg, b, n, n', home)
  {
    hide Sound, Home, Hood, Holds, Cells;
    SoundFacts(cfg, b, n, ovf, m);
    BucketValue(cfg, b, n, ovf, m, home);
    assert HomeOf(cfg, n, b[home].slot) != HomeOf(cfg, n', b[home].slot);
  }

  // How far a table of n buckets is from being too large to grow for `bound` elements.
  ghost function Fuel(bound: nat, n: nat): nat {
    if n < 10 * bound + 10 then 10 * bound + 10 - n else 0
  }

  ghost function Max(a: nat, b: nat): nat {
    if a < b then b else a
  }

  // An iterator: a bucket, an element of the overflow list, or the end.
  datatype Position = InBucket(p: nat) | InOverflow(p: nat) | End

  ghost predicate Points<K, V>(b: seq<Bucket<K, V>>, ovf: seq<Entry<K, V>>, pos: Position, e: Entry<K, V>) {
    match pos
    case InBucket(p) => p < |b| && b[p].slot == Full(e)
    case InOverflow(p) => p < |ovf| && ovf[p] == e
    case End => false
  }

  // How an operation ends.  LengthError is std::length_error thrown before anything changed in the map;
  // Interrupted is the same error thrown while a rehash was filling its new table.
  datatype Status = Done | LengthError | Interrupted

  class Table<K(==, !new), V> {
    const cfg: Config<K>
    const growthFactor: nat
    const maxBuckets: nat             // max_bucket_count()

    var buckets: seq<Bucket<K, V>>
    var overflow: seq<Entry<K, V>>
    var mask: nat
    var nbElements: nat
    var minThreshold: nat
    var maxThreshold: nat
    var maxLoad: real

    ghost var model: map<K, V>

    // The array is a little longer than the number of buckets, so that the last one has neighbours.
    function BucketCount(): (n: int)
      reads this`buckets
    {
      if |buckets| == 0 then 0 else |buckets| - cfg.hood + 1
    }

    ghost predicate Shape()
      reads this
    {
      && IsPow2(growthFactor) && growthFactor >= 2
      && BucketCount() >= 0 && IsPow2(mask + 1) && 0.1 <= maxLoad <= 0.95
      && mask == (if BucketCount() == 0 then 0 else BucketCount() - 1)
      && Thresholds(BucketCount(), maxLoad, minThreshold, maxThreshold)
      && nbElements == |model| && BucketCount() <= maxBuckets <= MAX_BUCKET_COUNT
    }

    ghost predicate Valid()
      reads this
    {
      Shape() && Sound(cfg, buckets, BucketCount(), overflow, model)
    }

    // No insert asks for more buckets than this for s elements.
    ghost function Growth(s: nat): nat {
      growthFactor * (10 * s + 9)
    }

    // An insert grows the table first, and cannot.
    ghost predicate GrowthFails()
      reads this
    {
      && 0.1 <= maxLoad <= 0.95 && nbElements - |overflow| >= maxThreshold
      && TooMany(RehashCount(NextBucketCount()), maxBuckets)
    }

    // An insert may ask for more buckets.
    ghost predicate MayGrow()
      reads this
    {
      nbElements - |overflow| >= maxThreshold || nbElements >= minThreshold
    }

    constructor (cfg: Config<K>, growthFactor: nat, maxBuckets: nat, bucketCount: nat, maxLoad: real)
      requires ConfigOk(cfg) && IsPow2(growthFactor) && growthFactor >= 2
      requires maxBuckets <= MAX_BUCKET_COUNT && !TooMany(bucketCount, maxBuckets)
      ensures Valid() && model == map[] && overflow == []
      ensures this.cfg == cfg && this.growthFactor == growthFactor && this.maxBuckets == maxBuckets
      ensures BucketCount() == Rounded(bucketCount)
      ensures this.maxLoad == Clamp(maxLoad, 0.1, 0.95)
      ensures forall i :: 0 <= i < |buckets| ==> buckets[i] == ClearBucket()
    {
      hide Sound, Threshold, ClearBucket;
      assert Pow2(0) == 1;
      this.cfg, this.growthFactor, this.maxBuckets := cfg, growthFactor, maxBuckets;
      var n := 0;
      if bucketCount > 0 {
        n := RoundUpToPowerOfTwo(bucketCount);
      }
      var b := if n == 0 then [] else seq(n + cfg.hood - 1, _ => ClearBucket());
      BlankSound(cfg, b, n);
      var load := Clamp(maxLoad, 0.1, 0.95);
      buckets, overflow, nbElements := b, [], 0;
      mask := if n == 0 then 0 else n - 1;
      this.maxLoad := load;
      minThreshold := Threshold(n, MIN_LOAD_FACTOR_FOR_REHASH);
      maxThreshold := Threshold(n, load);
      model := map[];
    }

    /**
      Construction as a user calls it: an empty table, or length_error for too many buckets.
     */
    static method Create(cfg: Config<K>, growthFactor: nat, maxBuckets: nat, bucketCount: nat, maxLoad: real)
      returns (t: Option<Table<K, V>>)
      requires ConfigOk(cfg) && IsPow2(growthFactor) && growthFactor >= 2 && maxBuckets <= MAX_BUCKET_COUNT
      ensures t.None? <==> TooMany(bucketCount, maxBuckets)
      ensures t.Some? ==> fresh(t.value) && t.value.Valid() && t.value.model == map[] && t.value.overflow == []
      ensures t.Some? ==> t.value.cfg == cfg && t.value.growthFactor == growthFactor && t.value.maxBuckets == maxBuckets
      ensures t.Some? ==> t.value.BucketCount() == Rounded(bucketCount) && t.value.maxLoad == Clamp(maxLoad, 0.1, 0.95)
    {
      hide Sound, TooMany, Rounded;
      if TooMany(bucketCount, maxBuckets) {
        return None;
      }
      var table := new Table<K, V>(cfg, growthFactor, maxBuckets, bucketCount, maxLoad);
      t := Some(table);
    }

    /**
      find: the position of the key when the map has it.  A table without buckets reads the shared
      empty bucket, which has no neighbour and no overflow.
     */
    method Find(key: K) returns (pos: Position)
      requires Valid()
      ensures pos.End? <==> key !in model
      ensures key in model ==> Points(buckets, overflow, pos, Entry(key, model[key]))
    {
      hide Sound, Shape, Hood, Holds, Cells, InBuckets, InList, HasOverflow, Home, IsPow2;
      MaskFacts();
      var n := BucketCount();
      SoundFacts(cfg, buckets, n, overflow, model);
      if n == 0 {
        return End;
      }
      Located(cfg, buckets, n, overflow, model, key);
      var found, p := FindInBuckets(cfg, buckets, n, key);
      if found {
        BucketValue(cfg, buckets, n, overflow, model, p);
        return InBucket(p);
      }
      var h := BucketForHash(cfg.hash(key), mask);
      HomeIs(cfg, key, n, h);
      if !HasOverflow(buckets[h]) {
        return End;
      }
      var q := FindInOverflow(overflow, key);
      if q == |overflow| {
        return End;
      }
      ListValue(cfg, buckets, n, overflow, model, q);
      return InOverflow(q);
    }

    /**
      erase(key): 1 and the key is gone, or 0 and nothing changed.
     */
    method EraseKey(key: K) returns (erased: nat)
      requires Valid()
      modifies this
      ensures Valid() && BucketCount() == old(BucketCount()) && maxLoad == old(maxLoad)
      ensures erased == if key in old(model) then 1 else 0
      ensures model == old(model) - {key}
    {
      hide Sound, Shape, Points;
      RemoveKey(model, key);
      var pos := Find(key);
      if pos.End? {
        return 0;
      }
      EraseAt(pos, key);
      return 1;
    }

    /**
      erase(pos), for the position of a stored key: the key is gone.
     */
    method EraseAt(pos: Position, ghost key: K)
      requires Valid() && key in model && Points(buckets, overflow, pos, Entry(key, model[key]))
      modifies this
      ensures Valid() && BucketCount() == old(BucketCount()) && maxLoad == old(maxLoad)
      ensures model == old(model) - {key}
    {
      hide Sound, Thresholds, Home, IsPow2, Erased, Hood, Holds, Cells;
      RemoveKey(model, key);
      var n := BucketCount();
      SoundFacts(cfg, buckets, n, overflow, model);
      var k := if pos.InBucket? then buckets[pos.p].slot.entry.key else overflow[pos.p].key;
      var h := BucketForHash(cfg.hash(k), mask);
      HomeIs(cfg, key, n, h);
      if pos.InBucket? {
        ErasedSound(cfg, buckets, n, overflow, model, pos.p);
        var b := Erased(buckets, pos.p, h);
        ErasedLength(buckets, pos.p, h);
        buckets := b;
      } else {
        var b, o := EraseFromOverflow(cfg, buckets, n, overflow, pos.p, h, model);
        SoundFacts(cfg, b, n, o, model - {key});
        buckets, overflow := b, o;
      }
      nbElements := nbElements - 1;
      model := model - {key};
    }

    function NextBucketCount(): nat
      reads this`mask
    {
      (mask + 1) * growthFactor
    }

    function RehashCount(count: nat): (r: nat)
      reads this`nbElements, this`maxLoad
      requires 0.1 <= maxLoad <= 0.95
      ensures r >= count && r >= BucketsFor(nbElements, maxLoad)
    {
      var least := BucketsFor(nbElements, maxLoad);
      if count < least then least else count
    }

    /**
      insert_value for a key that is not present.  Whatever displacement, overflow and nested
      rehashes it takes, the key is added and nothing else changes, unless some rehash asks for too
      many buckets; `bound` is any number the size stays within, it bounds every request and drives
      the proof that the recursion ends.
     */
    method InsertValue(ibucketForHash: nat, key: K, val: V, ghost bound: nat) returns (s: Status, pos: Position)
      requires Valid() && key !in model && |model| < bound
      requires ibucketForHash == cfg.hash(key) % (mask + 1)
      modifies this
      ensures maxLoad == old(maxLoad) && (!s.Interrupted? ==> Valid() && BucketCount() >= old(BucketCount()))
      ensures s.Done? ==> model == old(model)[key := val] && Points(buckets, overflow, pos, Entry(key, val))
      ensures s.Done? ==> 1 <= BucketCount() <= Max(old(BucketCount()), Growth(bound))
      ensures s.LengthError? ==> model == old(model)
      ensures !s.Done? ==> Growth(bound) > maxBuckets && old(MayGrow())
      ensures old(GrowthFails()) ==> s.LengthError? && unchanged(this)
      ensures s.Done? && BucketCount() == old(BucketCount()) ==>
                && minThreshold == old(minThreshold)
                && (old(NextMovesAll()) ==> |overflow| <= Max(old(|overflow|), minThreshold))
      decreases Fuel(bound, BucketCount()), 1
    {
      hide Shape, Sound, Home, IsPow2, Points, Growth, NextBucketCount, RoundUp, RehashCount, TooMany, GrowthFails,
        MayGrow, NextMovesAll;
      pos := End;
      var ibucket;
      NextIsLarger();
      s, ibucket := GrowIfLoaded(ibucketForHash, key, bound);
      if !s.Done? {
        return;
      }
      s, pos := TryPlace(ibucket, key, val);
      if pos.End? {
        GrowthStep(bound);
        if s.LengthError? {
          return;
        }
        s := GrowTo(NextBucketCount(), bound);
        if !s.Done? {
          return;
        }
        MaskFacts();
        ibucket := BucketForHash(cfg.hash(key), mask);
        s, pos := InsertValue(ibucket, key, val, bound);
      }
    }

    // A rehash to the next bucket count would move every element.
    ghost predicate NextMovesAll()
      reads this
    {
      BucketCount() > 0 && AllMove(cfg, BucketCount(), NextBucketCount(), model)
    }

    // What a rehash to the next bucket count is worth once a threshold is reached.
    lemma GrowthStep(bound: nat)
      requires Valid() && |model| <= bound
      requires nbElements - |overflow| >= maxThreshold || nbElements >= minThreshold
      ensures 0.1 <= maxLoad <= 0.95
      ensures BucketCount() <= 10 * bound + 9 && NextBucketCount() >= 2 * BucketCount() && NextBucketCount() >= 2
      ensures NextBucketCount() <= RoundUp(RehashCount(NextBucketCount())) <= Growth(bound)
      ensures NextBucketCount() > MAX_BUCKET_COUNT || TooMany(RehashCount(NextBucketCount()), maxBuckets) ==>
                Growth(bound) > maxBuckets
    {
      hide Sound, Thresholds, IsPow2, Growth, NextBucketCount, RoundUp;
      RoundUpAbove(RehashCount(NextBucketCount()));
      ThresholdFacts(BucketCount(), maxLoad, minThreshold, maxThreshold);
      NextIsMore(bound);
    }

    lemma MaskFacts()
      requires Valid()
      ensures IsPow2(mask + 1) && mask == (if BucketCount() == 0 then 0 else BucketCount() - 1)
      ensures nbElements == |model| && BucketCount() >= 0
    {
      hide Sound, Thresholds, IsPow2;
    }

    // The start of insert_value: grow when the values in buckets have reached the maximum load.
    method GrowIfLoaded(ibucketForHash: nat, key: K, ghost bound: nat) returns (s: Status, ibucket: nat)
      requires Valid() && |model| <= bound && ibucketForHash == cfg.hash(key) % (mask + 1)
      modifies this
      ensures maxLoad == old(maxLoad) && (s.LengthError? <==> old(GrowthFails()))
      ensures s.LengthError? ==> unchanged(this)
      ensures s.Interrupted? ==> old(nbElements - |overflow| >= maxThreshold)
      ensures !s.Done? ==> Growth(bound) > maxBuckets && old(MayGrow())
      ensures s.Done? && MayGrow() ==> old(MayGrow())
      ensures s.Done? ==>
                && Valid() && model == old(model)
                && BucketCount() >= 1 && ibucket == Home(cfg, key, BucketCount())
                && old(BucketCount()) <= BucketCount() <= Max(old(BucketCount()), Growth(bound))
                && if old(nbElements - |overflow| >= maxThreshold) then BucketCount() >= old(NextBucketCount())
                   else unchanged(this)
      decreases Fuel(bound, BucketCount()), 0
    {
      hide Sound, Thresholds, IsPow2, Growth, NextBucketCount, RoundUp, RehashCount, TooMany;
      s, ibucket := Done, ibucketForHash;
      LoadFacts();
      if nbElements - |overflow| >= maxThreshold {
        GrowthStep(bound);
        s := GrowTo(NextBucketCount(), bound);
        if s.Done? {
          ibucket := BucketForHash(cfg.hash(key), mask);
        }
      }
    }

    // A table without buckets has reached its maximum load.
    lemma LoadFacts()
      requires Valid()
      ensures BucketCount() == 0 ==> nbElements - |overflow| >= maxThreshold
    {
      hide Thresholds;
      ThresholdFacts(BucketCount(), maxLoad, minThreshold, maxThreshold);
    }

    /**
      The rest of insert_value: an empty bucket in the neighbourhood, brought there by displacement
      if need be, takes the value; failing that the overflow list does, unless a rehash is called
      for, which is answered with End.  Whether one is called for can only be asked while there is a
      next bucket count.
     */
    method TryPlace(ibucket: nat, key: K, val: V) returns (s: Status, pos: Position)
      requires Valid() && BucketCount() >= 1 && key !in model && ibucket == Home(cfg, key, BucketCount())
      modifies this`buckets, this`overflow, this`nbElements, this`model
      ensures Valid() && BucketCount() == old(BucketCount())
      ensures pos.End? ==> model == old(model) && nbElements >= minThreshold && old(MayGrow())
      ensures !pos.End? ==> model == old(model)[key := val] && Points(buckets, overflow, pos, Entry(key, val))
      ensures pos.InBucket? ==> ibucket <= pos.p < ibucket + cfg.hood
      ensures !pos.InBucket? ==> AllFull(buckets, ibucket, ibucket + cfg.hood)
      ensures !s.Interrupted? && (s.LengthError? ==> pos.End?)
      ensures pos.End? ==> (s.LengthError? <==> NextBucketCount() > MAX_BUCKET_COUNT)
      ensures s.Done? && pos.End? ==> HomesChange(cfg, buckets, BucketCount(), NextBucketCount(), ibucket)
      ensures pos.InOverflow? ==>
                || old(nbElements) < minThreshold
                || (NextBucketCount() <= MAX_BUCKET_COUNT
                  && !HomesChange(cfg, buckets, BucketCount(), NextBucketCount(), ibucket))
      ensures !pos.InOverflow? ==> overflow == old(overflow)
      ensures old(NextMovesAll()) ==> |overflow| <= Max(old(|overflow|), minThreshold)
    {
      hide Sound, Thresholds, Home, IsPow2, Holds, Cells, Rearranged, HasOverflow, NextBucketCount, HomeOf, AllMove,
        HomesChange;
      OverflowSmall();
      var n := BucketCount();
      SoundFacts(cfg, buckets, n, overflow, model);
      var found, b, e := BringEmptyCloser(cfg, buckets, n, ibucket, overflow, model);
      RearrangedSound(cfg, buckets, b, n, overflow, model);
      SoundFacts(cfg, b, n, overflow, model);
      if found {
        PutInBucket(b, e, ibucket, key, val);
        return Done, InBucket(e);
      }
      buckets := b;
      if nbElements >= minThreshold {
        NextIsMore(|model|);
        if NextBucketCount() > MAX_BUCKET_COUNT {
          return LengthError, End;
        }
        var change := WillNeighborhoodChange(cfg, b, n, NextBucketCount(), ibucket);
        if change {
          return Done, End;
        }
        if NextMovesAll() { AllMoveChanges(cfg, b, n, NextBucketCount(), overflow, model, ibucket); }
      }
      PutInOverflow(ibucket, key, val);
      SlotsDecide(cfg, b, buckets, n, NextBucketCount(), ibucket);
      s, pos := Done, InOverflow(|overflow| - 1);
    }

    lemma NextIsLarger()
      requires Valid()
      ensures NextBucketCount() > BucketCount()
    {
      hide Sound, Thresholds, IsPow2;
      NextIsMore(|model|);
    }

    lemma OverflowSmall()
      requires Valid()
      ensures |overflow| <= nbElements
    {
      hide Sound, Thresholds, IsPow2, Occupied;
      SizeIsSum(cfg, buckets, BucketCount(), overflow, model);
    }

    lemma NextIsMore(bound: nat)
      requires Shape() && |model| <= bound
      ensures NextBucketCount() >= 2 * BucketCount() && NextBucketCount() >= 2 && IsPow2(NextBucketCount())
      ensures NextBucketCount() == if BucketCount() == 0 then growthFactor else BucketCount() * growthFactor
      ensures mask + 1 <= 10 * bound + 9 ==> RoundUp(RehashCount(NextBucketCount())) <= Growth(bound)
    {
      hide Threshold, BucketsFor, RoundUp;
      BucketsForAtMost(nbElements, maxLoad);
      NextCount(growthFactor, mask + 1, bound, RehashCount(NextBucketCount()));
    }

    // insert_in_bucket, on buckets b that displacement left with an empty one near the home.
    method PutInBucket(b: seq<Bucket<K, V>>, e: nat, h: nat, key: K, val: V)
      requires Shape() && |b| == |buckets| && BucketCount() > 0
      requires Sound(cfg, b, BucketCount(), overflow, model) && key !in model
      requires h == Home(cfg, key, BucketCount()) && h <= e < h + cfg.hood && e < |b| && b[e].slot.Vacant?
      modifies this`buckets, this`nbElements, this`model
      ensures Valid() && model == old(model)[key := val] && |buckets| == old(|buckets|)
      ensures Points(buckets, overflow, InBucket(e), Entry(key, val))
      ensures forall j :: 0 <= j < |b| && j != e ==> buckets[j].slot == b[j].slot
    {
      hide Sound, Thresholds, Home, IsPow2, Stored;
      AddKey(model, key, val);
      StoredSound(cfg, b, BucketCount(), overflow, model, e, Entry(key, val));
      StoredLength(b, e, h, Entry(key, val));
      buckets := Stored(b, e, h, Entry(key, val));
      nbElements := nbElements + 1;
      model := model[key := val];
    }

    // insert_in_overflow.
    method PutInOverflow(h: nat, key: K, val: V)
      requires Valid() && BucketCount() > 0 && key !in model
      requires h == Home(cfg, key, BucketCount())
      modifies this`buckets, this`overflow, this`nbElements, this`model
      ensures Valid() && model == old(model)[key := val] && |buckets| == old(|buckets|)
      ensures |overflow| == old(|overflow|) + 1
      ensures Points(buckets, overflow, InOverflow(|overflow| - 1), Entry(key, val))
      ensures SameSlots(old(buckets), buckets)
    {
      hide Sound, Thresholds, Home, IsPow2, SetOverflow;
      AddKey(model, key, val);
      OverflowSound(cfg, buckets, BucketCount(), overflow, model, Entry(key, val));
      overflow := overflow + [Entry(key, val)];
      buckets := buckets[h := SetOverflow(buckets[h], true)];
      nbElements := nbElements + 1;
      model := model[key := val];
    }

    /**
      rehash: the same finite map in at least count buckets.
     */
    method GrowTo(count: nat, ghost bound: nat) returns (s: Status)
      requires Valid() && |model| <= bound
      modifies this
      ensures s.LengthError? <==> old(0.1 <= maxLoad <= 0.95 && TooMany(RehashCount(count), maxBuckets))
      ensures s.LengthError? ==> unchanged(this)
      ensures s.Interrupted? ==> Growth(bound) > maxBuckets
      ensures maxLoad == old(maxLoad) && (s.Done? ==> Valid() && model == old(model))
      ensures s.Done? ==> count <= BucketCount() <= Max(old(RoundUp(RehashCount(count))), Growth(bound))
      ensures s.Done? && BucketCount() == old(Rounded(RehashCount(count))) && NextMovesAll() ==>
                |overflow| <= Max(old(|overflow|), minThreshold)
      decreases Fuel(bound, count), 4
    {
      hide Sound, BucketsFor, RoundUp, Threshold, IsPow2, Growth;
      BucketsForFacts(nbElements, maxLoad);
      RoundUpAbove(RehashCount(count));
      if TooMany(RehashCount(count), maxBuckets) {
        return LengthError;
      }
      var ok := RehashImpl(RehashCount(count), bound);
      s := if ok then Done else Interrupted;
    }

    /**
      rehash_impl: the overflow list is moved to a new table, then every value is inserted into it,
      which may make the new table rehash in turn.  That only fails for lack of buckets.
     */
    method RehashImpl(count: nat, ghost bound: nat) returns (ok: bool)
      requires Valid() && |model| <= bound && (count == 0 ==> model == map[]) && !TooMany(count, maxBuckets)
      modifies this
      ensures maxLoad == old(maxLoad) && (ok ==> Valid() && model == old(model))
      ensures ok ==> Rounded(count) <= BucketCount() <= Max(RoundUp(count), Growth(bound))
      ensures !ok ==> Growth(bound) > maxBuckets
      ensures ok && BucketCount() == Rounded(count) && NextMovesAll() ==>
                |overflow| <= Max(old(|overflow|), minThreshold)
      decreases Fuel(bound, count), 3
    {
      hide Sound, Shape, RoundUp, IsPow2, Holds, Cells, Hood, Growth, IsEmpty, Fuel, TooMany, NextMovesAll, Moves;
      MaskFacts();
      var src := buckets;
      ghost var n: nat := BucketCount();
      ghost var cells, size := Cells(src, overflow), |overflow|;
      ghost var spilled := OverflowMap(cfg, src, n, overflow, model);
      RoundUpAbove(count);
      FuelFalls(bound, count);
      ghost var top := Max(RoundUp(count), Growth(bound));
      var newMap := NewWithOverflow(count, spilled);
      for i := 0 to |src|
        invariant fresh(newMap) && newMap.Valid() && newMap.maxLoad == maxLoad && newMap.SameKind(this)
        invariant unchanged(this) && Holds(cells[..size + i], newMap.model) && newMap.model.Keys <= model.Keys
        invariant Rounded(count) <= newMap.BucketCount() <= top
        invariant newMap.BucketCount() == Rounded(count) && Moves(cfg, growthFactor, Rounded(count), model) ==>
                    |newMap.overflow| <= Max(size, newMap.minThreshold)
      {
        NextValue(cfg, src, n, overflow, model, i, newMap.model);
        if !IsEmpty(src[i]) {
          newMap.SameGrowth(this, bound);
          var moved := newMap.MoveIn(src[i].slot.entry, bound, model);
          if !moved {
            return false;
          }
        }
      }
      assert cells[..size + |src|] == cells;
      HoldsUnique(cells, model, newMap.model);
      newMap.MovesFewer(model);
      Swap(newMap);
      ok := true;
    }

    // One value of the old table, of which m is the finite map, is inserted into this new one.
    method MoveIn(e: Entry<K, V>, ghost bound: nat, ghost m: map<K, V>) returns (ok: bool)
      requires Valid() && e.key !in model && |model| < bound && model.Keys <= m.Keys
      modifies this
      ensures !ok ==> Growth(bound) > maxBuckets
      ensures ok ==> Valid() && model == old(model)[e.key := e.val] && maxLoad == old(maxLoad)
      ensures ok ==> old(BucketCount()) <= BucketCount() <= Max(old(BucketCount()), Growth(bound))
      ensures ok && BucketCount() == old(BucketCount()) ==>
                && minThreshold == old(minThreshold)
                && (Moves(cfg, growthFactor, BucketCount(), m) ==> |overflow| <= Max(old(|overflow|), minThreshold))
      decreases Fuel(bound, BucketCount()), 2
    {
      hide Sound, Shape, IsPow2, Growth, Fuel, Points, NextMovesAll, Moves;
      MovesFewer(m);
      MaskFacts();
      var h := BucketForHash(cfg.hash(e.key), mask);
      var s, _ := InsertValue(h, e.key, e.val, bound);
      ok := s.Done?;
    }

    lemma MovesFewer(m: map<K, V>)
      requires Valid() && model.Keys <= m.Keys
      ensures Moves(cfg, growthFactor, BucketCount(), m) ==> NextMovesAll()
      ensures NextMovesAll() <==> Moves(cfg, growthFactor, BucketCount(), model)
    {
      hide Sound, Thresholds, IsPow2, Home;
    }

    // Built with the same configuration and limits.
    ghost predicate SameKind(other: Table<K, V>) {
      cfg == other.cfg && growthFactor == other.growthFactor && maxBuckets == other.maxBuckets
    }

    lemma SameGrowth(other: Table<K, V>, bound: nat)
      requires SameKind(other)
      ensures Growth(bound) == other.Growth(bound) && maxBuckets == other.maxBuckets && cfg == other.cfg
    {}

    // swap, as far as this table is concerned.
    method Swap(other: Table<K, V>)
      requires other.Valid() && other.SameKind(this)
      modifies this
      ensures Valid() && model == old(other.model) && maxLoad == old(other.maxLoad)
      ensures BucketCount() == old(other.BucketCount()) && overflow == old(other.overflow)
      ensures minThreshold == old(other.minThreshold) && NextMovesAll() == old(other.NextMovesAll())
    {
      hide Sound, IsPow2, Thresholds, AllMove;
      var b, o, k, s := other.buckets, other.overflow, other.mask, other.nbElements;
      var lo, hi, f := other.minThreshold, other.maxThreshold, other.maxLoad;
      ghost var m := other.model;
      buckets, overflow, mask, nbElements := b, o, k, s;
      minThreshold, maxThreshold, maxLoad := lo, hi, f;
      model := m;
    }

    // The new table of rehash_impl once the overflow list is moved to it.
    method NewWithOverflow(count: nat, ghost moved: map<K, V>) returns (newMap: Table<K, V>)
      requires Valid() && (count == 0 ==> overflow == []) && !TooMany(count, maxBuckets)
      requires Holds(Over(overflow), moved) && |moved| == |overflow| && (overflow == [] ==> moved == map[])
      ensures fresh(newMap) && newMap.Valid() && newMap.model == moved && newMap.maxLoad == maxLoad
      ensures newMap.SameKind(this) && newMap.BucketCount() == Rounded(count) && newMap.overflow == overflow
    {
      hide Sound, Shape, RoundUp, IsPow2, Holds, ClearBucket, Hood, Cells;
      LoadRange();
      RoundUpAbove(count);
      newMap := new Table<K, V>(cfg, growthFactor, maxBuckets, count, maxLoad);
      if |overflow| > 0 {
        newMap.TakeOverflow(overflow, moved);
      }
    }

    lemma LoadRange()
      requires Valid()
      ensures ConfigOk(cfg) && 0.1 <= maxLoad <= 0.95 && IsPow2(growthFactor) && growthFactor >= 2
      ensures BucketCount() <= maxBuckets <= MAX_BUCKET_COUNT
    {
      hide Thresholds, IsPow2;
    }

    // The overflow list of another table becomes that of this empty one.
    method TakeOverflow(list: seq<Entry<K, V>>, ghost moved: map<K, V>)
      requires Valid() && model == map[] && BucketCount() > 0
      requires forall i :: 0 <= i < |buckets| ==> buckets[i] == ClearBucket()
      requires Holds(Over(list), moved) && |moved| == |list|
      modifies this`buckets, this`overflow, this`nbElements, this`model
      ensures Valid() && model == moved && BucketCount() == old(BucketCount()) && overflow == list
    {
      hide Sound, Thresholds, IsPow2, Holds, ClearBucket, Hood, Cells;
      var n := BucketCount();
      SoundFacts(cfg, buckets, n, overflow, model);
      var b := MarkOverflow(cfg, buckets, n, list, moved);
      buckets, overflow := b, list;
      nbElements := nbElements + |list|;
      model := moved;
    }

    /**
      insert: a present key is left as it is, a new key is added.  It succeeds whenever the table may
      grow to a fixed multiple of its size, and it never grows beyond that.
     */
    method Insert(key: K, val: V) returns (s: Status, pos: Position, inserted: bool)
      requires Valid()
      modifies this
      ensures maxLoad == old(maxLoad) && (!s.Interrupted? ==> Valid())
      ensures s.Done? ==> (inserted <==> key !in old(model))
      ensures s.Done? ==> model == if inserted then old(model)[key := val] else old(model)
      ensures s.Done? ==> key in model && Points(buckets, overflow, pos, Entry(key, model[key]))
      ensures s.Done? ==> BucketCount() <= Max(old(BucketCount()), Growth(|model|))
      ensures s.LengthError? ==> model == old(model)
      ensures !s.Done? ==> key !in old(model) && old(MayGrow()) && Growth(old(|model|) + 1) > maxBuckets
      ensures key !in old(model) && old(GrowthFails()) ==> s.LengthError? && unchanged(this)
    {
      hide Sound, Shape, IsPow2, Points, Growth, GrowthFails, MayGrow;
      MaskFacts();
      var ibucket := BucketForHash(cfg.hash(key), mask);
      pos := Find(key);
      if !pos.End? {
        return Done, pos, false;
      }
      AddKey(model, key, val);
      s, pos := InsertValue(ibucket, key, val, |model| + 1);
      inserted := s.Done?;
    }

    /**
      insert_or_assign: afterwards the key has the value.
     */
    method InsertOrAssign(key: K, val: V) returns (s: Status, inserted: bool)
      requires Valid()
      modifies this
      ensures maxLoad == old(maxLoad) && (!s.Interrupted? ==> Valid())
      ensures s.Done? ==> model == old(model)[key := val] && (inserted <==> key !in old(model))
      ensures s.LengthError? ==> model == old(model)
      ensures !s.Done? ==> key !in old(model) && old(MayGrow()) && Growth(old(|model|) + 1) > maxBuckets
      ensures key !in old(model) && old(GrowthFails()) ==> s.LengthError? && unchanged(this)
    {
      hide Sound, Thresholds, IsPow2, Growth, AssignedAt, Hood, Holds, Cells, GrowthFails, MayGrow;
      var pos;
      s, pos, inserted := Insert(key, val);
      if s.Done? && !inserted {
        Assign(pos, key, val);
      }
    }

    // it.value() = val
    method Assign(pos: Position, key: K, val: V)
      requires Valid() && key in model && Points(buckets, overflow, pos, Entry(key, model[key]))
      modifies this`buckets, this`overflow, this`model
      ensures Valid() && model == old(model)[key := val]
    {
      hide Sound, Thresholds, IsPow2, AssignedAt, Hood, Holds, Cells;
      var n := BucketCount();
      SoundFacts(cfg, buckets, n, overflow, model);
      AssignKey(model, key, val);
      if pos.InBucket? {
        AssignedSound(cfg, buckets, n, overflow, model, pos.p, val);
        AssignedLength(buckets, pos.p, val);
        buckets := AssignedAt(buckets, pos.p, val);
      } else {
        AssignedListSound(cfg, buckets, n, overflow, model, pos.p, val);
        overflow := overflow[pos.p := Entry(key, val)];
      }
      model := model[key := val];
    }

    /**
      clear: the empty map; the buckets stay.
     */
    method Clear()
      requires Valid()
      modifies this
      ensures Valid() && model == map[] && overflow == []
      ensures BucketCount() == old(BucketCount()) && maxLoad == old(maxLoad)
    {
      hide Sound, Thresholds, IsPow2, ClearBucket, Hood, Holds, Cells;
      SoundFacts(cfg, buckets, BucketCount(), overflow, model);
      var b := seq(|buckets|, _ => ClearBucket());
      BlankSound(cfg, b, BucketCount());
      buckets, overflow, nbElements := b, [], 0;
      model := map[];
    }

    /**
      rehash(count) as a user calls it: the same finite map in at least count buckets, or length_error.
     */
    method Rehash(count: nat) returns (s: Status)
      requires Valid()
      modifies this
      ensures s.LengthError? <==> old(0.1 <= maxLoad <= 0.95 && TooMany(RehashCount(count), maxBuckets))
      ensures s.LengthError? ==> unchanged(this)
      ensures s.Interrupted? ==> Growth(old(|model|)) > maxBuckets
      ensures maxLoad == old(maxLoad) && (!s.Interrupted? ==> Valid() && model == old(model))
      ensures s.Done? ==> BucketCount() >= count
      ensures s.Done? && BucketCount() == old(Rounded(RehashCount(count))) && NextMovesAll() ==>
                |overflow| <= Max(old(|overflow|), minThreshold)
    {
      hide Sound, Shape, RoundUp, BucketsFor, IsPow2, Growth, TooMany, NextMovesAll;
      MaskFacts();
      s := GrowTo(count, nbElements);
    }

    method Reserve(count: nat) returns (s: Status)
      requires Valid()
      modifies this
      ensures s.LengthError? <==>
                old(0.1 <= maxLoad <= 0.95 && TooMany(RehashCount(BucketsFor(count, maxLoad)), maxBuckets))
      ensures s.LengthError? ==> unchanged(this)
      ensures s.Interrupted? ==> Growth(old(|model|)) > maxBuckets
      ensures maxLoad == old(maxLoad) && (!s.Interrupted? ==> Valid() && model == old(model))
      ensures s.Done? ==> BucketCount() >= 0 && EnoughFor(BucketCount(), maxLoad, count)
    {
      hide Sound, Shape, RoundUp, BucketsFor, EnoughFor, IsPow2, TooMany, Growth, RehashCount;
      LoadRange();
      s := Rehash(BucketsFor(count, maxLoad));
      if s.Done? {
        MaskFacts();
        MoreIsEnough(BucketCount(), maxLoad, count);
      }
    }

    method SetMaxLoad(ml: real)
      requires Valid()
      modifies this`maxLoad, this`minThreshold, this`maxThreshold
      ensures Valid() && model == old(model) && maxLoad == Clamp(ml, 0.1, 0.95)
      ensures (ml >= 0.95 ==> maxLoad == 0.95) && (ml <= 0.1 ==> maxLoad == 0.1)
      ensures 0.1 <= ml <= 0.95 ==> maxLoad == ml
    {
      hide Sound, Threshold, IsPow2;
      maxLoad := Clamp(ml, 0.1, 0.95);
      minThreshold := Threshold(BucketCount(), MIN_LOAD_FACTOR_FOR_REHASH);
      maxThreshold := Threshold(BucketCount(), maxLoad);
    }
  }

  lemma AssignedLength<K, V>(b: seq<Bucket<K, V>>, p: nat, v: V)
    requires p < |b| && b[p].slot.Full?
    ensures |AssignedAt(b, p, v)| == |b|
  {}

  lemma FuelFalls(bound: nat, count: nat)
    ensures forall n: nat :: n >= count ==> Fuel(bound, n) <= Fuel(bound, count)
  {}

  lemma NextCount(g: nat, n: nat, bound: nat, c: nat)
    requires IsPow2(g) && g >= 2 && IsPow2(n) && n >= 1
    ensures n * g >= 2 * n && IsPow2(n * g)
    ensures n <= 10 * bound + 9 && (c == n * g || n * g < c <= 10 * bound) ==> RoundUp(c) <= g * (10 * bound + 9)
  {
    hide RoundUp;
    var next, top := n * g, g * (10 * bound + 9);
    MulMono(n, 2, g);
    ProductOfPow2(n, g);
    if n <= 10 * bound + 9 && c == next {
      RoundUpOfPow2(c);
      MulMono(g, n, 10 * bound + 9);
    } else if n <= 10 * bound + 9 && next < c <= 10 * bound {
      RoundUpBelowDouble(c);
      TwiceBelow(g, 10 * bound + 9);
    }
  }

  // The finite map of the overflow list alone.
  lemma OverflowMap<K, V>(cfg: Config<K>, b: seq<Bucket<K, V>>, n: nat, ovf: seq<Entry<K, V>>, m: map<K, V>)
    returns (m': map<K, V>)
    requires Sound(cfg, b, n, ovf, m)
    ensures Holds(Over(ovf), m') && Holds(Cells(b, ovf)[..|ovf|], m') && |m'| == |ovf| <= |m|
    ensures ovf == [] ==> m' == map[]
    ensures Holds(Cells(b, ovf), m) && m'.Keys <= m.Keys
  {
    hide Holds, Count, Cells, Hood, Flags;
    if n == 0 {
      m' := map[];
      NothingHeld(Cells(b, ovf), ovf);
    } else {
      m' := OverflowPart(cfg, b, n, ovf, m);
    }
  }

  lemma NothingHeld<K, V>(s: seq<Cell<K, V>>, ovf: seq<Entry<K, V>>)
    requires s == [] && ovf == []
    ensures Holds(s, map[]) && Holds(s[..0], map[]) && Holds(Over(ovf), map[])
  {
    EmptyHoldsNothing<K, V>();
    assert s[..0] == [] && Over(ovf) == [];
  }

  lemma NextFits<K, V>(s: seq<Cell<K, V>>, m: map<K, V>, p: nat, m': map<K, V>)
    requires Holds(s, m) && p < |s| && Holds(s[..p], m') && s[p].Full?
    ensures |m'| < |m|
  {
    assert s[..p + 1][..p] == s[..p];
    CountPrefix(s, p + 1);
  }

  // What inserting bucket i does to the finite map of the buckets before it.
  lemma NextValue<K, V>(cfg: Config<K>, b: seq<Bucket<K, V>>, n: nat, ovf: seq<Entry<K, V>>, m: map<K, V>, i: nat,
                        m': map<K, V>)
    requires Sound(cfg, b, n, ovf, m) && i < |b| && Holds(Cells(b, ovf)[..|ovf| + i], m')
    ensures IsEmpty(b[i]) ==> Holds(Cells(b, ovf)[..|ovf| + i + 1], m')
    ensures !IsEmpty(b[i]) ==> b[i].slot.Full? && b[i].slot.entry.key !in m' && |m'| < |m|
    ensures !IsEmpty(b[i]) ==> b[i].slot.entry.key in m
    ensures !IsEmpty(b[i]) ==> Holds(Cells(b, ovf)[..|ovf| + i + 1], m'[b[i].slot.entry.key := b[i].slot.entry.val])
  {
    hide *;
    SoundFacts(cfg, b, n, ovf, m);
    EmptyIsVacant(cfg, b, n, ovf, m, i);
    NextCell(Cells(b, ovf), m, |ovf| + i, m');
    if b[i].slot.Full? { BucketValue(cfg, b, n, ovf, m, i); }
    if b[i].slot.Full? { NextFits(Cells(b, ovf), m, |ovf| + i, m'); }
  }

  lemma EmptyIsVacant<K, V>(cfg: Config<K>, b: seq<Bucket<K, V>>, n: nat, ovf: seq<Entry<K, V>>, m: map<K, V>, i: nat)
    requires Sound(cfg, b, n, ovf, m) && i < |b|
    ensures IsEmpty(b[i]) <==> b[i].slot.Vacant?
    ensures Cells(b, ovf)[|ovf| + i] == b[i].slot
  {}

  lemma StoredLength<K, V>(b: seq<Bucket<K, V>>, p: nat, h: nat, e: Entry<K, V>)
    requires h <= p < |b|
    ensures |Stored(b, p, h, e)| == |b|
    ensures forall j :: 0 <= j < |b| && j != p ==> Stored(b, p, h, e)[j].slot == b[j].slot
  {}

  lemma ErasedLength<K, V>(b: seq<Bucket<K, V>>, p: nat, h: nat)
    requires h <= p < |b|
    ensures |Erased(b, p, h)| == |b|
  {}
}
