/**
  The sparse hash table: buckets packed into sparse arrays, linear or quadratic probing with
  tombstones, tombstone reuse on insert and clean-up by rehash.

  `model` is the finite map the table stands for; every operation is specified on it.
 */
module SparseTable {
  import opened Bits
  import opened GrowthPolicy
  import opened LoadFactor
  import opened FiniteFacts
  import opened Options
  import opened SparseArray
  import opened SparseSlots
  import opened SparseLoops
  import opened SparseLists

  // Everything about the buckets: they fit, every key can be reached by probing, they hold exactly
  // m, and `tombs` of them are tombstones.
  ghost predicate Sound<K(!new), V>(cfg: Config<K>, arrays: seq<Array<Entry<K, V>>>, n: nat, m: map<K, V>, tombs: int) {
    && Fitted(arrays, n)
    && (n > 0 ==> Reachable(cfg, Slots(arrays, n)))
    && Holds(Slots(arrays, n), m)
    && NbTomb(Slots(arrays, n)) == tombs
  }

  lemma BlankSound<K(!new), V>(cfg: Config<K>, arrays: seq<Array<Entry<K, V>>>, n: nat)
    requires n > 0 ==> IsPow2(n)
    requires arrays == seq(NbArrays(n), _ => Blank())
    ensures Sound(cfg, arrays, n, map[], 0)
  {
    hide IsPow2, SlotAt;
    forall i | 0 <= i < 64 * |arrays| ensures SlotOf(arrays, i).Free? {}
    var s := Slots(arrays, n);
    AllFree(s);
    assert Holds<K, V>(s, map[]);
  }

  lemma SoundFacts<K(!new), V>(cfg: Config<K>, arrays: seq<Array<Entry<K, V>>>, n: nat, m: map<K, V>, tombs: int)
    requires Sound(cfg, arrays, n, m, tombs)
    ensures Fitted(arrays, n) && (n > 0 ==> IsPow2(n)) && |arrays| == NbArrays(n)
    ensures NbOcc(Slots(arrays, n)) == |m| && NbTomb(Slots(arrays, n)) == tombs
    ensures n > 0 ==> Reachable(cfg, Slots(arrays, n))
  {}

  lemma SoundLookup<K(!new), V>(cfg: Config<K>, arrays: seq<Array<Entry<K, V>>>, n: nat, m: map<K, V>, tombs: int, k: K)
    requires Sound(cfg, arrays, n, m, tombs)
    ensures HasKey(Slots(arrays, n), k) <==> k in m
    ensures var s := Slots(arrays, n);
            forall i :: 0 <= i < n && s[i].Occ? && s[i].val.key == k ==> s[i].val.val == m[k]
  {
    HoldsLookup(Slots(arrays, n), m, k);
  }

  lemma SoundSearch<K(!new), V>(cfg: Config<K>, arrays: seq<Array<Entry<K, V>>>, n: nat, m: map<K, V>, tombs: int, k: K)
    requires Sound(cfg, arrays, n, m, tombs) && (|m| + tombs < n || n == 0)
    ensures Met(cfg, Slots(arrays, n), k) <==> HasKey(Slots(arrays, n), k)
    ensures n > 0 ==> HasFree(Slots(arrays, n))
  {
    hide Slots, Reachable, KeysDistinct, Met, Fitted;
    SlotsLength(arrays, n);
    if n > 0 {
      MetIsStored(cfg, Slots(arrays, n), k);
      var _ := FreeExists(Slots(arrays, n));
    } else {
      NothingMet(cfg, Slots(arrays, n), k);
    }
  }

  /**
    insert_in_bucket: the entry goes to a bucket that can take it.
   */
  method Put<K(!new), V>(ghost cfg: Config<K>, arrays: seq<Array<Entry<K, V>>>, n: nat, target: nat, e: Entry<K, V>,
                         ghost m: map<K, V>, ghost tombs: int)
    returns (arrays': seq<Array<Entry<K, V>>>)
    requires Sound(cfg, arrays, n, m, tombs) && target < n && e.key !in m
    requires IsPow2(n) && CanTake(cfg, Slots(arrays, n), Home(cfg, e.key, n), target)
    ensures Sound(cfg, arrays', n, m[e.key := e.val], tombs - (if Slots(arrays, n)[target].Tomb? then 1 else 0))
    ensures Slots(arrays', n) == Slots(arrays, n)[target := Occ(e)]
  {
    hide Slots, Reachable, Holds, NbTomb, CanTake, SlotAt, Valid, IsPow2;
    ghost var s := Slots(arrays, n);
    SlotsAt(arrays, n, target);
    TakenNotOcc(cfg, s, Home(cfg, e.key, n), target);
    var i, index := SparseIbucket(target), IndexInSparseBucket(target);
    ArrayOk(arrays, n, i);
    OccHasValue(arrays[i], index);
    var a := Set(arrays[i], index, e);
    OneSlotChanges(arrays, n, target, a, Occ(e));
    PutSound(cfg, s, target, e, m);
    arrays' := arrays[i := a];
  }

  lemma ArrayOk<T>(arrays: seq<Array<T>>, n: nat, i: nat)
    requires Fitted(arrays, n) && i < |arrays|
    ensures Valid(arrays[i])
  {}

  lemma OccHasValue<T>(a: Array<T>, i: nat)
    requires Valid(a)
    ensures HasValue(a, i) <==> SlotAt(a, i).Occ?
  {}

  lemma TakenNotOcc<K(!new), V>(cfg: Config<K>, s: seq<Slot<Entry<K, V>>>, h: nat, p: nat)
    requires IsPow2(|s|) && h < |s| && CanTake(cfg, s, h, p)
    ensures p < |s| && !s[p].Occ?
  {}

  lemma PutSound<K(!new), V>(cfg: Config<K>, s: seq<Slot<Entry<K, V>>>, p: nat, e: Entry<K, V>, m: map<K, V>)
    requires |s| > 0 && Reachable(cfg, s) && Holds(s, m) && e.key !in m
    requires CanTake(cfg, s, Home(cfg, e.key, |s|), p)
    ensures Reachable(cfg, s[p := Occ(e)]) && Holds(s[p := Occ(e)], m[e.key := e.val])
    ensures NbTomb(s[p := Occ(e)]) == NbTomb(s) - (if s[p].Tomb? then 1 else 0)
  {
    hide Holds;
    SetHolds(s, m, p, e);
    UpdateReachable(cfg, s, p, Occ(e));
    CountsUpdate(s, p, Occ(e));
  }

  /**
    The erasing branch of erase_impl: the bucket becomes a tombstone.
   */
  method Remove<K(!new), V>(ghost cfg: Config<K>, arrays: seq<Array<Entry<K, V>>>, n: nat, target: nat,
                            ghost m: map<K, V>, ghost tombs: int)
    returns (arrays': seq<Array<Entry<K, V>>>)
    requires Sound(cfg, arrays, n, m, tombs) && target < n && Slots(arrays, n)[target].Occ?
    ensures var k := Slots(arrays, n)[target].val.key; k in m && Sound(cfg, arrays', n, m - {k}, tombs + 1)
    ensures Slots(arrays', n) == Slots(arrays, n)[target := Tomb]
  {
    hide Slots, Reachable, Holds, NbTomb, SlotAt, Valid, IsPow2;
    ghost var s := Slots(arrays, n);
    SlotsAt(arrays, n, target);
    var i, index := SparseIbucket(target), IndexInSparseBucket(target);
    ArrayOk(arrays, n, i);
    OccHasValue(arrays[i], index);
    var a := Erase(arrays[i], index);
    OneSlotChanges(arrays, n, target, a, Tomb);
    RemoveSound(cfg, s, target, m);
    arrays' := arrays[i := a];
  }

  lemma RemoveSound<K(!new), V>(cfg: Config<K>, s: seq<Slot<Entry<K, V>>>, p: nat, m: map<K, V>)
    requires p < |s| && s[p].Occ? && Reachable(cfg, s) && Holds(s, m)
    ensures s[p].val.key in m
    ensures Reachable(cfg, s[p := Tomb]) && Holds(s[p := Tomb], m - {s[p].val.key})
    ensures NbTomb(s[p := Tomb]) == NbTomb(s) + 1
  {
    hide Holds;
    EraseHolds(s, m, p);
    UpdateReachable(cfg, s, p, Tomb);
    CountsUpdate(s, p, Tomb);
  }

  /**
    The loops of rehash_impl: every value of the old arrays, inserted into n free buckets.
   */
  method Refill<K(!new), V>(cfg: Config<K>, mask: nat, n: nat, src: seq<Array<Entry<K, V>>>, ghost m: map<K, V>)
    returns (arrays: seq<Array<Entry<K, V>>>)
    requires MaskOf(mask, n) && Lists(Values(src), m) && (|m| < n || |m| == n == 0)
    ensures Sound(cfg, arrays, n, m, 0)
  {
    hide Sound, Lists, Values, IsPow2;
    ghost var es := Values(src);
    ListsSize(es, m);
    ghost var copied: map<K, V> := map[];
    arrays := seq(NbArrays(n), _ => Blank());
    BlankSound(cfg, arrays, n);
    NothingListed(src, es);
    for i := 0 to |src|
      invariant |Values(src[..i])| <= |es| && Lists(es[..|Values(src[..i])|], copied)
      invariant Sound(cfg, arrays, n, copied, 0)
    {
      ValuesAt(src, i);
      arrays, copied := RefillFrom(cfg, mask, n, src[i].values, arrays, copied, es, |Values(src[..i])|, m);
    }
    assert src[..|src|] == src;
    assert es[..|es|] == es;
    ListsUnique(es, m, copied);
  }

  // The values of one old array, which are those of the whole list from position base on.
  method RefillFrom<K(!new), V>(cfg: Config<K>, mask: nat, n: nat, values: seq<Entry<K, V>>,
                                into: seq<Array<Entry<K, V>>>,
                                ghost done: map<K, V>, ghost es: seq<Entry<K, V>>, ghost base: nat, ghost m: map<K, V>)
    returns (arrays: seq<Array<Entry<K, V>>>, ghost copied: map<K, V>)
    requires MaskOf(mask, n) && Lists(es, m) && (|m| < n || |m| == n == 0)
    requires base + |values| <= |es| && forall o :: 0 <= o < |values| ==> es[base + o] == values[o]
    requires Lists(es[..base], done) && Sound(cfg, into, n, done, 0)
    ensures Lists(es[..base + |values|], copied) && Sound(cfg, arrays, n, copied, 0)
  {
    hide Sound, Lists, CanTake, Slots, NbOcc, NbTomb, IsPow2;
    ListsSize(es, m);
    arrays, copied := into, done;
    for o := 0 to |values|
      invariant Lists(es[..base + o], copied) && Sound(cfg, arrays, n, copied, 0)
    {
      var e := values[o];
      assert es[base + o] == e;
      ListedOnce(es, m, base + o, copied);
      ListsSize(es[..base + o], copied);
      SoundFacts(cfg, arrays, n, copied, 0);
      var target := SeekFree(cfg, mask, arrays, n, e.key);
      NoTombs(Slots(arrays, n), target);
      arrays := Put(cfg, arrays, n, target, e, copied, 0);
      copied := copied[e.key := e.val];
    }
  }

  lemma ListsSize<K, V>(es: seq<Entry<K, V>>, m: map<K, V>)
    requires Lists(es, m)
    ensures |es| == |m|
  {}

  lemma NothingListed<K, V>(src: seq<Array<Entry<K, V>>>, es: seq<Entry<K, V>>)
    ensures Values(src[..0]) == [] && Lists(es[..0], map[])
  {}

  lemma {:induction false} ValuesAt<T>(src: seq<Array<T>>, i: nat)
    requires i < |src|
    ensures |Values(src[..i + 1])| == |Values(src[..i])| + |src[i].values| <= |Values(src)|
    ensures forall o :: 0 <= o < |src[i].values| ==> Values(src)[|Values(src[..i])| + o] == src[i].values[o]
    decreases |src|
  {
    var l := |src| - 1;
    assert src[..i + 1][..i] == src[..i];
    if i == l {
      assert src[..i + 1] == src;
    } else {
      assert src[..l][..i] == src[..i] && src[..l][..i + 1] == src[..i + 1];
      ValuesAt(src[..l], i);
    }
  }

  lemma {:induction false} NoTombs<T>(s: seq<Slot<T>>, p: nat)
    requires NbTomb(s) == 0 && p < |s|
    ensures !s[p].Tomb?
  {
    if p < |s| - 1 { NoTombs(s[..|s| - 1], p); }
  }

  // The load factor, tombstones included, above which tombstones are cleared.
  function WithDeleted(maxLoad: real): (r: real)
    requires 0.1 <= maxLoad <= 0.8
    ensures maxLoad < r <= 0.9 && 2.0 * r == maxLoad + 1.0
  {
    maxLoad + 0.5 * (1.0 - maxLoad)
  }

  ghost predicate Thresholds(n: nat, maxLoad: real, rehash: nat, clearDeleted: nat) {
    0.1 <= maxLoad <= 0.8 && rehash == Threshold(n, maxLoad) && clearDeleted == Threshold(n, WithDeleted(maxLoad))
  }

  lemma ThresholdFacts(n: nat, f: real, t: nat, c: nat)
    requires Thresholds(n, f, t, c)
    ensures n > 0 ==> t < n && c < n
    ensures n == 0 ==> t == 0
  {}

  // ---------- the table ----------

  datatype InsertResult = Inserted(ibucket: nat) | Present(ibucket: nat) | LengthError

  class Table<K(==, !new), V> {
    const cfg: Config<K>
    const growthFactor: nat
    const maxBuckets: nat             // max_bucket_count(): the largest size of the vector of arrays

    var arrays: seq<Array<Entry<K, V>>>
    var bucketCount: nat
    var mask: nat
    var nbElements: nat
    var nbDeletedBuckets: nat
    var loadThresholdRehash: nat
    var loadThresholdClearDeleted: nat
    var maxLoad: real

    ghost var model: map<K, V>

    ghost predicate Shape()
      reads this
    {
      && IsPow2(growthFactor) && growthFactor >= 2 && bucketCount <= maxBuckets <= MAX_BUCKET_COUNT
      && 0.1 <= maxLoad <= 0.8
      && MaskOf(mask, bucketCount)
      && Thresholds(bucketCount, maxLoad, loadThresholdRehash, loadThresholdClearDeleted)
      && nbElements == |model|
      && (nbElements + nbDeletedBuckets < bucketCount || nbElements == nbDeletedBuckets == bucketCount == 0)
    }

    /**
      Every key is reachable by probing, the tombstone counter is exact, and values and tombstones
      together leave a free bucket.
     */
    ghost predicate Valid()
      reads this
    {
      Shape() && Sound(cfg, arrays, bucketCount, model, nbDeletedBuckets)
    }

    // The arrays list the finite map, whether or not its keys can be reached.
    ghost predicate Listed()
      reads this
    {
      && IsPow2(growthFactor) && growthFactor >= 2 && maxBuckets <= MAX_BUCKET_COUNT && 0.1 <= maxLoad <= 0.8
      && nbElements == |model| && Lists(Values(arrays), model)
    }

    /**
      The next insert will rehash before it searches: the arrays only have to list the map.
     */
    ghost predicate Stale()
      reads this
    {
      && Listed() && MaskOf(mask, bucketCount) && loadThresholdRehash == 0
      && (nbElements < bucketCount || nbElements == bucketCount == 0)
    }

    lemma ValidListed()
      requires Valid()
      ensures Listed()
    {
      hide Sound, Lists, Thresholds, Values;
      AllListed(cfg, arrays, bucketCount, model, nbDeletedBuckets);
    }

    function NextBucketCount(): nat
      reads this`mask
    {
      (mask + 1) * growthFactor
    }

    /**
      An empty table with at least bucketCount buckets.
     */
    constructor (cfg: Config<K>, growthFactor: nat, maxBuckets: nat, bucketCount: nat, maxLoad: real)
      requires IsPow2(growthFactor) && growthFactor >= 2 && maxBuckets <= MAX_BUCKET_COUNT
      requires !TooMany(bucketCount, maxBuckets)
      ensures Valid() && model == map[]
      ensures this.cfg == cfg && this.growthFactor == growthFactor && this.maxBuckets == maxBuckets
      ensures this.bucketCount == (if bucketCount == 0 then 0 else RoundUp(bucketCount))
      ensures this.maxLoad == Clamp(maxLoad, 0.1, 0.8) && nbDeletedBuckets == 0
    {
      hide Sound, Threshold, WithDeleted;
      this.cfg, this.growthFactor, this.maxBuckets := cfg, growthFactor, maxBuckets;
      var n := 0;
      assert Pow2(0) == 1;
      if bucketCount > 0 {
        n := RoundUpToPowerOfTwo(bucketCount);
      }
      var load := Clamp(maxLoad, 0.1, 0.8);
      this.bucketCount := n;
      arrays := seq(NbArrays(n), _ => Blank());
      mask := if n == 0 then 0 else n - 1;
      nbElements, nbDeletedBuckets := 0, 0;
      this.maxLoad := load;
      loadThresholdRehash := Threshold(n, load);
      loadThresholdClearDeleted := Threshold(n, WithDeleted(load));
      model := map[];
      new;
      BlankSound(cfg, arrays, n);
    }

    /**
      Construction as a user calls it: an empty table, or length_error for too many buckets.
     */
    static method Create(cfg: Config<K>, growthFactor: nat, maxBuckets: nat, bucketCount: nat, maxLoad: real)
      returns (t: Option<Table<K, V>>)
      requires IsPow2(growthFactor) && growthFactor >= 2 && maxBuckets <= MAX_BUCKET_COUNT
      ensures t.None? <==> TooMany(bucketCount, maxBuckets)
      ensures t.Some? ==> fresh(t.value) && t.value.Valid() && t.value.model == map[] && t.value.nbDeletedBuckets == 0
      ensures t.Some? ==> t.value.cfg == cfg && t.value.growthFactor == growthFactor && t.value.maxBuckets == maxBuckets
      ensures t.Some? ==> t.value.bucketCount == Rounded(bucketCount) && t.value.maxLoad == Clamp(maxLoad, 0.1, 0.8)
    {
      hide Sound, TooMany, RoundUp;
      if TooMany(bucketCount, maxBuckets) {
        return None;
      }
      var table := new Table<K, V>(cfg, growthFactor, maxBuckets, bucketCount, maxLoad);
      t := Some(table);
    }

    /**
      find: the value of the key when the map has it.
     */
    method Find(key: K) returns (found: bool, ibucket: nat)
      requires Valid()
      ensures Fitted(arrays, bucketCount)
      ensures found <==> key in model
      ensures found ==> ibucket < bucketCount && Slots(arrays, bucketCount)[ibucket] == Occ(Entry(key, model[key]))
    {
      hide Sound, Slots, Thresholds;
      SoundFacts(cfg, arrays, bucketCount, model, nbDeletedBuckets);
      SoundLookup(cfg, arrays, bucketCount, model, nbDeletedBuckets, key);
      SoundSearch(cfg, arrays, bucketCount, model, nbDeletedBuckets, key);
      found, ibucket := Seek(cfg, mask, arrays, bucketCount, key);
    }

    // The value stored in an occupied bucket.
    function ValueAt(ibucket: nat): (e: Entry<K, V>)
      reads this
      requires Fitted(arrays, bucketCount) && ibucket < bucketCount && Slots(arrays, bucketCount)[ibucket].Occ?
      ensures Slots(arrays, bucketCount)[ibucket] == Occ(e)
    {
      SlotsAt(arrays, bucketCount, ibucket);
      OccHasValue(arrays[ibucket / 64], ibucket % 64);
      Value(arrays[SparseIbucket(ibucket)], IndexInSparseBucket(ibucket))
    }

    ghost predicate Fits(count: nat)
      reads this
    {
      if count == 0 then nbElements == 0 else nbElements < RoundUp(count)
    }

    /**
      rehash_impl: the same finite map in RoundUp(count) buckets, without tombstones.
     */
    method RehashImpl(count: nat)
      requires Listed() && !TooMany(count, maxBuckets) && Fits(count)
      modifies this
      ensures Valid() && model == old(model) && maxLoad == old(maxLoad)
      ensures bucketCount == (if count == 0 then 0 else RoundUp(count)) && nbDeletedBuckets == 0
    {
      hide Sound, RoundUp, Thresholds, Lists, Values, Fitted;
      var table: Table<K, V> := new Table<K, V>(cfg, growthFactor, maxBuckets, count, maxLoad);
      arrays := Refill(cfg, table.mask, table.bucketCount, arrays, model);
      bucketCount, mask, nbDeletedBuckets := table.bucketCount, table.mask, 0;
      loadThresholdRehash, loadThresholdClearDeleted := table.loadThresholdRehash, table.loadThresholdClearDeleted;
    }

    // The next insert will ask for more buckets than there can be.
    predicate GrowthFails()
      reads this
    {
      nbElements >= loadThresholdRehash && TooMany(NextBucketCount(), maxBuckets)
    }

    // The start of insert_impl: grow, or clear the tombstones, when the load asks for it.
    method MakeRoom() returns (ok: bool)
      requires Valid() || Stale()
      modifies this
      ensures ok || old(Valid()) ==> Valid()
      ensures model == old(model) && ok == !old(GrowthFails()) && (!ok ==> unchanged(this))
      ensures ok ==> nbElements + nbDeletedBuckets + 1 < bucketCount
      ensures ok && old(nbElements >= loadThresholdRehash) ==>
                bucketCount == old(RoundUp(NextBucketCount())) && nbDeletedBuckets == 0
      ensures old(nbElements < loadThresholdRehash) ==>
                if old(nbElements + nbDeletedBuckets >= loadThresholdClearDeleted)
                then nbDeletedBuckets == 0 else arrays == old(arrays)
      ensures old(nbElements < loadThresholdRehash) || !ok ==> bucketCount == old(bucketCount)
      ensures maxLoad == old(maxLoad)
    {
      hide Sound, RoundUp, Thresholds, NextBucketCount, TooMany, Lists, Values;
      if Valid() {
        ThresholdFacts(bucketCount, maxLoad, loadThresholdRehash, loadThresholdClearDeleted);
        ValidListed();
      }
      if nbElements >= loadThresholdRehash {
        var count := NextBucketCount();
        GrowsEnough();
        if TooMany(count, maxBuckets) {
          return false;
        }
        RehashImpl(count);
      } else if nbElements + nbDeletedBuckets >= loadThresholdClearDeleted {
        SameCount();
        RehashImpl(bucketCount);
      }
      return true;
    }

    // Growing multiplies the bucket count by the growth factor.
    lemma NextIsMultiple()
      requires Valid()
      ensures NextBucketCount() == (if bucketCount == 0 then growthFactor else bucketCount * growthFactor)
      ensures RoundUp(NextBucketCount()) == NextBucketCount()
    {
      hide Sound, Thresholds, IsPow2, RoundUp;
      ProductOfPow2(mask + 1, growthFactor);
      RoundUpOfPow2(NextBucketCount());
    }

    lemma GrowsEnough()
      requires growthFactor >= 2
      ensures NextBucketCount() >= 2 * (mask + 1)
      ensures RoundUp(NextBucketCount()) >= NextBucketCount()
    {
      MulMono(mask + 1, 2, growthFactor);
    }

    lemma SameCount()
      requires Shape() && bucketCount > 0
      ensures RoundUp(bucketCount) == bucketCount && !TooMany(bucketCount, maxBuckets)
    {
      RoundUpOfPow2(bucketCount);
    }

    /**
      insert: a present key is left as it is; a new key is added, in the first tombstone on its probe
      path if there was one.  A stale table becomes valid on the way.
     */
    method Insert(key: K, val: V) returns (r: InsertResult)
      requires Valid() || Stale()
      modifies this
      ensures !r.LengthError? || old(Valid()) ==> Valid() && Fitted(arrays, bucketCount)
      ensures (r.LengthError? <==> old(GrowthFails())) && (r.LengthError? ==> unchanged(this))
      ensures !r.LengthError? ==> (r.Present? <==> key in old(model))
      ensures model == if r.Inserted? then old(model)[key := val] else old(model)
      ensures maxLoad == old(maxLoad)
      ensures bucketCount == if !r.LengthError? && old(nbElements >= loadThresholdRehash)
                             then old(RoundUp(NextBucketCount())) else old(bucketCount)
      ensures !r.LengthError? ==>
                r.ibucket < bucketCount && Slots(arrays, bucketCount)[r.ibucket] == Occ(Entry(key, model[key]))
    {
      hide Sound, Slots, Thresholds, CanTake, FirstWithoutValue, GrowthFails, RoundUp, NextBucketCount, Stale;
      var ok := MakeRoom();
      if !ok {
        if Valid() { SoundFacts(cfg, arrays, bucketCount, model, nbDeletedBuckets); }
        return LengthError;
      }
      SoundFacts(cfg, arrays, bucketCount, model, nbDeletedBuckets);
      SoundLookup(cfg, arrays, bucketCount, model, nbDeletedBuckets, key);
      SlotsLength(arrays, bucketCount);
      var found, target, reuse := SeekForInsert(cfg, mask, arrays, bucketCount, key);
      if found {
        return Present(target);
      }
      PlaceNew(target, reuse, key, val);
      return Inserted(target);
    }

    // insert_in_bucket, and the tombstone counter when a tombstone was reused.
    method PlaceNew(target: nat, reuse: bool, key: K, val: V)
      requires Valid() && Fitted(arrays, bucketCount) && IsPow2(bucketCount)
      requires key !in model && nbElements + nbDeletedBuckets + 1 < bucketCount
      requires target < bucketCount && CanTake(cfg, Slots(arrays, bucketCount), Home(cfg, key, bucketCount), target)
      requires reuse <==> Slots(arrays, bucketCount)[target].Tomb?
      modifies this`arrays, this`nbElements, this`nbDeletedBuckets, this`model
      ensures Valid() && Fitted(arrays, bucketCount)
      ensures model == old(model)[key := val]
      ensures Slots(arrays, bucketCount)[target] == Occ(Entry(key, val))
    {
      hide Sound, Slots, Thresholds, CanTake, IsPow2, Fitted, MaskOf, Home;
      SlotsLength(arrays, bucketCount);
      AddKey(model, key, val);
      var b := Put(cfg, arrays, bucketCount, target, Entry(key, val), model, nbDeletedBuckets);
      ghost var m, tombs := model[key := val], nbDeletedBuckets - if reuse then 1 else 0;
      SoundTombs(cfg, b, bucketCount, m, tombs);
      SoundFacts(cfg, b, bucketCount, m, tombs);
      arrays := b;
      nbElements := nbElements + 1;
      if reuse {
        nbDeletedBuckets := nbDeletedBuckets - 1;
      }
      model := m;
    }

    /**
      insert_or_assign: afterwards the key has the value, unless the table cannot grow.
     */
    method InsertOrAssign(key: K, val: V) returns (r: InsertResult)
      requires Valid()
      modifies this
      ensures Valid()
      ensures r.LengthError? <==> old(GrowthFails())
      ensures !r.LengthError? ==> (r.Present? <==> key in old(model))
      ensures model == if r.LengthError? then old(model) else old(model)[key := val]
      ensures maxLoad == old(maxLoad)
      ensures bucketCount == if !r.LengthError? && old(nbElements >= loadThresholdRehash)
                             then old(RoundUp(NextBucketCount())) else old(bucketCount)
    {
      hide Sound, Slots, Thresholds, GrowthFails, RoundUp, NextBucketCount;
      r := Insert(key, val);
      if r.Present? {
        AssignKey(model, key, val);
        arrays := Assign(cfg, arrays, bucketCount, r.ibucket, val, model, nbDeletedBuckets);
        model := model[key := val];
      }
    }

    /**
      erase(key): 1 and the key is gone, leaving a tombstone, or 0 and nothing changed.
     */
    method EraseKey(key: K) returns (n: nat)
      requires Valid()
      modifies this
      ensures Valid()
      ensures n == if key in old(model) then 1 else 0
      ensures model == old(model) - {key}
      ensures nbDeletedBuckets == old(nbDeletedBuckets) + n
      ensures bucketCount == old(bucketCount) && maxLoad == old(maxLoad)
    {
      hide Sound, Slots, Thresholds, Fitted;
      var found, ibucket := Find(key);
      RemoveKey(model, key);
      if !found {
        return 0;
      }
      SlotsLength(arrays, bucketCount);
      EraseAt(ibucket);
      return 1;
    }

    /**
      erase(pos): the entry in that bucket is gone, leaving a tombstone.
     */
    method EraseAt(ibucket: nat)
      requires Valid() && Fitted(arrays, bucketCount)
      requires ibucket < bucketCount && Slots(arrays, bucketCount)[ibucket].Occ?
      modifies this
      ensures Valid() && model == old(model - {Slots(arrays, bucketCount)[ibucket].val.key})
      ensures nbElements == old(nbElements) - 1 && nbDeletedBuckets == old(nbDeletedBuckets) + 1
      ensures bucketCount == old(bucketCount) && maxLoad == old(maxLoad)
      ensures Fitted(arrays, bucketCount)
      ensures Slots(arrays, bucketCount) == old(Slots(arrays, bucketCount))[ibucket := Tomb]
    {
      hide Sound, Slots, Thresholds, Fitted;
      SlotsLength(arrays, bucketCount);
      ghost var key := Slots(arrays, bucketCount)[ibucket].val.key;
      RemoveKey(model, key);
      var b := Remove(cfg, arrays, bucketCount, ibucket, model, nbDeletedBuckets);
      SoundFacts(cfg, b, bucketCount, model - {key}, nbDeletedBuckets + 1);
      arrays := b;
      model := model - {key};
      nbElements := nbElements - 1;
      nbDeletedBuckets := nbDeletedBuckets + 1;
    }

    /**
      clear: the empty map; the buckets stay, all free.
     */
    method Clear()
      requires Valid()
      modifies this
      ensures Valid() && model == map[] && nbDeletedBuckets == 0 && bucketCount == old(bucketCount)
      ensures maxLoad == old(maxLoad)
    {
      hide Sound, Thresholds, IsPow2, NbArrays, Slots;
      SoundFacts(cfg, arrays, bucketCount, model, nbDeletedBuckets);
      var blank := seq(|arrays|, _ => Blank());
      BlankSound(cfg, blank, bucketCount);
      arrays := blank;
      nbElements, nbDeletedBuckets := 0, 0;
      model := map[];
    }

    function RehashCount(count: nat): (r: nat)
      reads this`nbElements, this`maxLoad
      requires 0.1 <= maxLoad <= 0.8
      ensures r >= count && r >= BucketsFor(nbElements, maxLoad)
    {
      var least := BucketsFor(nbElements, maxLoad);
      if count < least then least else count
    }

    /**
      rehash(count): the same finite map in a table of at least count buckets, or length_error.
     */
    method Rehash(count: nat) returns (ok: bool)
      requires Valid()
      modifies this
      ensures Valid() && model == old(model)
      ensures ok == !old(TooMany(RehashCount(count), maxBuckets))
      ensures ok ==> bucketCount >= count && nbDeletedBuckets == 0
      ensures ok ==> bucketCount == old(Rounded(RehashCount(count)))
      ensures !ok ==> unchanged(this)
      ensures maxLoad == old(maxLoad)
    {
      hide Sound, BucketsFor, Thresholds, RoundUp;
      BucketsForFacts(nbElements, maxLoad);
      var c := RehashCount(count);
      RoundUpAbove(c);
      if TooMany(c, maxBuckets) {
        return false;
      }
      ValidListed();
      RehashImpl(c);
      return true;
    }

    method Reserve(count: nat) returns (ok: bool)
      requires Valid()
      modifies this
      ensures Valid() && model == old(model)
      ensures ok == !old(TooMany(RehashCount(BucketsFor(count, maxLoad)), maxBuckets))
      ensures ok ==> EnoughFor(bucketCount, maxLoad, count)
      ensures ok ==> bucketCount == old(Rounded(RehashCount(BucketsFor(count, maxLoad))))
      ensures !ok ==> unchanged(this)
      ensures maxLoad == old(maxLoad)
    {
      hide Sound, BucketsFor, EnoughFor, Thresholds, RoundUp;
      var c := BucketsFor(count, maxLoad);
      ok := Rehash(c);
      if ok { MoreIsEnough(bucketCount, maxLoad, count); }
    }

    method SetMaxLoad(ml: real)
      requires Valid()
      modifies this`maxLoad, this`loadThresholdRehash, this`loadThresholdClearDeleted
      ensures Valid() && maxLoad == Clamp(ml, 0.1, 0.8)
      ensures (ml >= 0.8 ==> maxLoad == 0.8) && (ml <= 0.1 ==> maxLoad == 0.1) && (0.1 <= ml <= 0.8 ==> maxLoad == ml)
    {
      hide Sound, Threshold, WithDeleted;
      maxLoad := Clamp(ml, 0.1, 0.8);
      loadThresholdRehash := Threshold(bucketCount, maxLoad);
      loadThresholdClearDeleted := Threshold(bucketCount, WithDeleted(maxLoad));
    }
  }

  // Assigning to the value of a stored key.
  method Assign<K(!new), V>(ghost cfg: Config<K>, arrays: seq<Array<Entry<K, V>>>, n: nat, target: nat, v: V,
                            ghost m: map<K, V>, ghost tombs: int)
    returns (arrays': seq<Array<Entry<K, V>>>)
    requires Sound(cfg, arrays, n, m, tombs) && target < n && Slots(arrays, n)[target].Occ?
    ensures Sound(cfg, arrays', n, m[Slots(arrays, n)[target].val.key := v], tombs)
  {
    hide Slots, Reachable, Holds, NbTomb, SlotAt, Valid, IsPow2;
    ghost var s := Slots(arrays, n);
    SlotsAt(arrays, n, target);
    var i, index := SparseIbucket(target), IndexInSparseBucket(target);
    ArrayOk(arrays, n, i);
    OccHasValue(arrays[i], index);
    var e := Entry(Value(arrays[i], index).key, v);
    var a := SetValue(arrays[i], index, e);
    OneSlotChanges(arrays, n, target, a, Occ(e));
    AssignHolds(s, m, target, v);
    AssignReachable(cfg, s, target, e);
    CountsUpdate(s, target, Occ(e));
    arrays' := arrays[i := a];
  }

  lemma AssignReachable<K(!new), V>(cfg: Config<K>, s: seq<Slot<Entry<K, V>>>, p: nat, e: Entry<K, V>)
    requires Reachable(cfg, s) && p < |s| && s[p].Occ? && s[p].val.key == e.key
    ensures Reachable(cfg, s[p := Occ(e)])
  {
    UpdateReachable(cfg, s, p, Occ(e));
  }

  lemma AllListed<K(!new), V>(cfg: Config<K>, arrays: seq<Array<Entry<K, V>>>, n: nat, m: map<K, V>, tombs: int)
    requires Sound(cfg, arrays, n, m, tombs)
    ensures Lists(Values(arrays), m)
  {
    hide Holds, Lists;
    ValuesAreEntries(arrays, n);
    EntriesList(Slots(arrays, n), m);
  }

  lemma SoundTombs<K(!new), V>(cfg: Config<K>, arrays: seq<Array<Entry<K, V>>>, n: nat, m: map<K, V>, tombs: int)
    requires Sound(cfg, arrays, n, m, tombs)
    ensures tombs >= 0
  {}
}
