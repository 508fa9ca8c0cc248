/**
  A hopscotch table whose rehash asks for few enough buckets and still ends in a length error, in the
  middle of filling its new table.
 */
module HopscotchLimits {
  import opened Bits
  import opened GrowthPolicy
  import opened LoadFactor
  import opened FiniteFacts
  import opened MapCells
  import opened HopscotchBuckets
  import opened HopscotchLoops
  import opened HopscotchSteps
  import opened HopscotchTable

  // Keys up to 4 have home 7 among 8 and among 16 buckets; the others have home 0 among 8 and 8 among 16.
  const CROWDED: Config<int> := Config(k => if k <= 4 then 23 else 24, 4)

  // The bucket that key k from 1 to 7 gets among 8 buckets when the keys are inserted in this order.
  function Place(k: nat): (p: nat)
    requires 1 <= k <= 7
    ensures p < 11
  {
    if k <= 4 then 6 + k else k - 5
  }

  // Insert the keys 1 to 7, each into the first empty bucket from its home.
  method SevenKeys() returns (t: Table<int, int>)
    ensures fresh(t) && t.Valid() && |t.model| == 7 && t.BucketCount() == 8 && t.overflow == []
    ensures t.cfg == CROWDED && t.growthFactor == 2 && t.maxBuckets == 16 && t.maxLoad == 0.95
  {
    hide Sound, IsPow2, Stored, Points, ClearBucket, RoundUp, t.Shape;
    Small();
    var table := new Table<int, int>(CROWDED, 2, 16, 8, 0.95);
    t := table;
    Vacancies(t.buckets);
    for k := 1 to 8
      invariant fresh(t) && t.Valid() && |t.model| == k - 1 && |t.buckets| == 11 && t.overflow == []
      invariant t.cfg == CROWDED && t.growthFactor == 2 && t.maxBuckets == 16 && t.maxLoad == 0.95
      invariant forall i :: 1 <= i < 8 ==> (i >= k ==> t.buckets[Place(i)].slot.Vacant? && i !in t.model)
    {
      AddKey(t.model, k, 0);
      t.PutInBucket(t.buckets, Place(k), if k <= 4 then 7 else 0, k, 0);
    }
  }

  lemma Small()
    ensures IsPow2(2) && IsPow2(8) && RoundUp(8) == 8 && RoundUp(16) == 16
  {
    assert Pow2(1) == 2 && Pow2(3) == 8 && Pow2(4) == 16;
    RoundUpOfPow2(8);
    RoundUpOfPow2(16);
  }

  lemma Vacancies<K, V>(b: seq<Bucket<K, V>>)
    requires forall i :: 0 <= i < |b| ==> b[i] == ClearBucket()
    ensures forall i :: 0 <= i < |b| ==> b[i].slot.Vacant?
  {}

  // The values of full cells between lo and hi are at most hi - lo.
  lemma {:induction false} CountWithin<K, V>(c: seq<Cell<K, V>>, lo: nat, hi: nat)
    requires lo <= hi && forall i :: 0 <= i < |c| && c[i].Full? ==> lo <= i < hi
    ensures |c| <= lo ==> Count(c) == 0
    ensures Count(c) <= hi - lo
    decreases |c|
  {
    if |c| > 0 {
      var l := |c| - 1;
      CountWithin(c[..l], lo, hi);
      if c[l].Full? { CountWithin(c[..l], lo, l); }
    }
  }

  // Among 16 buckets, the homes 7 and 8 have the five buckets from 7 to 11 between them.
  lemma Crowded(t: Table<int, int>)
    requires t.Valid() && t.cfg == CROWDED && t.growthFactor == 2 && t.BucketCount() == 16
    ensures |t.model| <= 5 + |t.overflow| && t.NextMovesAll() && t.minThreshold <= 1
  {
    hide Sound, IsPow2, Occupied, Threshold, AllMove;
    FewOccupied(t.buckets, t.overflow, t.model);
    SizeIsSum(t.cfg, t.buckets, 16, t.overflow, t.model);
    SmallThreshold();
    Restless(t.model);
  }

  lemma FewOccupied(b: seq<Bucket<int, int>>, ovf: seq<Entry<int, int>>, m: map<int, int>)
    requires Sound(CROWDED, b, 16, ovf, m)
    ensures Occupied(b) <= 5
  {
    hide Sound, Hood, Holds, Cells, Count, IsPow2;
    SoundFacts(CROWDED, b, 16, ovf, m);
    forall p | 0 <= p < |b| && b[p].slot.Full? ensures 7 <= p < 12 {
      NearHome(CROWDED, b, 16, p);
    }
    CountWithin(Slots(b), 7, 12);
  }

  lemma SmallThreshold()
    ensures Threshold(16, MIN_LOAD_FACTOR_FOR_REHASH) <= 1
  {}

  lemma Restless(m: map<int, int>)
    ensures AllMove(CROWDED, 16, 32, m)
  {}

  lemma AskedFor(t: Table<int, int>)
    requires t.Valid() && |t.model| == 7 && t.maxLoad == 0.95
    ensures t.RehashCount(16) == 16
  {
    hide Sound, IsPow2;
  }

  /**
    The rehash to 16 buckets, which is all there can be, is interrupted: the five buckets from 7 to 11
    cannot take the seven values, the overflow list takes one at most, and so a growth to 32 is asked for.
   */
  method CanBeInterrupted() returns (t: Table<int, int>, s: Status)
    ensures s.Interrupted?
  {
    hide Sound, IsPow2, Thresholds, RoundUp;
    t := SevenKeys();
    Small();
    AskedFor(t);
    t.LoadRange();
    s := t.Rehash(16);
    if s.Done? {
      t.LoadRange();
      Crowded(t);
    }
  }
}
