/**
  The bucket counts that the tables ask for, and a bound on them that only depends on the number of
  elements.
 */
module RunBounds {
  import opened Bits
  import opened GrowthPolicy
  import opened LoadFactor
  import opened MapRuns

  // next_bucket_count() of a table of n buckets.
  function NextCount(growthFactor: nat, n: nat): nat {
    growthFactor * (if n == 0 then 1 else n)
  }

  // What rehash(count) asks for when there are size elements.
  function Least(count: nat, size: nat, maxLoad: real): (r: nat)
    requires 0.0 < maxLoad < 1.0
    ensures r >= count && r >= BucketsFor(size, maxLoad) && (r == count || r == BucketsFor(size, maxLoad))
  {
    var least := BucketsFor(size, maxLoad);
    if count < least then least else count
  }

  // Enough buckets for every request of a table of at most s elements.
  ghost predicate RoomForAll(growthFactor: nat, s: nat, maxBuckets: nat) {
    growthFactor * (10 * s + 10) <= maxBuckets
  }

  // An explicit request that is not too large in itself.
  ghost predicate OpFits<K, V>(op: Op<K, V>, maxBuckets: nat) {
    match op
    case Rehash(count) => !TooMany(count, maxBuckets)
    case Reserve(count) => !TooMany(10 * count, maxBuckets)
    case _ => true
  }

  // Growth is asked for by tables whose load threshold is reached, and then fits.
  lemma NextFits(growthFactor: nat, n: nat, maxLoad: real, size: nat, s: nat, maxBuckets: nat)
    requires IsPow2(growthFactor) && growthFactor >= 2 && (n > 0 ==> IsPow2(n)) && 0.1 <= maxLoad < 1.0
    requires size >= Threshold(n, maxLoad) && size <= s && RoomForAll(growthFactor, s, maxBuckets)
    ensures !TooMany(NextCount(growthFactor, n), maxBuckets)
  {
    ThresholdAtLeast(n, maxLoad);
    hide Threshold;
    var k := if n == 0 then 1 else n;
    assert Pow2(0) == 1;
    ProductOfPow2(growthFactor, k);
    RoundUpOfPow2(growthFactor * k);
    hide IsPow2, RoundUp;
    MulMono(growthFactor, k, 10 * s + 10);
  }

  // So do the requests of rehash and reserve, and of an insert that shrinks the table.
  lemma LeastFits(growthFactor: nat, count: nat, size: nat, maxLoad: real, s: nat, maxBuckets: nat)
    requires growthFactor >= 2 && 0.1 <= maxLoad < 1.0 && size <= s && RoomForAll(growthFactor, s, maxBuckets)
    requires !TooMany(count, maxBuckets)
    ensures !TooMany(Least(count, size, maxLoad), maxBuckets)
  {
    hide BucketsFor, RoundUp;
    BucketsForAtMost(size, maxLoad);
    SmallFits(growthFactor, BucketsFor(size, maxLoad), s, maxBuckets);
  }

  lemma SmallFits(growthFactor: nat, count: nat, s: nat, maxBuckets: nat)
    requires growthFactor >= 2 && count <= 10 * s + 10 && RoomForAll(growthFactor, s, maxBuckets)
    ensures !TooMany(count, maxBuckets)
  {
    hide RoundUp;
    if count > 0 { RoundUpBelowDouble(count); }
    TwiceBelow(growthFactor, 10 * s + 10);
  }

  lemma ReserveFits(growthFactor: nat, count: nat, size: nat, maxLoad: real, s: nat, maxBuckets: nat)
    requires growthFactor >= 2 && 0.1 <= maxLoad < 1.0 && size <= s && RoomForAll(growthFactor, s, maxBuckets)
    requires !TooMany(10 * count, maxBuckets) || count <= s + 1
    ensures !TooMany(Least(BucketsFor(count, maxLoad), size, maxLoad), maxBuckets)
  {
    BucketsForAtMost(count, maxLoad);
    if count <= s + 1 {
      SmallFits(growthFactor, BucketsFor(count, maxLoad), s, maxBuckets);
    } else {
      RoundUpMono(BucketsFor(count, maxLoad), 10 * count);
    }
    hide BucketsFor, RoundUp;
    LeastFits(growthFactor, BucketsFor(count, maxLoad), size, maxLoad, s, maxBuckets);
  }
}
