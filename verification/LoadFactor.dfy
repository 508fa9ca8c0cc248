/**
  Load factors as exact reals: the thresholds and the bucket requests the tables derive from
  them.
 */
module LoadFactor {

  // std::min(hi, std::max(lo, v))
  function Clamp(v: real, lo: real, hi: real): (r: real)
    requires lo <= hi
    ensures lo <= r <= hi
    ensures lo <= v <= hi ==> r == v
    ensures (v <= lo ==> r == lo) && (v >= hi ==> r == hi)
  {
    if v < lo then lo else if v > hi then hi else v
  }

  // size_type(float(bucket_count) * factor)
  function Threshold(buckets: nat, factor: real): (r: nat)
    requires 0.0 < factor < 1.0
    ensures r as real <= buckets as real * factor < r as real + 1.0
    ensures buckets > 0 ==> r < buckets
  {
    var p := buckets as real * factor;
    MulBelow(buckets as real, factor);
    p.Floor
  }

  // size_type(std::ceil(float(count) / factor)): enough buckets for count elements.
  function BucketsFor(count: nat, factor: real): (r: nat)
    requires 0.0 < factor < 1.0
    ensures r as real * factor >= count as real
    ensures count > 0 ==> r > count
    ensures count == 0 ==> r == 0
    ensures r > 0 ==> (r - 1) as real * factor < count as real
  {
    CeilFacts(count as real, factor);
    -((-(count as real / factor)).Floor)
  }

  lemma CeilFacts(c: real, f: real)
    requires c >= 0.0 && 0.0 < f < 1.0
    ensures var r := -((-(c / f)).Floor);
            && r >= 0 && r as real * f >= c
            && (c > 0.0 ==> r as real > c) && (c == 0.0 ==> r == 0)
            && (r > 0 ==> (r - 1) as real * f < c)
  {
    var q := c / f;
    var r := -((-q).Floor);
    QuotientFacts(c, f, q);
    Ceil(q, r);
    Above(q, r as real, f, c);
    if r > 0 { Below(q, (r - 1) as real, f, c); }
  }

  lemma Ceil(q: real, r: int)
    requires r == -((-q).Floor)
    ensures q <= r as real && (r - 1) as real < q && (q == 0.0 ==> r == 0) && (q >= 0.0 ==> r >= 0)
  {}

  lemma Above(q: real, r: real, f: real, c: real)
    requires q * f == c && q <= r && f > 0.0
    ensures r * f >= c
  {
    MulMonoReal(q, r, f);
  }

  lemma Below(q: real, r: real, f: real, c: real)
    requires q * f == c && r < q && f > 0.0
    ensures r * f < c
  {
    MulLessReal(r, q, f);
  }

  lemma QuotientFacts(c: real, f: real, q: real)
    requires c >= 0.0 && 0.0 < f < 1.0 && q == c / f
    ensures q * f == c && q >= c
    ensures c > 0.0 ==> q > c
  {
    assert q * f == c;
    if c > 0.0 {
      MulLess(q, f);
    } else if q != 0.0 {
      if q > 0.0 { MulPos(q, f); } else { MulPos(-q, f); }
    }
  }

  lemma MulPos(a: real, b: real)
    requires a > 0.0 && b > 0.0
    ensures a * b > 0.0
  {}

  lemma MulBelow(a: real, f: real)
    requires a >= 0.0 && 0.0 < f < 1.0
    ensures 0.0 <= a * f
    ensures a > 0.0 ==> a * f < a
  {
    if a > 0.0 { MulPos(a, 1.0 - f); }
  }

  lemma MulLess(q: real, f: real)
    requires q * f > 0.0 && 0.0 < f < 1.0
    ensures q > q * f
  {
    if q <= 0.0 { MulPos(1.0 - q, f); }
    MulBelow(q, f);
  }

  lemma MulMonoReal(a: real, b: real, f: real)
    requires a <= b && f > 0.0
    ensures a * f <= b * f
  {
    if a < b { MulPos(b - a, f); }
  }

  lemma MulLessReal(a: real, b: real, f: real)
    requires a < b && f > 0.0
    ensures a * f < b * f
  {
    MulPos(b - a, f);
  }

  lemma BucketsForFacts(count: nat, factor: real)
    requires 0.0 < factor < 1.0
    ensures count > 0 ==> BucketsFor(count, factor) > count
  {}

  // Count elements in this many buckets do not exceed the load factor.
  ghost predicate EnoughFor(buckets: nat, factor: real, count: nat) {
    buckets as real * factor >= count as real
  }

  lemma MoreIsEnough(buckets: nat, factor: real, count: nat)
    requires 0.0 < factor < 1.0 && buckets >= BucketsFor(count, factor)
    ensures EnoughFor(buckets, factor, count)
  {
    MulMonoReal(BucketsFor(count, factor) as real, buckets as real, factor);
  }

  lemma EnoughIsThreshold(buckets: nat, factor: real, count: nat)
    requires 0.0 < factor < 1.0 && EnoughFor(buckets, factor, count)
    ensures count <= Threshold(buckets, factor)
  {}

  // A threshold of a load factor of at least 0.1 is at least about a tenth of the buckets.
  lemma ThresholdAtLeast(buckets: nat, factor: real)
    requires 0.1 <= factor < 1.0
    ensures buckets <= 10 * Threshold(buckets, factor) + 9
  {
    MulMonoReal(0.1, factor, if buckets == 0 then 1.0 else buckets as real);
  }

  lemma BucketsForAtMost(count: nat, factor: real)
    requires 0.1 <= factor < 1.0
    ensures BucketsFor(count, factor) <= 10 * count
  {
    var c := count as real;
    var q := c / factor;
    QuotientFacts(c, factor, q);
    TenTimes(q, factor, c);
    FloorAbove(q, 10 * count);
  }

  lemma TenTimes(q: real, factor: real, c: real)
    requires 0.1 <= factor && q >= 0.0 && q * factor == c
    ensures q <= 10.0 * c
  {
    if q > 0.0 {
      MulMonoReal(0.1, factor, q);
      assert factor * q == c && 0.1 * q <= c;
    } else {
      assert q == 0.0 && c == 0.0;
    }
  }

  lemma FloorAbove(q: real, n: int)
    requires q <= n as real
    ensures -((-q).Floor) <= n
  {}
}
