/**
  The probe sequences of the sparse table.  With 2^k buckets, quadratic probing (steps 1, 2, 3, ...)
  visits every bucket exactly once in its first 2^k probes, because triangular numbers are pairwise
  different modulo a power of two.
 */
module ProbeSequence {
  import opened Bits
  import opened GrowthPolicy
  import opened FiniteFacts

  datatype Probing = Linear | Quadratic

  // 0 + 1 + ... + j
  function Tri(j: nat): nat {
    if j == 0 then 0 else Tri(j - 1) + j
  }

  // How far from its start the probe is after j steps.
  function Offset(probing: Probing, j: nat): nat {
    if probing.Linear? then j else Tri(j)
  }

  // The bucket of the j-th probe.
  function ProbeAt(probing: Probing, h: nat, j: nat, n: nat): (r: nat)
    requires n > 0
    ensures r < n
  {
    (h + Offset(probing, j)) % n
  }

  /**
    next_bucket: the bucket of probe number `probe`, from the bucket of the probe before.
   */
  function NextBucket(probing: Probing, ibucket: nat, probe: nat, mask: nat): (r: nat)
    requires IsPow2(mask + 1)
    ensures r <= mask
  {
    BucketForHash(if probing.Linear? then ibucket + 1 else ibucket + probe, mask)
  }

  /**
    The buckets probed, in numbers.
   */
  lemma ProbeNumbers(h: nat, j: nat, n: nat)
    requires n > 0
    ensures ProbeAt(Linear, h, j, n) == (h + j) % n
    ensures j * (j + 1) >= 0 && ProbeAt(Quadratic, h, j, n) == (h + j * (j + 1) / 2) % n
  {
    TriDouble(j);
  }

  lemma NextBucketIsProbe(probing: Probing, h: nat, j: nat, mask: nat)
    requires IsPow2(mask + 1)
    ensures NextBucket(probing, ProbeAt(probing, h, j, mask + 1), j + 1, mask) == ProbeAt(probing, h, j + 1, mask + 1)
  {
    hide IsPow2, BucketForHash;
    var n, x := mask + 1, h + Offset(probing, j);
    var step := if probing.Linear? then 1 else j + 1;
    calc {
      NextBucket(probing, ProbeAt(probing, h, j, n), j + 1, mask);
      BucketForHash(ProbeAt(probing, h, j, n) + step, mask);
      { BucketIsMod(ProbeAt(probing, h, j, n) + step, mask); }
      (x % n + step) % n;
      { AddMod(x, step, n); }
      (x + step) % n;
      { assert x + step == h + Offset(probing, j + 1); }
      ProbeAt(probing, h, j + 1, n);
    }
  }

  lemma BucketIsMod(x: nat, mask: nat)
    requires IsPow2(mask + 1)
    ensures BucketForHash(x, mask) == x % (mask + 1)
  {}

  lemma AddMod(x: nat, y: nat, n: nat)
    requires n > 0
    ensures (x % n + y) % n == (x + y) % n
  {
    var q, r := x / n, x % n;
    var q', r' := (r + y) / n, (r + y) % n;
    assert x == n * q + r && r + y == n * q' + r';
    assert x + y == n * q + n * q' + r';
    assert n * q + n * q' == n * (q + q');
    ModUnique(x + y, n, q + q', r');
  }

  lemma {:induction false} TriDouble(j: nat)
    ensures 2 * Tri(j) == j * (j + 1)
  {
    if j > 0 {
      TriDouble(j - 1);
      assert j * (j + 1) == (j - 1) * j + 2 * j;
    }
  }

  // Dividing 2^k * q by an odd factor leaves a multiple of 2^k.
  lemma {:induction false} OddFactor(x: nat, y: nat, k: nat, q: nat) returns (r: nat)
    requires x % 2 == 1
    requires x * y == Pow2(k) * q
    ensures y == Pow2(k) * r
  {
    if k == 0 {
      r := y;
    } else {
      var p := Pow2(k - 1);
      assert Pow2(k) * q == 2 * (p * q);
      EvenProduct(x, y, p * q);
      var z := y / 2;
      assert x * y == 2 * (x * z);
      r := OddFactor(x, z, k - 1, q);
      assert y == 2 * (p * r);
    }
  }

  lemma EvenProduct(x: nat, y: nat, h: nat)
    requires x % 2 == 1 && x * y == 2 * h
    ensures y % 2 == 0
  {
    if y % 2 == 1 { OddProduct(x, y); }
  }

  lemma OddProduct(x: nat, y: nat)
    requires x % 2 == 1 && y % 2 == 1
    ensures (x * y) % 2 == 1
  {
    var a, b := x / 2, y / 2;
    assert x == 2 * a + 1 && y == 2 * b + 1;
    assert x * y == 2 * (2 * (a * b) + a + b) + 1;
  }

  // (b - a)(b + a + 1) is twice the difference of two triangular numbers.
  lemma TriDifference(a: nat, b: nat)
    requires a < b
    ensures Tri(a) < Tri(b)
    ensures Times(b - a, b + a + 1) == 2 * (Tri(b) - Tri(a))
  {
    TriDouble(a);
    TriDouble(b);
    assert (b - a) * (b + a + 1) == b * (b + 1) - a * (a + 1);
    assert (b - a) * (b + a + 1) > 0;
  }

  lemma SmallMultiple(x: nat, p: nat, r: nat)
    requires 0 < x < p
    ensures x != p * r
  {
    if r > 0 { MulMono(p, 1, r); }
  }

  // Triangular numbers below 2^k are pairwise different modulo 2^k.
  lemma TriDistinct(a: nat, b: nat, k: nat, q: nat)
    requires a < b < Pow2(k)
    ensures Tri(b) - Tri(a) != Times(Pow2(k), q)
  {
    assert Pow2(k + 1) == 2 * Pow2(k);
    hide *;
    TriDifference(a, b);
    Parities(a, b);
    OppositeParity(b - a, b + a + 1, k + 1, q);
    HalfProduct(Pow2(k), q, Tri(b) - Tri(a), Times(b - a, b + a + 1));
  }

  // A product, kept as a name.
  function Times(x: int, y: int): int {
    x * y
  }

  lemma Parities(a: nat, b: nat)
    requires a < b
    ensures (b - a) % 2 == 1 || (b + a + 1) % 2 == 1
  {}

  lemma HalfProduct(p: nat, q: nat, t: int, d: int)
    requires 2 * t == d && d != Times(2 * p, q)
    ensures t != Times(p, q)
  {
    Twice(p, q);
  }

  lemma OppositeParity(d: nat, s: nat, k: nat, q: nat)
    requires d % 2 == 1 || s % 2 == 1
    requires 0 < d < Pow2(k) && 0 < s < Pow2(k)
    ensures Times(d, s) != Times(Pow2(k), q)
  {
    if d * s == Pow2(k) * q {
      if d % 2 == 1 {
        var r := OddFactor(d, s, k, q);
        SmallMultiple(s, Pow2(k), r);
      } else {
        var r := OddFactor(s, d, k, q);
        SmallMultiple(d, Pow2(k), r);
      }
    }
  }

  lemma SameRemainder(x: nat, y: nat, n: nat) returns (q: nat)
    requires x <= y && n > 0 && x % n == y % n
    ensures y - x == n * q
  {
    q := y / n - x / n;
    assert x == n * (x / n) + x % n && y == n * (y / n) + y % n;
    assert y - x == n * (y / n) - n * (x / n);
    assert n * (y / n) - n * (x / n) == n * q;
    if q < 0 { MulMono(n, q, -1); }
  }

  /**
    The first 2^k probes hit pairwise different buckets.
   */
  lemma ProbesDistinct(probing: Probing, h: nat, a: nat, b: nat, n: nat)
    requires IsPow2(n) && a < b < n
    ensures ProbeAt(probing, h, a, n) != ProbeAt(probing, h, b, n)
  {
    if ProbeAt(probing, h, a, n) == ProbeAt(probing, h, b, n) {
      var x, y := Offset(probing, a), Offset(probing, b);
      if probing.Quadratic? { TriDifference(a, b); }
      assert x < y;
      var q := SameRemainder(h + x, h + y, n);
      if probing.Linear? {
        SmallMultiple(b - a, n, q);
      } else {
        var k: nat :| n == Pow2(k);
        TriDistinct(a, b, k, q);
      }
    }
  }

  // ---------- pigeonhole ----------

  // The buckets of the first j probes.
  ghost function Visited(probing: Probing, h: nat, j: nat, n: nat): (s: set<nat>)
    requires n > 0
    ensures forall t :: 0 <= t < j ==> ProbeAt(probing, h, t, n) in s
    ensures forall p :: p in s ==> p < n && exists t :: 0 <= t < j && ProbeAt(probing, h, t, n) == p
  {
    if j == 0 then {} else Visited(probing, h, j - 1, n) + {ProbeAt(probing, h, j - 1, n)}
  }

  lemma {:induction false} VisitedCount(probing: Probing, h: nat, j: nat, n: nat)
    requires IsPow2(n) && j <= n
    ensures |Visited(probing, h, j, n)| == j
  {
    hide ProbeAt, IsPow2;
    if j > 0 {
      VisitedCount(probing, h, j - 1, n);
      forall t | 0 <= t < j - 1 ensures ProbeAt(probing, h, t, n) != ProbeAt(probing, h, j - 1, n) {
        ProbesDistinct(probing, h, t, j - 1, n);
      }
    }
  }

  /**
    Every bucket is visited by the first 2^k probes, at exactly one of them.
   */
  lemma ProbesCover(probing: Probing, h: nat, p: nat, n: nat)
    requires IsPow2(n) && p < n
    ensures exists j :: 0 <= j < n && ProbeAt(probing, h, j, n) == p
    ensures forall i, j :: 0 <= i < n && 0 <= j < n && ProbeAt(probing, h, i, n) == p == ProbeAt(probing, h, j, n) ==>
              i == j
  {
    VisitedCount(probing, h, n, n);
    var s := Visited(probing, h, n, n);
    FullSubset(s, Upto(n));
    assert p in s;
    forall i, j | 0 <= i < n && 0 <= j < n && ProbeAt(probing, h, i, n) == p == ProbeAt(probing, h, j, n)
      ensures i == j
    {
      if i < j { ProbesDistinct(probing, h, i, j, n); }
      if j < i { ProbesDistinct(probing, h, j, i, n); }
    }
  }

  // The number of the probe that reaches bucket p from h.
  ghost function Steps(probing: Probing, h: nat, p: nat, n: nat): (j: nat)
    requires IsPow2(n) && p < n
    ensures j < n && ProbeAt(probing, h, j, n) == p
  {
    ProbesCover(probing, h, p, n);
    var j :| 0 <= j < n && ProbeAt(probing, h, j, n) == p;
    j
  }

  lemma StepsOfProbe(probing: Probing, h: nat, j: nat, n: nat)
    requires IsPow2(n) && j < n
    ensures Steps(probing, h, ProbeAt(probing, h, j, n), n) == j
  {
    ProbesCover(probing, h, ProbeAt(probing, h, j, n), n);
  }
}
