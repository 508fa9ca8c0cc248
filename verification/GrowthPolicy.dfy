/**
  The power-of-two growth policy shared by the three hash tables: bucket counts are powers
  of two, a hash is mapped to a bucket with a mask, and a requested bucket count is rounded
  up with the bit-smearing loop.
 */
module GrowthPolicy {
  import opened Bits

  // Largest power of two of a 64-bit size_t.
  const MAX_BUCKET_COUNT: nat := 0x8000_0000_0000_0000

  ghost predicate IsPow2(n: nat) {
    exists k: nat :: n == Pow2(k)
  }

  // The least power of two that is >= value.
  function RoundUp(value: nat): (r: nat)
    ensures IsPow2(r) && value <= r
    ensures forall k: nat :: value <= Pow2(k) ==> r <= Pow2(k)
  {
    RoundUpFrom(value, 0)
  }

  function RoundUpFrom(value: nat, k: nat): (r: nat)
    requires forall j: nat :: value <= Pow2(j) ==> k <= j
    ensures IsPow2(r) && value <= r
    ensures forall j: nat :: value <= Pow2(j) ==> r <= Pow2(j)
    decreases value - k
  {
    Pow2Grows(k);
    if value <= Pow2(k) then
      assert forall j: nat :: value <= Pow2(j) ==> Pow2(k) <= Pow2(j) by {
        forall j: nat | value <= Pow2(j) ensures Pow2(k) <= Pow2(j) { Pow2Mono(k, j); }
      }
      Pow2(k)
    else
      assert forall j: nat :: value <= Pow2(j) ==> k + 1 <= j;
      RoundUpFrom(value, k + 1)
  }

  lemma {:induction false} Pow2Mono(a: nat, b: nat)
    requires a <= b
    ensures Pow2(a) <= Pow2(b)
    decreases b
  {
    if a < b { Pow2Mono(a, b - 1); }
  }

  lemma {:induction false} Pow2Grows(k: nat)
    ensures k < Pow2(k)
  {
    if k > 0 { Pow2Grows(k - 1); }
  }

  lemma Pow2StrictMono(a: nat, b: nat)
    ensures a < b <==> Pow2(a) < Pow2(b)
  {
    if a < b { Pow2Mono(a + 1, b); } else { Pow2Mono(b, a); }
  }

  lemma {:induction false} Pow2Add(a: nat, b: nat)
    ensures Pow2(a + b) == Pow2(a) * Pow2(b)
  {
    if b > 0 {
      Pow2Add(a, b - 1);
      assert a + b - 1 == a + (b - 1);
      Doubled(Pow2(a), Pow2(b - 1));
    }
  }

  lemma Doubled(x: nat, y: nat)
    ensures 2 * (x * y) == x * (2 * y)
  {}

  lemma Pow2_16()
    ensures Pow2(16) == 0x1_0000
  {
    assert Pow2(8) == 256;
    Pow2Add(8, 8);
  }

  lemma Pow2_32()
    ensures Pow2(32) == 0x1_0000_0000
  {
    Pow2_16();
    Pow2Add(16, 16);
  }

  lemma Pow2_63()
    ensures Pow2(63) == MAX_BUCKET_COUNT
  {
    Pow2_32();
    Pow2Add(32, 32);
    assert Pow2(64) == 2 * Pow2(63);
  }

  /**
    hash & m_mask.  Whatever the hash, the bucket is the remainder modulo the bucket count.
   */
  function BucketForHash(hash: nat, mask: nat): (r: nat)
    requires IsPow2(mask + 1)
    ensures r == hash % (mask + 1)
  {
    assert And(hash, mask) == hash % (mask + 1) by {
      var k: nat :| mask + 1 == Pow2(k);
      MaskIsMod(hash, k);
    }
    And(hash, mask)
  }

  // (index + 1) & m_mask steps around the ring of buckets.
  function NextIndex(i: nat, mask: nat): (r: nat)
    requires IsPow2(mask + 1) && i <= mask
    ensures r == if i == mask then 0 else i + 1
  {
    ModUnique(i + 1, mask + 1, if i == mask then 1 else 0, if i == mask then 0 else i + 1);
    BucketForHash(i + 1, mask)
  }

  predicate IsPowerOfTwoTest(value: nat) {
    value != 0 && And(value, value - 1) == 0
  }

  lemma {:induction false} PowerOfTwoTest(value: nat)
    ensures IsPowerOfTwoTest(value) <==> IsPow2(value)
    decreases value
  {
    if value == 1 {
      assert value == Pow2(0);
    } else if value > 1 {
      AndPrevious(value);
      PowerOfTwoHalf(value);
      if value % 2 == 0 { PowerOfTwoTest(value / 2); }
    }
  }

  // value & (value - 1), from the last digit on.
  lemma AndPrevious(value: nat)
    requires value > 1
    ensures value % 2 == 1 ==> And(value, value - 1) != 0
    ensures value % 2 == 0 ==> And(value, value - 1) == 2 * And(value / 2, value / 2 - 1)
  {
    hide And;
    AndUnfolds(value, value - 1);
    if value % 2 == 1 {
      assert (value - 1) / 2 == value / 2;
      AndSelf(value / 2);
    } else {
      assert (value - 1) / 2 == value / 2 - 1;
    }
  }

  lemma AndUnfolds(x: nat, y: nat)
    ensures And(x, y) == 2 * And(x / 2, y / 2) + (if x % 2 == 1 && y % 2 == 1 then 1 else 0)
  {}

  lemma PowerOfTwoHalf(value: nat)
    requires value > 1
    ensures IsPow2(value) <==> value % 2 == 0 && IsPow2(value / 2)
  {
    if IsPow2(value) {
      var k: nat :| value == Pow2(k);
      assert k > 0 && value / 2 == Pow2(k - 1);
    }
    if value % 2 == 0 && IsPow2(value / 2) {
      var k: nat :| value / 2 == Pow2(k);
      assert value == Pow2(k + 1);
    }
  }

  lemma {:induction false} AndSelf(x: nat)
    ensures And(x, x) == x
  {
    if x > 0 { AndSelf(x / 2); }
  }

  // After smearing, the `width` top bits starting from the highest one are set.
  ghost predicate Smeared(x: nat, top: nat, width: nat) {
    && (forall i: nat :: i > top ==> !Bit(x, i))
    && (forall i: nat :: i <= top < i + width ==> Bit(x, i))
  }

  lemma SmearStep(x: nat, top: nat, width: nat)
    requires Smeared(x, top, width)
    requires width > 0
    ensures Smeared(Or(x, Shr(x, width)), top, 2 * width)
  {
    var y := Or(x, Shr(x, width));
    forall i: nat
      ensures i > top ==> !Bit(y, i)
      ensures i <= top < i + 2 * width ==> Bit(y, i)
    {
      OrBit(x, Shr(x, width), i);
      ShrBit(x, width, i);
      assert Bit(y, i) == (Bit(x, i) || Bit(x, i + width));
    }
  }

  // Before smearing only the highest bit of value - 1 is known to be set.
  lemma SmearStart(value: nat) returns (top: nat)
    requires 2 <= value <= MAX_BUCKET_COUNT
    ensures Smeared(value - 1, top, 1) && top < 63
    ensures Pow2(top) < value <= Pow2(top + 1)
  {
    var x: nat := value - 1;
    top := NonzeroHasBit(x);
    Pow2_63();
    Pow2StrictMono(top, 63);
    forall i: nat | i > top ensures !Bit(x, i) { HighBitsZero(x, top + 1, i); }
  }

  // Once all 64 positions are smeared, adding one gives the next power of two.
  lemma SmearEnd(x: nat, top: nat, width: nat)
    requires Smeared(x, top, width) && width > top
    ensures x + 1 == Pow2(top + 1)
  {
    AllOnes(x, top + 1);
  }

  lemma RoundUpIs(value: nat, top: nat)
    requires Pow2(top) < value <= Pow2(top + 1)
    ensures RoundUp(value) == Pow2(top + 1)
  {
    var r := RoundUp(value);
    assert value <= r <= Pow2(top + 1);
    var k: nat :| r == Pow2(k);
    Pow2StrictMono(top, k);
    Pow2Mono(top + 1, k);
  }

  lemma RoundUpOfPow2(value: nat)
    requires IsPow2(value)
    ensures RoundUp(value) == value
  {
    var k: nat :| value == Pow2(k);
  }

  lemma RoundUpAbove(value: nat)
    ensures RoundUp(value) >= value && RoundUp(value) >= 1
  {}

  // The buckets a table gets for a count it asks for.
  function Rounded(count: nat): nat {
    if count == 0 then 0 else RoundUp(count)
  }

  // A request for more buckets than there can be.
  function TooMany(count: nat, maxBuckets: nat): bool {
    count > 0 && RoundUp(count) > maxBuckets
  }

  lemma RoundUpBelowDouble(value: nat)
    requires value > 0
    ensures RoundUp(value) < 2 * value
  {
    var r := RoundUp(value);
    var k: nat :| r == Pow2(k);
    if k > 0 { assert r == 2 * Pow2(k - 1); }
  }

  lemma RoundUpMono(a: nat, b: nat)
    requires a <= b
    ensures RoundUp(a) <= RoundUp(b)
  {
    var k: nat :| RoundUp(b) == Pow2(k);
  }

  lemma TwiceBelow(g: nat, x: nat)
    requires g >= 2
    ensures 2 * x <= g * x
  {
    MulMono(x, 2, g);
  }

  lemma ProductOfPow2(a: nat, b: nat)
    requires IsPow2(a) && IsPow2(b)
    ensures IsPow2(a * b)
  {
    var i: nat :| a == Pow2(i);
    var j: nat :| b == Pow2(j);
    Pow2Add(i, j);
  }

  /**
    The bit-smearing round-up loop: for every request a 64-bit table may make, the result is
    the least power of two that is not below it.
   */
  method RoundUpToPowerOfTwo(value: nat) returns (r: nat)
    requires value <= MAX_BUCKET_COUNT
    ensures r == RoundUp(value)
  {
    hide Smeared, Or, Shr, RoundUp, IsPowerOfTwoTest, IsPow2;
    assert Pow2(0) == 1;
    PowerOfTwoTest(value);
    if IsPowerOfTwoTest(value) {
      RoundUpOfPow2(value);
      return value;
    }
    if value == 0 {
      RoundUpZero();
      return 1;
    }
    OneIsPow2(value);
    ghost var top := SmearStart(value);
    var x: nat := value - 1;
    var i: nat := 1;
    while i < 64
      invariant i in {1, 2, 4, 8, 16, 32, 64}
      invariant Smeared(x, top, i)
    {
      SmearStep(x, top, i);
      x := Or(x, Shr(x, i));
      i := i * 2;
    }
    SmearEnd(x, top, i);
    RoundUpIs(value, top);
    r := x + 1;
  }

  lemma RoundUpZero()
    ensures RoundUp(0) == 1
  {
    assert Pow2(0) == 1;
  }

  lemma OneIsPow2(value: nat)
    requires !IsPow2(value) && value > 0
    ensures value >= 2
  {
    assert Pow2(0) == 1;
  }

  // x >> k is division by 2^k.
  lemma {:induction false} ShrIsDiv(x: nat, k: nat)
    ensures Shr(x, k) == x / Pow2(k)
  {
    if k > 0 {
      ShrIsDiv(x / 2, k - 1);
      HalfDiv(x, Pow2(k - 1));
    }
  }

  lemma HalfDiv(x: nat, p: nat)
    requires p > 0
    ensures x / 2 / p == x / (2 * p)
  {
    var h := x / 2;
    var q, r := h / p, h % p;
    DivMod(h, p, q, r);
    Twice(p, q);
    ModUnique(x, 2 * p, q, 2 * r + x % 2);
  }

  lemma DivMod(x: nat, p: nat, q: nat, r: nat)
    requires p > 0 && q == x / p && r == x % p
    ensures x == p * q + r && r < p
  {}

  lemma Twice(p: nat, q: nat)
    ensures 2 * (p * q) == (2 * p) * q
  {}

  // A power of two divides every larger one.
  lemma {:induction false} Pow2Divides(a: nat, b: nat)
    requires a <= b
    ensures Pow2(b) % Pow2(a) == 0
  {
    Pow2Add(a, b - a);
    ModUnique(Pow2(b), Pow2(a), Pow2(b - a), 0);
  }

  // Truncating a hash to a larger power of two does not change its bucket.
  lemma TruncationKeepsBucket(hash: nat, a: nat, b: nat)
    requires a <= b
    ensures (hash % Pow2(b)) % Pow2(a) == hash % Pow2(a)
  {
    Pow2Add(a, b - a);
    ModOfMod(hash, Pow2(a), Pow2(b - a));
  }

  lemma ModOfMod(x: nat, p: nat, q: nat)
    requires p > 0 && q > 0
    ensures p * q > 0 && (x % (p * q)) % p == x % p
  {
    MulMono(p, 1, q);
    var t, y := x / (p * q), x % (p * q);
    var s, r := y / p, y % p;
    calc {
      x;
      (p * q) * t + y;
      (p * q) * t + p * s + r;
      p * (q * t) + p * s + r;
      p * (q * t + s) + r;
    }
    ModUnique(x, p, q * t + s, r);
  }
}
