/**
  wyhash's 64 by 64 bit multiplication without a 128-bit type, and the range reduction built on it.
 */
module WyMum {
  import opened Bits
  import opened GrowthPolicy

  const HALF: nat := 0x1_0000_0000

  // x >> 32
  function HighHalf(x: nat): (r: nat)
    ensures r == x / HALF
  {
    assert Shr(x, 32) == x / HALF by { ShrIsDiv(x, 32); Pow2_32(); }
    Shr(x, 32)
  }

  // (uint32_t) x
  function LowHalf(x: nat): (r: nat)
    ensures r < HALF && x == HALF * (x / HALF) + r
  {
    x % HALF
  }

  // x << 32 in 64 bits: the high half falls off.
  function ShiftedUp(x: nat): (r: nat)
    ensures r == HALF * (x % HALF) && r < WORD
  {
    var r := (HALF * x) % WORD;
    assert r == HALF * (x % HALF) by {
      var q, l := x / HALF, x % HALF;
      assert HALF * x == WORD * q + HALF * l;
    }
    r
  }

  // A 64-bit sum and whether it wrapped around, read off by comparing it with a summand.
  lemma Carry(x: nat, y: nat)
    requires x < WORD && y < WORD
    ensures var s := (x + y) % WORD; x + y == (if s < x then WORD else 0) + s
  {}

  lemma SmallProduct(a: nat, b: nat)
    requires a < HALF && b < HALF
    ensures 0 <= a * b < WORD
  {
    MulMono(a, 0, b);
    MulMono(a, b, HALF);
    MulMono(HALF, a, HALF);
  }

  /**
    _wymum without 128-bit integers: for all 64-bit inputs the two results are the low and the high
    word of the product, both carries accounted for.
   */
  method Multiply(A: nat, B: nat) returns (lo: nat, hi: nat)
    requires A < WORD && B < WORD
    ensures lo < WORD && hi < WORD && A * B == hi * WORD + lo
  {
    hide HighHalf, LowHalf, ShiftedUp;
    var ha, hb, la, lb := HighHalf(A), HighHalf(B), LowHalf(A), LowHalf(B);
    ghost var product := A * B;
    ProductFits(A, B);
    Halves(A, B, ha, hb, la, lb);
    var rh, rm0, rm1, rl := Partial(ha, hb), Partial(ha, lb), Partial(hb, la), Partial(la, lb);
    lo, hi := Assemble(rh, rm0, rm1, rl, product);
  }

  function Partial(a: nat, b: nat): (r: nat)
    requires a < HALF && b < HALF
    ensures r == a * b && r < WORD
  {
    SmallProduct(a, b);
    a * b
  }

  // The additions of _wymum on the four partial products.
  method Assemble(rh: nat, rm0: nat, rm1: nat, rl: nat, ghost product: nat) returns (lo: nat, hi: nat)
    requires rh < WORD && rm0 < WORD && rm1 < WORD && rl < WORD
    requires product == WORD * rh + HALF * rm0 + HALF * rm1 + rl && product < WORD * WORD
    ensures lo < WORD && hi < WORD && product == hi * WORD + lo
  {
    hide HighHalf, ShiftedUp;
    Parts(rm0);
    Parts(rm1);
    var m0, m1 := ShiftedUp(rm0), ShiftedUp(rm1);
    var t := (rl + m0) % WORD;
    Carry(rl, m0);
    var c := if t < rl then 1 else 0;
    lo := (t + m1) % WORD;
    Carry(t, m1);
    c := c + if lo < t then 1 else 0;
    hi := (rh + HighHalf(rm0) + HighHalf(rm1) + c) % WORD;
  }

  lemma Parts(x: nat)
    ensures HALF * x == WORD * HighHalf(x) + ShiftedUp(x)
  {}

  lemma Halves(A: nat, B: nat, ha: nat, hb: nat, la: nat, lb: nat)
    requires A == HALF * ha + la && B == HALF * hb + lb
    ensures A * B == WORD * (ha * hb) + HALF * (ha * lb) + HALF * (hb * la) + la * lb
  {
    calc {
      A * B;
      (HALF * ha + la) * B;
      HALF * (ha * B) + la * B;
      { assert ha * B == HALF * (ha * hb) + ha * lb; assert la * B == HALF * (hb * la) + la * lb; }
      HALF * (HALF * (ha * hb) + ha * lb) + HALF * (hb * la) + la * lb;
    }
  }

  lemma ProductFits(A: nat, B: nat)
    requires A < WORD && B < WORD
    ensures 0 <= A * B < WORD * WORD
  {
    MulMono(A, 0, B);
    MulMono(A, B, WORD);
    MulMono(WORD, A, WORD - 1);
  }

  /**
    wy2u0k: a number below k, for every k > 0; in fact r * k / 2^64.
   */
  method ReduceToRange(r: nat, k: nat) returns (x: nat)
    requires r < WORD && k < WORD
    ensures k > 0 ==> x < k
    ensures r * k >= 0 && x == r * k / WORD
  {
    var lo, hi := Multiply(r, k);
    x := hi;
    MulMono(r, 0, k);
    ModUnique(r * k, WORD, hi, lo);
    if k > 0 {
      MulMono(k, r, WORD - 1);
      BelowK(hi, lo, k, r);
    }
  }

  lemma BelowK(hi: nat, lo: nat, k: nat, r: nat)
    requires k > 0 && r < WORD && r * k == hi * WORD + lo
    ensures hi < k
  {
    MulMono(k, r + 1, WORD);
    assert k * (r + 1) == r * k + k;
    if hi >= k { MulMono(WORD, k, hi); }
  }
}
