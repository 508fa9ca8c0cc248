/**
  fallback_popcountll: the set bits of a 64-bit word, counted in parallel.  After each step the
  fields of the word (pairs, then nibbles, then bytes) hold the counts of the bits they cover; the
  final multiplication adds the eight byte counts into the top byte.
 */
module PopCountParallel {
  import opened Bits
  import opened PopCount

  const M1: nat := 0x5555_5555_5555_5555
  const M2: nat := 0x3333_3333_3333_3333
  const M4: nat := 0x0f0f_0f0f_0f0f_0f0f
  const H01: nat := 0x0101_0101_0101_0101

  /**
    The four steps of the source on unsigned 64-bit words, with the product taken modulo 2^64.
   */
  function FallbackPopCount(x: nat): nat
    requires x < WORD
  {
    var x1 := Pairs(x);
    var x2 := And(x1, M2) + And(Shr(x1, 2), M2);
    var x3 := And(x2 + Shr(x2, 4), M4);
    ((x3 * H01) % WORD) / 0x100_0000_0000_0000
  }

  // x -= (x >> 1) & m1
  function Pairs(x: nat): nat {
    ShrIs(x);
    AndBelow(Shr(x, 1), M1);
    x - And(Shr(x, 1), M1)
  }

  lemma ShrIs(x: nat)
    ensures Shr(x, 1) == x / 2 && Shr(x, 2) == x / 4 && Shr(x, 4) == x / 16
  {
    assert Shr(x, 1) == Shr(x / 2, 0);
    assert Shr(x, 2) == Shr(x / 2 / 2, 0);
    assert Shr(x, 4) == Shr(x / 2 / 2, 2) == Shr(x / 2 / 2 / 2 / 2, 0);
  }

  lemma {:induction false} AndBelow(x: nat, y: nat)
    ensures And(x, y) <= x
  {
    if x > 0 && y > 0 { AndBelow(x / 2, y / 2); }
  }

  // k copies of the digit d in base b.
  function Repeat(b: nat, d: nat, k: nat): nat {
    if k == 0 then 0 else b * Repeat(b, d, k - 1) + d
  }

  lemma Constants()
    ensures M1 == Repeat(4, 1, 32) && M2 == Repeat(16, 3, 16) && M4 == Repeat(256, 15, 8) && H01 == Repeat(256, 1, 8)
  {
    assert Repeat(4, 1, 8) == 0x5555;
    assert Repeat(4, 1, 16) == 0x5555_5555;
    assert Repeat(4, 1, 24) == 0x5555_5555_5555;
    assert Repeat(16, 3, 8) == 0x3333_3333;
  }

  // The words whose k fields of 2, 4 or 8 bits hold the bit counts of the fields of x.
  function PairCounts(x: nat, k: nat): nat {
    if k == 0 then 0 else 4 * PairCounts(x / 4, k - 1) + Count(x % 4)
  }

  function NibbleCounts(x: nat, k: nat): nat {
    if k == 0 then 0 else 16 * NibbleCounts(x / 16, k - 1) + Count(x % 16)
  }

  function ByteCounts(x: nat, k: nat): nat {
    if k == 0 then 0 else 256 * ByteCounts(x / 256, k - 1) + Count(x % 256)
  }

  // The conjunction, one field at a time.
  lemma And4(x: nat, m: nat)
    ensures And(x, 4 * m + 1) == 4 * And(x / 4, m) + x % 2
  {
    hide And;
    AndHalf1(x, 2 * m);
    AndHalf(x / 2, m);
    assert x / 2 / 2 == x / 4;
  }

  // One binary digit at a time.
  lemma AndHalf(x: nat, m: nat)
    ensures And(x, 2 * m) == 2 * And(x / 2, m)
  {
    assert (2 * m) / 2 == m && (2 * m) % 2 == 0;
  }

  lemma AndHalf1(x: nat, m: nat)
    ensures And(x, 2 * m + 1) == 2 * And(x / 2, m) + x % 2
  {
    assert (2 * m + 1) / 2 == m && (2 * m + 1) % 2 == 1;
  }

  lemma And16(x: nat, m: nat)
    ensures And(x, 16 * m + 3) == 16 * And(x / 16, m) + x % 4
  {
    hide And;
    AndHalf1(x, 8 * m + 1);
    AndHalf1(x / 2, 4 * m);
    AndHalf(x / 2 / 2, 2 * m);
    AndHalf(x / 2 / 2 / 2, m);
    assert x / 2 / 2 / 2 / 2 == x / 16;
  }

  lemma And256(x: nat, m: nat)
    ensures And(x, 256 * m + 15) == 256 * And(x / 256, m) + x % 16
  {
    hide And;
    AndHalf1(x, 128 * m + 7);
    AndHalf1(x / 2, 64 * m + 3);
    AndHalf1(x / 4, 32 * m + 1);
    AndHalf1(x / 8, 16 * m);
    And16Zero(x / 16, m);
    assert x / 2 / 2 == x / 4 && x / 4 / 2 == x / 8 && x / 8 / 2 == x / 16 && x / 16 / 16 == x / 256;
    assert x % 16 == 8 * (x / 8 % 2) + 4 * (x / 4 % 2) + 2 * (x / 2 % 2) + x % 2;
  }

  lemma And16Zero(x: nat, m: nat)
    ensures And(x, 16 * m) == 16 * And(x / 16, m)
  {
    hide *;
    AndFour(x, 4 * m);
    AndFour(x / 4, m);
    assert x / 4 / 4 == x / 16;
  }

  lemma AndFour(x: nat, m: nat)
    ensures And(x, 4 * m) == 4 * And(x / 4, m)
  {
    hide *;
    AndHalf(x, 2 * m);
    AndHalf(x / 2, m);
    assert x / 2 / 2 == x / 4;
  }

  // ---------- counting inside a field ----------

  lemma CountSmall(d: nat)
    requires d < 4
    ensures Count(d) == d / 2 + d % 2 <= 2
  {
    assert Count(d / 2) == d / 2 by { assert Count(0) == 0 && Count(1) == 1; }
  }

  lemma CountSplit2(x: nat)
    ensures Count(x % 16) == Count(x % 4) + Count((x / 4) % 4) <= 4
  {
    hide Count;
    var d := x % 16;
    assert x % 4 == d % 4;
    assert (x / 4) % 4 == d / 4;
    CountFour(d);
    CountSmall(d % 4);
    CountSmall(d / 4);
  }

  // The low two bits counted apart.
  lemma CountFour(d: nat)
    ensures Count(d) == Count(d / 4) + Count(d % 4)
  {
    hide Count;
    Digits4(d);
    CountQuad(d / 4, d / 2 % 2, d % 2);
    CountQuad(0, d / 2 % 2, d % 2);
    CountZero();
  }

  lemma Digits4(d: nat)
    ensures d == 4 * (d / 4) + 2 * (d / 2 % 2) + d % 2
    ensures d % 4 == 2 * (d / 2 % 2) + d % 2
  {}

  lemma CountQuad(q: nat, a: nat, b: nat)
    requires a < 2 && b < 2
    ensures Count(4 * q + 2 * a + b) == Count(q) + a + b
  {
    hide Count;
    CountDouble(2 * q + a, b);
    CountDouble(q, a);
    assert 2 * (2 * q + a) + b == 4 * q + 2 * a + b;
  }

  lemma CountSixteen(d: nat)
    ensures Count(d) == Count(d / 16) + Count(d % 16)
  {
    hide Count;
    CountFour(d);
    CountFour(d / 4);
    CountFour(d % 16);
    assert d / 4 / 4 == d / 16;
    assert d % 16 % 4 == d % 4;
    assert d % 16 / 4 == d / 4 % 4;
  }

  lemma CountSplit4(x: nat)
    ensures Count(x % 256) == Count(x % 16) + Count((x / 16) % 16) <= 8
  {
    hide Count;
    var d := x % 256;
    assert x % 16 == d % 16;
    assert (x / 16) % 16 == d / 16;
    CountSixteen(d);
    CountSplit2(x);
    CountSplit2(x / 16);
  }

  // ---------- the three masking steps ----------

  function Pow4(k: nat): (r: nat)
    ensures r > 0
  {
    if k == 0 then 1 else 4 * Pow4(k - 1)
  }

  lemma {:induction false} PairStep(x: nat, k: nat)
    requires x < Pow4(k)
    ensures And(x / 2, Repeat(4, 1, k)) + PairCounts(x, k) == x
  {
    hide And, Count;
    if k == 0 {
      AndZero(x / 2);
    } else {
      And4(x / 2, Repeat(4, 1, k - 1));
      PairStep(x / 4, k - 1);
      CountSmall(x % 4);
      PairDigits(x);
    }
  }

  lemma PairDigits(x: nat)
    ensures x / 2 / 4 == x / 4 / 2 && x / 2 % 2 == x % 4 / 2
  {
    var q, d := x / 4, x % 4;
    var h, l, u, v := q / 2, q % 2, d / 2, d % 2;
    ModUnique(x, 2, 4 * h + 2 * l + u, v);
    ModUnique(x / 2, 4, h, 2 * l + u);
    ModUnique(x / 2, 2, 2 * h + l, u);
  }

  lemma AndZero(x: nat)
    ensures And(x, 0) == 0
  {}

  lemma {:induction false} NibbleStep(x: nat, k: nat)
    ensures var y := PairCounts(x, 2 * k);
            And(y, Repeat(16, 3, k)) + And(y / 4, Repeat(16, 3, k)) == NibbleCounts(x, k)
  {
    hide And, Count;
    var y := PairCounts(x, 2 * k);
    if k == 0 {
      AndZero(y);
      AndZero(y / 4);
    } else {
      var m := Repeat(16, 3, k - 1);
      var y' := PairCounts(x / 16, 2 * k - 2);
      var p0, p1 := Count(x % 4), Count(x / 4 % 4);
      assert x / 4 / 4 == x / 16;
      assert PairCounts(x / 4, 2 * k - 1) == 4 * y' + p1;
      assert y == 16 * y' + 4 * p1 + p0;
      CountSplit2(x);
      CountSmall(x % 4);
      CountSmall(x / 4 % 4);
      And16(y, m);
      And16(y / 4, m);
      PairCarry(y, y', p0, p1);
      NibbleStep(x / 16, k - 1);
    }
  }

  lemma PairCarry(y: nat, y': nat, p0: nat, p1: nat)
    requires y == 16 * y' + 4 * p1 + p0 && p0 <= 2 && p1 <= 2
    ensures y / 16 == y' && y % 4 == p0 && y / 4 / 16 == y' / 4 && y / 4 % 4 == p1
  {
    assert y / 4 == 4 * y' + p1;
  }

  lemma {:induction false} ByteStep(x: nat, k: nat)
    ensures var z := NibbleCounts(x, 2 * k);
            And(z + z / 16, Repeat(256, 15, k)) == ByteCounts(x, k)
  {
    hide And, Count, NibbleCounts;
    if k == 0 {
      var z := NibbleCounts(x, 2 * k);
      AndZero(z + z / 16);
    } else {
      ByteStep(x / 256, k - 1);
      OneByte(x, 2 * k, Repeat(256, 15, k - 1));
    }
  }

  lemma OneByte(x: nat, k: nat, m: nat)
    requires k >= 2
    ensures var z, z' := NibbleCounts(x, k), NibbleCounts(x / 256, k - 2);
            And(z + z / 16, 256 * m + 15) == 256 * And(z' + z' / 16, m) + Count(x % 256)
  {
    hide And, Count, NibbleCounts;
    var z, z' := NibbleCounts(x, k), NibbleCounts(x / 256, k - 2);
    var q0, q1 := Count(x % 16), Count(x / 16 % 16);
    TwoNibbles(x, k);
    CountSplit4(x);
    CountSplit2(x);
    CountSplit2(x / 16);
    LowNibble(x / 256, k - 2);
    ByteCarry(z, z', q0, q1);
    And256(z + z / 16, m);
  }

  lemma TwoNibbles(x: nat, k: nat)
    requires k >= 2
    ensures NibbleCounts(x, k) == 256 * NibbleCounts(x / 256, k - 2) + 16 * Count(x / 16 % 16) + Count(x % 16)
  {
    hide Count;
    assert x / 16 / 16 == x / 256;
    assert NibbleCounts(x / 16, k - 1) == 16 * NibbleCounts(x / 256, k - 2) + Count(x / 16 % 16);
  }

  // The low field of the nibble counts is at most 4.
  lemma LowNibble(x: nat, k: nat)
    ensures NibbleCounts(x, k) % 16 <= 4
  {
    hide Count;
    if k > 0 {
      CountSplit2(x);
      var c, d := NibbleCounts(x / 16, k - 1), Count(x % 16);
      assert (16 * c + d) % 16 == d;
    }
  }

  // Adding neighbouring nibbles never carries into the next byte.
  lemma ByteCarry(z: nat, z': nat, q0: nat, q1: nat)
    requires z == 256 * z' + 16 * q1 + q0 && q0 <= 4 && q1 <= 4 && z' % 16 <= 4
    ensures (z + z / 16) / 256 == z' + z' / 16 && (z + z / 16) % 16 == q0 + q1
  {
    assert z / 16 == 16 * z' + q1;
    var h, l := z' / 16, z' % 16;
    assert z' == 16 * h + l;
    assert z + z / 16 == 256 * (z' + h) + (16 * (l + q1) + q0 + q1);
  }

  // ---------- the multiplication ----------

  function ByteSum(y: nat, k: nat): nat {
    if k == 0 then 0 else ByteSum(y / 256, k - 1) + y % 256
  }

  function Pow256(k: nat): (r: nat)
    ensures r > 0
  {
    if k == 0 then 1 else 256 * Pow256(k - 1)
  }

  // y * H_k and b0 + 256 * ((y / 256 + b0) * H_(k-1)) differ by a multiple of 256^k.
  lemma ProductSplit(y: nat, k: nat)
    requires k > 0
    ensures var h := Repeat(256, 1, k - 1);
            y * Repeat(256, 1, k) == y % 256 + 256 * ((y / 256 + y % 256) * h) + Pow256(k) * (y / 256)
  {
    OnesTop(k);
    Expand(y, y / 256, y % 256, Repeat(256, 1, k), Repeat(256, 1, k - 1), Pow256(k - 1));
  }

  lemma Expand(y: nat, q: nat, b: nat, g: nat, h: nat, p: nat)
    requires y == 256 * q + b && g == 256 * h + 1 && g == h + p
    ensures y * g == b + 256 * ((q + b) * h) + (256 * p) * q
  {
    Distribute(256 * q, b, g);
    assert (256 * q) * g == 256 * (q * g);
    assert q * g == q * h + q * p by { assert q * (h + p) == q * h + q * p; }
    assert b * g == 256 * (b * h) + b;
    Distribute(q, b, h);
    assert (256 * p) * q == 256 * (q * p);
  }

  lemma Distribute(a: int, b: int, g: int)
    ensures (a + b) * g == a * g + b * g
  {}

  lemma {:induction false} OnesTop(k: nat)
    requires k > 0
    ensures Repeat(256, 1, k) == Repeat(256, 1, k - 1) + Pow256(k - 1)
  {
    if k > 1 { OnesTop(k - 1); }
  }

  // Byte k - 1 of n, where only k bytes are kept.
  function TopOf(n: nat, k: nat): nat
    requires k > 0
  {
    (n % Pow256(k)) / Pow256(k - 1)
  }

  lemma TopOfStep(n: nat, b: nat, t: nat, q: nat, k: nat)
    requires k > 1 && b < 256 && n == b + 256 * t + Pow256(k) * q
    ensures TopOf(n, k) == TopOf(t, k - 1)
  {
    var p, p' := Pow256(k - 1), Pow256(k - 2);
    SplitMod(n, b, t, p, q);
    DivDown(b, t % p, p');
  }

  // The top byte of the product is the sum of the bytes, as long as that fits a byte.
  lemma {:induction false} TopByte(y: nat, k: nat)
    requires k > 0 && y < Pow256(k) && ByteSum(y, k) < 256
    ensures TopOf(y * Repeat(256, 1, k), k) == ByteSum(y, k)
    decreases k
  {
    hide Repeat, TopOf, Pow256, ByteSum;
    if k == 1 {
      TopByteOne(y);
    } else {
      var q, b := y / 256, y % 256;
      Carry(y, k);
      ProductSplit(y, k);
      TopByte(q + b, k - 1);
      TopOfStep(y * Repeat(256, 1, k), b, (q + b) * Repeat(256, 1, k - 1), q, k);
    }
  }

  lemma TopByteOne(y: nat)
    requires y < Pow256(1)
    ensures TopOf(y * Repeat(256, 1, 1), 1) == ByteSum(y, 1)
  {
    assert Repeat(256, 1, 1) == 1 && Pow256(1) == 256 && Pow256(0) == 1;
    assert ByteSum(y / 256, 0) == 0;
  }

  lemma Carry(y: nat, k: nat)
    requires k > 1 && y < Pow256(k) && ByteSum(y, k) < 256
    ensures y / 256 + y % 256 < Pow256(k - 1)
    ensures ByteSum(y / 256 + y % 256, k - 1) == ByteSum(y, k)
  {
    AddToLowByte(y / 256, y % 256, k - 1);
  }

  // Adding a small byte to the low byte does not disturb the others.
  lemma AddToLowByte(q: nat, b: nat, k: nat)
    requires k > 0 && b < 256 && q < Pow256(k) && ByteSum(q, k) + b < 256
    ensures q + b < Pow256(k) && ByteSum(q + b, k) == ByteSum(q, k) + b
  {
    assert q % 256 + b < 256;
    assert (q + b) / 256 == q / 256 && (q + b) % 256 == q % 256 + b;
    assert q / 256 < Pow256(k - 1);
  }

  lemma SplitMod(n: nat, b: nat, t: nat, p: nat, q: nat)
    requires p > 0 && b < 256 && n == b + 256 * t + (256 * p) * q
    ensures n % (256 * p) == b + 256 * (t % p)
  {
    var u := t / p;
    assert t == p * u + t % p;
    assert n == (256 * p) * (u + q) + (b + 256 * (t % p)) by {
      assert 256 * (p * u) + (256 * p) * q == (256 * p) * (u + q);
    }
    ModUnique(n, 256 * p, u + q, b + 256 * (t % p));
  }

  lemma DivDown(b: nat, r: nat, p: nat)
    requires p > 0 && b < 256
    ensures (b + 256 * r) / (256 * p) == r / p
  {
    var u, v := r / p, r % p;
    assert r == p * u + v;
    assert b + 256 * r == (256 * p) * u + (256 * v + b);
    ModUnique(b + 256 * r, 256 * p, u, 256 * v + b);
  }

  // ---------- the whole ----------

  lemma {:induction false} BytesAddUp(x: nat, k: nat)
    requires x < Pow256(k)
    ensures ByteCounts(x, k) < Pow256(k)
    ensures ByteSum(ByteCounts(x, k), k) == Count(x) <= 8 * k
  {
    hide Count;
    if k == 0 {
      CountZero();
    } else {
      BytesAddUp(x / 256, k - 1);
      CountSplit4(x);
      Count256(x);
      var c, d := ByteCounts(x / 256, k - 1), Count(x % 256);
      assert (256 * c + d) / 256 == c && (256 * c + d) % 256 == d;
    }
  }

  lemma CountZero()
    ensures Count(0) == 0
  {}

  lemma Count256(x: nat)
    ensures Count(x) == Count(x / 256) + Count(x % 256)
  {
    hide Count;
    CountSixteen(x);
    CountSixteen(x / 16);
    CountSixteen(x % 256);
    assert x / 16 / 16 == x / 256;
    assert x % 256 % 16 == x % 16;
    assert x % 256 / 16 == x / 16 % 16;
  }

  lemma Powers()
    ensures Pow4(32) == WORD && Pow256(8) == WORD && Pow256(7) == 0x100_0000_0000_0000
  {
    assert Pow4(8) == 0x1_0000;
    assert Pow4(16) == 0x1_0000_0000;
    assert Pow4(24) == 0x1_0000_0000_0000;
  }

  /**
    The bit-parallel popcount of any 64-bit word is its number of set bits.
   */
  lemma FallbackIsCount(x: nat)
    requires x < WORD
    ensures FallbackPopCount(x) == Count(x)
  {
    hide And, Count, Shr, Repeat, Pow4, Pow256, PairCounts, NibbleCounts, ByteCounts, ByteSum;
    Constants();
    Powers();
    ShrIs(x);
    PairStep(x, 32);
    var x1 := Pairs(x);
    assert x1 == PairCounts(x, 32);
    ShrIs(x1);
    NibbleStep(x, 16);
    var x2 := And(x1, M2) + And(Shr(x1, 2), M2);
    assert x2 == NibbleCounts(x, 16);
    ShrIs(x2);
    ByteStep(x, 8);
    BytesAddUp(x, 8);
    TopByte(ByteCounts(x, 8), 8);
  }

  /**
    popcountll where the processor has no such instruction.
   */
  function PopCountLL(x: nat): (r: nat)
    requires x < WORD
    ensures r == Count(x)
  {
    FallbackIsCount(x);
    FallbackPopCount(x)
  }
}
