/**
  Unsigned machine words as naturals, read bit by bit.

  The tables, the filters and the growth policy of the library all work on packed words.
  Here a word is a natural number, `Bit(x, i)` is its i-th binary digit, and the machine
  operators are defined on digits, so that every statement about a word is a statement
  about its digits.
 */
module Bits {

  // 2^64
  const WORD: nat := 0x1_0000_0000_0000_0000

  function Pow2(k: nat): (r: nat)
    ensures r >= 1
  {
    if k == 0 then 1 else 2 * Pow2(k - 1)
  }

  predicate Bit(x: nat, i: nat) {
    if i == 0 then x % 2 == 1 else Bit(x / 2, i - 1)
  }

  // x >> k
  function Shr(x: nat, k: nat): nat
  {
    if k == 0 then x else Shr(x / 2, k - 1)
  }

  // x & y
  function And(x: nat, y: nat): nat {
    if x == 0 || y == 0 then 0
    else 2 * And(x / 2, y / 2) + (if x % 2 == 1 && y % 2 == 1 then 1 else 0)
  }

  const INT_LIMIT: nat := 0x8000_0000

  // A size_t converted to a 32-bit int, in two's complement.
  function ToInt32(x: nat): (r: int)
    ensures r <= x && r < INT_LIMIT && r + INT_LIMIT >= 0
    ensures r == x <==> x < INT_LIMIT
    ensures x < 2 * INT_LIMIT ==> (r < 0 <==> x >= INT_LIMIT)
  {
    var low := x % (2 * INT_LIMIT);
    if low < INT_LIMIT then low else low - 2 * INT_LIMIT
  }

  // x | y
  function Or(x: nat, y: nat): nat {
    if x == 0 then y else if y == 0 then x
    else 2 * Or(x / 2, y / 2) + (if x % 2 == 1 || y % 2 == 1 then 1 else 0)
  }

  // x ^ y
  function Xor(x: nat, y: nat): nat {
    if x == 0 then y else if y == 0 then x
    else 2 * Xor(x / 2, y / 2) + (if x % 2 != y % 2 then 1 else 0)
  }

  // x & ~(1 << i)
  function ClearBit(x: nat, i: nat): nat {
    if i == 0 then x - x % 2 else 2 * ClearBit(x / 2, i - 1) + x % 2
  }

  lemma {:induction false} ZeroBits(i: nat)
    ensures !Bit(0, i)
  {
    if i > 0 { ZeroBits(i - 1); }
  }

  lemma {:induction false} ShrBit(x: nat, k: nat, i: nat)
    ensures Bit(Shr(x, k), i) == Bit(x, i + k)
  {
    if k > 0 { ShrBit(x / 2, k - 1, i); }
  }

  lemma {:induction false} ShrMore(x: nat, k: nat)
    ensures Shr(x, k + 1) == Shr(x, k) / 2
  {
    if k > 0 { ShrMore(x / 2, k - 1); }
  }

  lemma {:induction false} AndBit(x: nat, y: nat, i: nat)
    ensures Bit(And(x, y), i) == (Bit(x, i) && Bit(y, i))
  {
    if x == 0 || y == 0 {
      ZeroBits(i);
    } else if i > 0 {
      AndBit(x / 2, y / 2, i - 1);
      assert And(x, y) / 2 == And(x / 2, y / 2);
    }
  }

  lemma {:induction false} OrBit(x: nat, y: nat, i: nat)
    ensures Bit(Or(x, y), i) == (Bit(x, i) || Bit(y, i))
  {
    if x == 0 || y == 0 {
      ZeroBits(i);
    } else if i > 0 {
      OrBit(x / 2, y / 2, i - 1);
      assert Or(x, y) / 2 == Or(x / 2, y / 2);
    }
  }

  lemma {:induction false} XorBit(x: nat, y: nat, i: nat)
    ensures Bit(Xor(x, y), i) == (Bit(x, i) != Bit(y, i))
  {
    if x == 0 || y == 0 {
      ZeroBits(i);
    } else if i > 0 {
      XorBit(x / 2, y / 2, i - 1);
      assert Xor(x, y) / 2 == Xor(x / 2, y / 2);
    }
  }

  lemma {:induction false} Pow2Bit(k: nat, i: nat)
    ensures Bit(Pow2(k), i) == (i == k)
  {
    if k == 0 {
      if i > 0 { ZeroBits(i - 1); }
    } else if i > 0 {
      Pow2Bit(k - 1, i - 1);
      assert Pow2(k) / 2 == Pow2(k - 1);
    }
  }

  lemma {:induction false} ClearBitBit(x: nat, i: nat, j: nat)
    ensures Bit(ClearBit(x, i), j) == (Bit(x, j) && i != j)
  {
    if i == 0 {
      if j > 0 { assert ClearBit(x, i) / 2 == x / 2; }
    } else if j > 0 {
      ClearBitBit(x / 2, i - 1, j - 1);
      assert ClearBit(x, i) / 2 == ClearBit(x / 2, i - 1);
    }
  }

  // Setting, clearing and toggling one bit, stated for every bit of the result.
  function SetBit(x: nat, i: nat): (r: nat)
    ensures forall j: nat :: Bit(r, j) == (Bit(x, j) || j == i)
  {
    assert forall j: nat :: Bit(Or(x, Pow2(i)), j) == (Bit(x, j) || j == i) by {
      forall j: nat ensures Bit(Or(x, Pow2(i)), j) == (Bit(x, j) || j == i) {
        OrBit(x, Pow2(i), j);
        Pow2Bit(i, j);
      }
    }
    Or(x, Pow2(i))
  }

  function UnsetBit(x: nat, i: nat): (r: nat)
    ensures forall j: nat :: Bit(r, j) == (Bit(x, j) && j != i)
  {
    assert forall j: nat :: Bit(ClearBit(x, i), j) == (Bit(x, j) && j != i) by {
      forall j: nat { ClearBitBit(x, i, j); }
    }
    ClearBit(x, i)
  }

  function FlipBit(x: nat, i: nat): (r: nat)
    ensures forall j: nat :: Bit(r, j) == (if j == i then !Bit(x, j) else Bit(x, j))
  {
    assert forall j: nat :: Bit(Xor(x, Pow2(i)), j) == (if j == i then !Bit(x, j) else Bit(x, j)) by {
      forall j: nat ensures Bit(Xor(x, Pow2(i)), j) == (if j == i then !Bit(x, j) else Bit(x, j)) {
        XorBit(x, Pow2(i), j);
        Pow2Bit(i, j);
      }
    }
    Xor(x, Pow2(i))
  }

  // Two words with the same digits are the same number.
  lemma {:induction false} SameBits(x: nat, y: nat)
    requires forall i: nat :: Bit(x, i) == Bit(y, i)
    ensures x == y
    decreases x + y
  {
    assert Bit(x, 0) == Bit(y, 0);
    if x > 0 || y > 0 {
      forall i: nat ensures Bit(x / 2, i) == Bit(y / 2, i) {
        assert Bit(x, i + 1) == Bit(y, i + 1);
      }
      SameBits(x / 2, y / 2);
    }
  }

  // A nonzero word has a set bit.
  lemma {:induction false} NonzeroHasBit(x: nat) returns (i: nat)
    requires x > 0
    ensures Bit(x, i)
    ensures Pow2(i) <= x < Pow2(i + 1)
  {
    if x == 1 {
      i := 0;
    } else {
      var j := NonzeroHasBit(x / 2);
      i := j + 1;
      assert Pow2(i + 1) == 2 * Pow2(i) && Pow2(i) == 2 * Pow2(j);
    }
  }

  lemma {:induction false} HighBitsZero(x: nat, k: nat, i: nat)
    requires x < Pow2(k)
    requires i >= k
    ensures !Bit(x, i)
  {
    if k == 0 {
      ZeroBits(i);
    } else {
      HighBitsZero(x / 2, k - 1, i - 1);
    }
  }

  // Masking with 2^k - 1 is the remainder modulo 2^k.
  lemma {:induction false} MaskIsMod(x: nat, k: nat)
    ensures And(x, Pow2(k) - 1) == x % Pow2(k)
  {
    if k == 0 || x == 0 {
      assert And(x, Pow2(k) - 1) == 0;
    } else {
      var p := Pow2(k - 1);
      MaskIsMod(x / 2, k - 1);
      MaskTwice(x, p, And(x / 2, p - 1), (x / 2) % p);
      assert Pow2(k) == 2 * p;
    }
  }

  lemma MaskTwice(x: nat, p: nat, a: nat, r: nat)
    requires p > 0 && x > 0 && a == And(x / 2, p - 1) && r == (x / 2) % p && a == r
    ensures And(x, 2 * p - 1) == x % (2 * p)
  {
    hide And;
    MaskStep(x, p);
    ModDouble(x, p);
  }

  lemma MaskStep(x: nat, p: nat)
    requires p > 0 && x > 0
    ensures And(x, 2 * p - 1) == 2 * And(x / 2, p - 1) + x % 2
  {
    var y := 2 * p - 1;
    assert y == 2 * (p - 1) + 1;
    assert y / 2 == p - 1 && y % 2 == 1;
  }

  lemma ModDouble(x: nat, p: nat)
    requires p > 0
    ensures x % (2 * p) == 2 * ((x / 2) % p) + x % 2
  {
    var h := x / 2;
    var q, r := h / p, h % p;
    assert h == p * q + r;
    assert x == 2 * h + x % 2;
    assert 2 * (p * q) == (2 * p) * q;
    ModUnique(x, 2 * p, q, 2 * r + x % 2);
  }

  // The quotient and the remainder of a division are unique.
  lemma ModUnique(x: int, d: int, q: int, r: int)
    requires d > 0
    requires x == d * q + r
    requires 0 <= r < d
    ensures x / d == q && x % d == r
  {
    var q', r' := x / d, x % d;
    assert x == d * q' + r';
    MulSmall(d, q - q', r' - r);
  }

  lemma MulSmall(d: int, a: int, r: int)
    requires -d < r < d
    requires d * a == r
    ensures a == 0
  {
    if a >= 1 { MulMono(d, 1, a); }
    if a <= -1 { MulMono(d, a, -1); }
  }

  lemma MulMono(d: int, a: int, b: int)
    requires d >= 0 && a <= b
    ensures d * a <= d * b
  {
    assert d * (b - a) >= 0;
  }

  lemma {:induction false} AllOnes(x: nat, k: nat)
    requires forall i: nat :: Bit(x, i) == (i < k)
    ensures x == Pow2(k) - 1
  {
    if k == 0 {
      forall i: nat ensures Bit(x, i) == Bit(0, i) { ZeroBits(i); }
      SameBits(x, 0);
    } else {
      assert Bit(x, 0);
      forall i: nat ensures Bit(x / 2, i) == (i < k - 1) {
        assert Bit(x, i + 1) == (i + 1 < k);
      }
      AllOnes(x / 2, k - 1);
    }
  }
}
