/**
  Counting the set bits of a word, and the bit-parallel popcount.
 */
module PopCount {
  import opened Bits

  // The number of set bits.
  function Count(x: nat): nat {
    if x == 0 then 0 else Count(x / 2) + x % 2
  }

  // The number of set bits below position i.
  function Rank(x: nat, i: nat): nat {
    if i == 0 then 0 else Rank(x / 2, i - 1) + x % 2
  }

  lemma {:induction false} RankZero(i: nat)
    ensures Rank(0, i) == 0
  {
    if i > 0 { RankZero(i - 1); }
  }

  // Masking off the bits from i on leaves the bits that Rank counts.
  lemma {:induction false} MaskedCount(x: nat, i: nat)
    ensures Count(And(x, Pow2(i) - 1)) == Rank(x, i)
  {
    if i == 0 {
      assert And(x, 0) == 0;
    } else if x == 0 {
      RankZero(i);
    } else {
      MaskedCount(x / 2, i - 1);
      MaskStep(x, Pow2(i - 1));
      var y := And(x / 2, Pow2(i - 1) - 1);
      assert And(x, Pow2(i) - 1) == 2 * y + x % 2;
      CountDouble(y, x % 2);
    }
  }

  lemma CountDouble(y: nat, b: nat)
    requires b < 2
    ensures Count(2 * y + b) == Count(y) + b
  {
    assert (2 * y + b) / 2 == y && (2 * y + b) % 2 == b;
  }

  lemma {:induction false} RankAtMost(x: nat, i: nat)
    ensures Rank(x, i) <= Count(x)
  {
    if x == 0 { RankZero(i); } else if i > 0 { RankAtMost(x / 2, i - 1); }
  }

  // The place of a set bit among the set bits exists.
  lemma {:induction false} RankBelow(x: nat, i: nat)
    requires Bit(x, i)
    ensures Rank(x, i) < Count(x)
  {
    if i > 0 {
      RankBelow(x / 2, i - 1);
    } else {
      assert Count(x) == Count(x / 2) + 1;
    }
  }

  lemma {:induction false} RankStep(x: nat, i: nat)
    ensures Rank(x, i + 1) == Rank(x, i) + (if Bit(x, i) then 1 else 0)
  {
    if i > 0 { RankStep(x / 2, i - 1); }
  }

  // Set bits in order have their places in order.
  lemma {:induction false} RankOrder(x: nat, i: nat, j: nat)
    requires Bit(x, i)
    ensures i < j ==> Rank(x, i) < Rank(x, j)
    decreases j
  {
    if i < j {
      RankStep(x, j - 1);
      RankOrder(x, i, j - 1);
    }
  }

  lemma {:induction false} RankMono(x: nat, i: nat, j: nat)
    requires i <= j
    ensures Rank(x, i) <= Rank(x, j)
    decreases j
  {
    if i < j {
      RankStep(x, j - 1);
      RankMono(x, i, j - 1);
    }
  }

  // Words whose bits agree below i have the same rank there.
  lemma {:induction false} RankSame(x: nat, y: nat, i: nat)
    requires forall j: nat :: j < i ==> Bit(x, j) == Bit(y, j)
    ensures Rank(x, i) == Rank(y, i)
  {
    if i > 0 {
      RankStep(x, i - 1);
      RankStep(y, i - 1);
      RankSame(x, y, i - 1);
      assert Bit(x, i - 1) == Bit(y, i - 1);
    } else {
      assert Rank(x, 0) == 0 && Rank(y, 0) == 0;
    }
  }

  // One more set bit at p moves every place after it by one.
  lemma {:induction false} RankSetBit(x: nat, y: nat, p: nat, i: nat)
    requires forall j: nat :: Bit(y, j) == (Bit(x, j) || j == p)
    requires !Bit(x, p)
    ensures Rank(y, i) == Rank(x, i) + (if p < i then 1 else 0)
  {
    if i > 0 {
      RankStep(x, i - 1);
      RankStep(y, i - 1);
      RankSetBit(x, y, p, i - 1);
    } else {
      assert Rank(x, 0) == 0 && Rank(y, 0) == 0;
    }
  }

  // All set bits are below w: counting them is ranking w.
  lemma {:induction false} CountIsRank(x: nat, w: nat)
    requires forall i: nat :: Bit(x, i) ==> i < w
    ensures Count(x) == Rank(x, w)
  {
    if x > 0 {
      if w == 0 {
        var _ := NonzeroHasBit(x);
      } else {
        forall i: nat ensures Bit(x / 2, i) ==> i < w - 1 { assert Bit(x, i + 1) == Bit(x / 2, i); }
        CountIsRank(x / 2, w - 1);
      }
    } else {
      RankZero(w);
    }
  }
}
