/**
  The sparse array: up to 64 slots, of which only the occupied ones take room.  A bitmap says
  which slots hold a value, a second one which slots are tombstones, and the values lie densely in
  slot order; the place of a value is the number of set bits below its slot.

  The table stores its sparse arrays by value in a vector, so an array is a value here, and the
  operations that update one return the updated value.
 */
module SparseArray {
  import opened Bits
  import opened GrowthPolicy
  import opened PopCount
  import PopCountParallel

  const BITMAP_NB_BITS: nat := 64

  datatype Slot<T> = Free | Tomb | Occ(val: T)

  datatype Array<T> = Array(vals: nat, deleted: nat, values: seq<T>, nbElements: nat)

  ghost predicate Valid<T>(a: Array<T>) {
    && (forall i: nat :: Bit(a.vals, i) ==> i < BITMAP_NB_BITS && !Bit(a.deleted, i))
    && (forall i: nat :: Bit(a.deleted, i) ==> i < BITMAP_NB_BITS)
    && |a.values| == a.nbElements == Count(a.vals)
  }

  predicate HasValue<T>(a: Array<T>, index: nat) {
    Bit(a.vals, index)
  }

  predicate HasDeletedValue<T>(a: Array<T>, index: nat) {
    Bit(a.deleted, index)
  }

  /**
    The partial map the array stands for.
   */
  ghost function SlotAt<T>(a: Array<T>, i: nat): Slot<T>
    requires Valid(a)
  {
    if Bit(a.vals, i) then
      RankBelow(a.vals, i);
      Occ(a.values[Rank(a.vals, i)])
    else if Bit(a.deleted, i) then Tomb
    else Free
  }

  // popcount(m_bitmap_vals & ((1 << index) - 1)): the values in slots below index.
  function IndexToOffset<T>(a: Array<T>, index: nat): (r: nat)
    requires Valid(a)
    ensures r == Rank(a.vals, index)
  {
    MaskedCount(a.vals, index);
    BitmapFits(a.vals, Pow2(index) - 1);
    PopCountParallel.PopCountLL(And(a.vals, Pow2(index) - 1))
  }

  // A word without bits from 64 on, masked or not, is a 64-bit word.
  lemma BitmapFits(x: nat, mask: nat)
    requires forall i: nat :: Bit(x, i) ==> i < BITMAP_NB_BITS
    ensures And(x, mask) <= x < WORD
  {
    PopCountParallel.AndBelow(x, mask);
    Pow2_63();
    assert Pow2(64) == 2 * Pow2(63);
    if x > 0 {
      var i := NonzeroHasBit(x);
      Pow2Mono(i + 1, 64);
    }
  }

  function Value<T>(a: Array<T>, index: nat): (v: T)
    requires Valid(a) && HasValue(a, index)
    ensures SlotAt(a, index) == Occ(v)
  {
    RankBelow(a.vals, index);
    a.values[IndexToOffset(a, index)]
  }

  function Blank<T>(): (a: Array<T>)
    ensures Valid(a) && forall i: nat :: SlotAt(a, i) == Free
  {
    assert forall i: nat :: !Bit(0, i) by {
      forall i: nat ensures !Bit(0, i) { ZeroBits(i); }
    }
    Array(0, 0, [], 0)
  }

  lemma CountSetBit(x: nat, y: nat, p: nat)
    requires forall j: nat :: Bit(y, j) == (Bit(x, j) || j == p)
    requires !Bit(x, p) && p < BITMAP_NB_BITS
    requires forall j: nat :: Bit(x, j) ==> j < BITMAP_NB_BITS
    ensures Count(y) == Count(x) + 1
  {
    RankSetBit(x, y, p, BITMAP_NB_BITS);
    CountIsRank(x, BITMAP_NB_BITS);
    CountIsRank(y, BITMAP_NB_BITS);
  }

  // Shift the values from `offset` on one place to the right and put v in the gap.
  method InsertAtOffset<T>(values: seq<T>, offset: nat, v: T) returns (r: seq<T>)
    requires offset <= |values|
    ensures r == values[..offset] + [v] + values[offset..]
  {
    r := values + [v];
    var i := |values|;
    while i > offset
      invariant offset <= i <= |values| && |r| == |values| + 1
      invariant r[..i] == values[..i] && r[i + 1..] == values[i..]
    {
      r := r[i := r[i - 1]];
      i := i - 1;
      assert values[i..] == [values[i]] + values[i + 1..];
      assert r[i + 1..] == [r[i + 1]] + r[i + 2..];
    }
    r := r[offset := v];
  }

  // Shift the values after `offset` one place to the left.
  method EraseAtOffset<T>(values: seq<T>, offset: nat) returns (r: seq<T>)
    requires offset < |values|
    ensures r == values[..offset] + values[offset + 1..]
  {
    r := values;
    for i := offset + 1 to |values|
      invariant |r| == |values|
      invariant forall j :: 0 <= j < offset ==> r[j] == values[j]
      invariant forall j :: offset <= j < i - 1 ==> r[j] == values[j + 1]
      invariant forall j :: i <= j < |r| ==> r[j] == values[j]
    {
      r := r[i - 1 := r[i]];
    }
    r := r[..|r| - 1];
  }

  /**
    set: slot `index` gets the value, whether it was free or a tombstone; every other slot is as
    before.
   */
  method Set<T>(a: Array<T>, index: nat, v: T) returns (a': Array<T>)
    requires Valid(a) && index < BITMAP_NB_BITS && !HasValue(a, index)
    ensures Valid(a') && a'.nbElements == a.nbElements + 1
    ensures SlotAt(a', index) == Occ(v)
    ensures forall i: nat :: i != index ==> SlotAt(a', i) == SlotAt(a, i)
  {
    RankAtMost(a.vals, index);
    var offset := IndexToOffset(a, index);
    var values := InsertAtOffset(a.values, offset, v);
    a' := Array(SetBit(a.vals, index), UnsetBit(a.deleted, index), values, a.nbElements + 1);
    CountSetBit(a.vals, a'.vals, index);
    forall i: nat ensures SlotAt(a', i) == if i == index then Occ(v) else SlotAt(a, i) {
      RankSetBit(a.vals, a'.vals, index, i);
      if Bit(a.vals, i) {
        RankBelow(a.vals, i);
        RankOrder(a.vals, i, index);
        if index < i { RankMono(a.vals, index, i); }
      }
    }
  }

  // Assign to the value in slot `index`.
  method SetValue<T>(a: Array<T>, index: nat, v: T) returns (a': Array<T>)
    requires Valid(a) && HasValue(a, index)
    ensures Valid(a') && SlotAt(a', index) == Occ(v)
    ensures forall i: nat :: i != index ==> SlotAt(a', i) == SlotAt(a, i)
  {
    RankBelow(a.vals, index);
    var offset := IndexToOffset(a, index);
    a' := a.(values := a.values[offset := v]);
    forall i: nat | i != index ensures SlotAt(a', i) == SlotAt(a, i) {
      if Bit(a.vals, i) {
        RankBelow(a.vals, i);
        RankOrder(a.vals, i, index);
        RankOrder(a.vals, index, i);
      }
    }
  }

  /**
    erase: slot `index` becomes a tombstone; every other slot is as before.
   */
  method Erase<T>(a: Array<T>, index: nat) returns (a': Array<T>)
    requires Valid(a) && index < BITMAP_NB_BITS && HasValue(a, index)
    ensures Valid(a') && a'.nbElements + 1 == a.nbElements
    ensures SlotAt(a', index) == Tomb
    ensures forall i: nat :: i != index ==> SlotAt(a', i) == SlotAt(a, i)
  {
    RankBelow(a.vals, index);
    var offset := IndexToOffset(a, index);
    var values := EraseAtOffset(a.values, offset);
    var vals := UnsetBit(a.vals, index);
    a' := Array(vals, SetBit(a.deleted, index), values, a.nbElements - 1);
    CountSetBit(vals, a.vals, index);
    forall i: nat ensures SlotAt(a', i) == if i == index then Tomb else SlotAt(a, i) {
      RankSetBit(vals, a.vals, index, i);
      if Bit(a.vals, i) && i != index {
        RankBelow(a.vals, i);
        RankOrder(a.vals, i, index);
        RankOrder(a.vals, index, i);
      }
    }
  }

  lemma NothingShifted(x: nat)
    ensures Shr(x, 0) == x && Rank(x, 0) == 0
  {}

  /**
    offset_to_index: the slot of the offset-th value, the inverse of IndexToOffset.
   */
  method OffsetToIndex<T>(a: Array<T>, offset: nat) returns (index: nat)
    requires Valid(a) && offset < a.nbElements
    ensures HasValue(a, index) && IndexToOffset(a, index) == offset
    ensures forall i: nat :: HasValue(a, i) && IndexToOffset(a, i) == offset ==> i == index
  {
    hide Shr, Rank, And;
    NothingShifted(a.vals);
    var bitmap := a.vals;
    index := 0;
    var ones := 0;
    while bitmap != 0
      invariant bitmap == Shr(a.vals, index)
      invariant ones == Rank(a.vals, index) <= offset
      invariant ones + Count(bitmap) == Count(a.vals)
      decreases bitmap
    {
      ShrBit(a.vals, index, 0);
      RankStep(a.vals, index);
      if bitmap % 2 == 1 {
        if ones == offset {
          break;
        }
        ones := ones + 1;
      }
      ShrMore(a.vals, index);
      index := index + 1;
      bitmap := bitmap / 2;
    }
    forall i: nat | HasValue(a, i) && IndexToOffset(a, i) == offset ensures i == index {
      RankOrder(a.vals, i, index);
      RankOrder(a.vals, index, i);
    }
  }
}
