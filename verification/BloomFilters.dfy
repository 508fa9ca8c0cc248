/**
  The Bloom filters: a plain one, one with 512-bit blocks, one with one machine word per block, and
  libbloom's.  Adding and testing walk the probes with differently shaped loops; nothing that was
  added is ever missed.
 */
module BloomFilters {
  import opened Bits
  import opened GrowthPolicy
  import opened BloomBits

  // ---------- selfBlockBloom512 ----------

  // 64 * mult_reduce_block(hash1, numBlocks), in 32-bit arithmetic.
  function BlockOffset(hash: nat, numBlocks: nat): (r: nat)
    requires numBlocks < WORD32
    ensures r + 64 <= 64 * numBlocks || r == 0
  {
    (64 * MultReduce(Low(hash), numBlocks)) % WORD32
  }

  // The bits of a value: numHashes positions in one block.
  ghost function BlockProbes(hash: nat, numBlocks: nat, numHashes: nat): (ps: seq<nat>)
    requires numBlocks < WORD32
    ensures |ps| == numHashes
    ensures forall i :: 0 <= i < numHashes ==>
              ps[i] == 8 * BlockOffset(hash, numBlocks) + DoubleHash(Low(hash), High(hash), i + 1) % 512
  {
    seq(numHashes, i requires 0 <= i < numHashes =>
      8 * BlockOffset(hash, numBlocks) + DoubleHash(Low(hash), High(hash), i + 1) % 512)
  }

  // positionInBlock >> 3 and positionInBlock & 7, moved by the block offset.
  lemma BlockBit(offset: nat, pos: nat)
    requires pos < 512
    ensures (8 * offset + pos) / 8 == offset + Shr(pos, 3) && (8 * offset + pos) % 8 == And(pos, 7) && Shr(pos, 3) < 64
  {
    ShrIsDiv(pos, 3);
    MaskIsMod(pos, 3);
    assert Pow2(3) == 8;
  }

  class BlockBloom512<T(!new)> {
    const bytes: array<nat>
    const numBlocks: nat
    const numHashes: nat
    const hash: T -> nat

    ghost var added: set<T>

    ghost function Probes(x: T): (ps: seq<nat>)
      requires numBlocks < WORD32
    {
      BlockProbes(hash(x), numBlocks, numHashes)
    }

    ghost predicate Valid()
      reads this, bytes
    {
      && numBlocks < WORD32 && bytes.Length >= 64 && bytes.Length >= 64 * numBlocks
      && Filled(bytes[..], added, Probing())
    }

    // Position i of a value, in numbers: a block of 64 bytes, and one of its 512 bits.
    ghost function Position(x: T, i: nat): int
    {
      var h := hash(x);
      var block := h % 0x1_0000_0000 * numBlocks / 0x1_0000_0000;
      8 * (64 * block % 0x1_0000_0000)
        + (h % 0x1_0000_0000 + (i + 1) * (h / 0x1_0000_0000 % 0x1_0000_0000)) % 0x1_0000_0000 % 512
    }

    // Some value that was added has the position.
    ghost predicate Taken(p: int)
      reads this
    {
      exists y, j: nat :: y in added && j < numHashes && Position(y, j) == p
    }

    ghost function Probing(): T -> seq<nat>
      requires numBlocks < WORD32
    {
      x => Probes(x)
    }

    lemma ProbeIs(x: T, i: nat)
      requires i < numHashes && numBlocks < WORD32
      ensures Probes(x)[i] == Position(x, i)
    {
      hide MultReduce, DoubleHash;
      DoubleHashIs(Low(hash(x)), High(hash(x)), i + 1);
      MultReduceIs(Low(hash(x)), numBlocks);
    }

    lemma TakenIs(p: nat)
      requires numBlocks < WORD32
      ensures Occurs(added, Probing(), p) <==> Taken(p)
    {
      hide Position;
      forall y ensures p in Probes(y) <==> exists j: nat :: j < numHashes && Position(y, j) == p {
        forall j: nat | j < numHashes ensures Probes(y)[j] == Position(y, j) { ProbeIs(y, j); }
      }
      if Occurs(added, Probing(), p) {
        var y :| y in added && p in Probing()(y);
        var j: nat :| j < numHashes && Position(y, j) == p;
      }
      if Taken(p) {
        var y, j: nat :| y in added && j < numHashes && Position(y, j) == p;
        assert p in Probing()(y);
      }
    }

    lemma Answer(x: T)
      requires Valid()
      ensures AllSet(bytes[..], Probes(x)) <==> forall i: nat :: i < numHashes ==> Taken(Position(x, i))
      ensures x in added ==> AllSet(bytes[..], Probes(x))
    {
      hide Position, Taken, Occurs, AllSet, Filled;
      FilledAnswers(bytes[..], added, Probing(), x);
      forall i: nat | i < numHashes ensures Occurs(added, Probing(), Probes(x)[i]) <==> Taken(Position(x, i)) {
        ProbeIs(x, i);
        TakenIs(Probes(x)[i]);
      }
    }

    // The size is rounded up to whole blocks, and by one more when it is already whole; the number of
    // blocks is a 32-bit number.
    constructor (sizeInBits: nat, numHashes: nat, hash: T -> nat)
      ensures Valid() && added == {} && fresh(bytes)
      ensures this.numHashes == numHashes && this.hash == hash
      ensures bytes.Length == 64 * (sizeInBits / 512 + 1) && numBlocks == (sizeInBits / 512 + 1) % WORD32
    {
      var sizeInBytes := (sizeInBits + (512 - sizeInBits % 512)) / 8;
      assert sizeInBytes == 64 * (sizeInBits / 512 + 1);
      this.numBlocks := (8 * sizeInBytes / 512) % WORD32;
      this.bytes := new nat[sizeInBytes](_ => 0);
      this.numHashes, this.hash := numHashes, hash;
      added := {};
      new;
      NothingFilled(bytes[..], Probing());
    }

    /**
      addValue sets the probes of the value and no other bit.
     */
    method AddValue(x: T)
      requires Valid()
      modifies this, bytes
      ensures Valid() && added == old(added) + {x}
      ensures Added(old(bytes[..]), bytes[..], Probes(x))
    {
      hide Added, Filled;
      ghost var b := bytes[..];
      SetProbes(x);
      FilledMore(b, bytes[..], added, Probing(), x);
      added := added + {x};
    }

    // The loop of addValue.
    method SetProbes(x: T)
      requires numBlocks < WORD32 && bytes.Length >= 64 && bytes.Length >= 64 * numBlocks
      modifies bytes
      ensures Added(old(bytes[..]), bytes[..], Probes(x))
    {
      hide Added, BlockOffset, And, Shr;
      var h := hash(x);
      var offset := BlockOffset(h, numBlocks);
      ghost var ps, b := Probes(x), bytes[..];
      AddedNothing(b);
      for i := 1 to numHashes + 1
        invariant Added(b, bytes[..], ps[..i - 1])
      {
        var pos := And(DoubleHash(Low(h), High(h), i), 511);
        MaskBelow(DoubleHash(Low(h), High(h), i));
        BlockBit(offset, pos);
        ghost var b1 := bytes[..];
        SetBitIn(bytes, offset + Shr(pos, 3), And(pos, 7), 8 * offset + pos);
        AddedMore(b, b1, bytes[..], ps[..i - 1], ps[i - 1]);
        assert ps[..i] == ps[..i - 1] + [ps[i - 1]];
      }
      assert ps[..numHashes] == ps;
    }

    /**
      testValue: whether all probes of the value are set, hence true for everything added.
     */
    method TestValue(x: T) returns (r: bool)
      requires Valid()
      ensures r <==> forall i: nat :: i < numHashes ==> Taken(Position(x, i))
      ensures x in added ==> r
    {
      hide BlockOffset, BitAt, And, Shr, DoubleHash, AllSet, Filled, Taken, Position;
      var h := hash(x);
      var offset := BlockOffset(h, numBlocks);
      ghost var ps := Probes(x);
      Answer(x);
      r := true;
      var i := 1;
      var doubleHash := Low(h);
      NothingToFind(bytes[..]);
      DoubleHashFirst(Low(h), High(h));
      while r && i <= numHashes
        invariant 1 <= i <= numHashes + 1 && doubleHash == DoubleHash(Low(h), High(h), i - 1)
        invariant if r then AllSet(bytes[..], ps[..i - 1]) else !AllSet(bytes[..], ps)
        decreases numHashes + 1 - i
      {
        DoubleHashNext(Low(h), High(h), i - 1);
        doubleHash := (doubleHash + High(h)) % WORD32;
        var pos := And(doubleHash, 511);
        MaskBelow(doubleHash);
        BlockBit(offset, pos);
        assert ps[i - 1] == 8 * offset + pos;
        r := TestBitIn(bytes[offset + Shr(pos, 3)], And(pos, 7));
        BitAtIs(bytes[..], ps[i - 1], offset + Shr(pos, 3), And(pos, 7));
        assert ps[..i] == ps[..i - 1] + [ps[i - 1]];
        AllSetMore(bytes[..], ps[..i - 1], ps[i - 1]);
        if !r && AllSet(bytes[..], ps) { AllSetPrefix(bytes[..], ps, i); }
        i := i + 1;
      }
      assert ps[..numHashes] == ps;
    }
  }

  lemma MaskBelow(x: nat)
    ensures And(x, 511) == x % 512 < 512
  {
    hide And;
    assert Pow2(9) == 512;
    MaskIsMod(x, 9);
  }

  lemma NothingToFind(b: seq<nat>)
    ensures AllSet(b, [])
  {}

  lemma BitAtIs(b: seq<nat>, p: nat, byte: nat, k: nat)
    requires byte == p / 8 < |b| && k == p % 8
    ensures BitAt(b, p) <==> Bit(b[byte], k)
  {}

  // ---------- selfBloom ----------

  ghost function PlainProbes(hash: nat, n: nat, numHashes: nat): (ps: seq<nat>)
    requires n < WORD32
    ensures |ps| == numHashes
    ensures forall i :: 0 <= i < numHashes ==> ps[i] == MultReduce(DoubleHash(Low(hash), High(hash), i), n)
  {
    seq(numHashes, i requires 0 <= i < numHashes => MultReduce(DoubleHash(Low(hash), High(hash), i), n))
  }

  class PlainBloom<T(!new)> {
    const bytes: array<nat>
    const sizeInBits: nat
    const numHashes: nat
    const hash: T -> nat

    ghost var added: set<T>

    // sizeInBits is passed on as a 32-bit number.
    ghost function Probes(x: T): (ps: seq<nat>)
    {
      PlainProbes(hash(x), sizeInBits % WORD32, numHashes)
    }

    ghost predicate Valid()
      reads this, bytes
    {
      && numHashes >= 1 && bytes.Length * 8 == sizeInBits
      && Filled(bytes[..], added, Probing())
    }

    // Position i of a value, in numbers.
    ghost function Position(x: T, i: nat): int
    {
      var h := hash(x);
      ((h % 0x1_0000_0000 + i * (h / 0x1_0000_0000 % 0x1_0000_0000)) % 0x1_0000_0000)
        * (sizeInBits % 0x1_0000_0000) / 0x1_0000_0000
    }

    // Some value that was added has the position.
    ghost predicate Taken(p: int)
      reads this
    {
      exists y, j: nat :: y in added && j < numHashes && Position(y, j) == p
    }

    ghost function Probing(): T -> seq<nat>
    {
      x => Probes(x)
    }

    lemma ProbeIs(x: T, i: nat)
      requires i < numHashes
      ensures Probes(x)[i] == Position(x, i)
    {
      hide MultReduce, DoubleHash;
      DoubleHashIs(Low(hash(x)), High(hash(x)), i);
      MultReduceIs(DoubleHash(Low(hash(x)), High(hash(x)), i), sizeInBits % WORD32);
    }

    lemma TakenIs(p: nat)
      ensures Occurs(added, Probing(), p) <==> Taken(p)
    {
      hide Position;
      forall y ensures p in Probes(y) <==> exists j: nat :: j < numHashes && Position(y, j) == p {
        forall j: nat | j < numHashes ensures Probes(y)[j] == Position(y, j) { ProbeIs(y, j); }
      }
      if Occurs(added, Probing(), p) {
        var y :| y in added && p in Probing()(y);
        var j: nat :| j < numHashes && Position(y, j) == p;
      }
      if Taken(p) {
        var y, j: nat :| y in added && j < numHashes && Position(y, j) == p;
        assert p in Probing()(y);
      }
    }

    lemma Answer(x: T)
      requires Valid()
      ensures AllSet(bytes[..], Probes(x)) <==> forall i: nat :: i < numHashes ==> Taken(Position(x, i))
      ensures x in added ==> AllSet(bytes[..], Probes(x))
    {
      hide Position, Taken, Occurs, AllSet, Filled;
      FilledAnswers(bytes[..], added, Probing(), x);
      forall i: nat | i < numHashes ensures Occurs(added, Probing(), Probes(x)[i]) <==> Taken(Position(x, i)) {
        ProbeIs(x, i);
        TakenIs(Probes(x)[i]);
      }
    }

    constructor (sizeInBits: nat, numHashes: nat, hash: T -> nat)
      requires numHashes >= 1
      ensures Valid() && added == {} && fresh(bytes)
      ensures this.numHashes == numHashes && this.hash == hash && sizeInBits <= this.sizeInBits < sizeInBits + 8
    {
      var sizeInBytes := sizeInBits / 8 + (if sizeInBits % 8 != 0 then 1 else 0);
      this.bytes := new nat[sizeInBytes](_ => 0);
      this.sizeInBits := 8 * sizeInBytes;
      this.numHashes, this.hash := numHashes, hash;
      added := {};
      new;
      NothingFilled(bytes[..], Probing());
    }

    // setBit(position)
    method SetBitAt(position: nat)
      requires position / 8 < bytes.Length
      modifies bytes
      ensures Added(old(bytes[..]), bytes[..], [position])
    {
      hide Added;
      ByteBit(position);
      SetBitIn(bytes, Shr(position, 3), And(position, 7), position);
    }

    // testBit(position)
    function TestBitAt(position: nat): (r: bool)
      requires position / 8 < bytes.Length
      reads bytes
      ensures r <==> BitAt(bytes[..], position)
    {
      ByteBit(position);
      TestBitIn(bytes[Shr(position, 3)], And(position, 7))
    }

    // Every position is out of bounds in a filter without bits.
    method AddValue(x: T)
      requires Valid() && sizeInBits > 0
      modifies this, bytes
      ensures Valid() && added == old(added) + {x}
      ensures Added(old(bytes[..]), bytes[..], Probes(x))
    {
      hide Added, Filled;
      ghost var b := bytes[..];
      SetProbes(x);
      FilledMore(b, bytes[..], added, Probing(), x);
      added := added + {x};
    }

    // The body of addValue: the first position, then the double hashes.
    method SetProbes(x: T)
      requires numHashes >= 1 && sizeInBits > 0 && bytes.Length * 8 == sizeInBits
      modifies bytes
      ensures Added(old(bytes[..]), bytes[..], Probes(x))
    {
      hide Added, MultReduce;
      var h, n := hash(x), sizeInBits % WORD32;
      ghost var ps, b := Probes(x), bytes[..];
      ProbesInside(h, sizeInBits, numHashes);
      DoubleHashFirst(Low(h), High(h));
      AddedNothing(b);
      SetBitAt(MultReduce(Low(h), n));
      assert ps[..1] == [] + [ps[0]];
      AddedMore(b, b, bytes[..], [], ps[0]);
      for i := 1 to numHashes
        invariant Added(b, bytes[..], ps[..i])
      {
        ghost var b1 := bytes[..];
        SetBitAt(MultReduce(DoubleHash(Low(h), High(h), i), n));
        AddedMore(b, b1, bytes[..], ps[..i], ps[i]);
        assert ps[..i + 1] == ps[..i] + [ps[i]];
      }
      assert ps[..numHashes] == ps;
    }

    method TestValue(x: T) returns (r: bool)
      requires Valid() && sizeInBits > 0
      ensures r <==> forall i: nat :: i < numHashes ==> Taken(Position(x, i))
      ensures x in added ==> r
    {
      hide MultReduce, BitAt, Filled, Taken, Position, AllSet, DoubleHash, TestBitAt;
      var h, n := hash(x), sizeInBits % WORD32;
      ghost var ps := Probes(x);
      Answer(x);
      ProbesInside(h, sizeInBits, numHashes);
      DoubleHashFirst(Low(h), High(h));
      r := TestBitAt(MultReduce(Low(h), n));
      NothingToFind(bytes[..]);
      Found(ps, 0, r);
      var i := 1;
      while r && i < numHashes
        invariant 1 <= i <= numHashes
        invariant if r then AllSet(bytes[..], ps[..i]) else !AllSet(bytes[..], ps)
        decreases numHashes - i
      {
        r := TestBitAt(MultReduce(DoubleHash(Low(h), High(h), i), n));
        Found(ps, i, r);
        i := i + 1;
      }
      assert ps[..numHashes] == ps;
    }

    // Probe i was tested, after those before it were found set.
    lemma Found(ps: seq<nat>, i: nat, r: bool)
      requires i < |ps| && AllSet(bytes[..], ps[..i]) && (r <==> BitAt(bytes[..], ps[i]))
      ensures if r then AllSet(bytes[..], ps[..i + 1]) else !AllSet(bytes[..], ps)
    {
      hide AllSet, BitAt;
      assert ps[..i + 1] == ps[..i] + [ps[i]];
      AllSetMore(bytes[..], ps[..i], ps[i]);
      if !r && AllSet(bytes[..], ps) { AllSetPrefix(bytes[..], ps, i + 1); }
    }
  }

  lemma ByteBit(p: nat)
    ensures Shr(p, 3) == p / 8 && And(p, 7) == p % 8
  {
    ShrIsDiv(p, 3);
    MaskIsMod(p, 3);
    assert Pow2(3) == 8;
  }

  lemma ProbesInside(hash: nat, sizeInBits: nat, numHashes: nat)
    requires sizeInBits > 0 && sizeInBits % 8 == 0
    ensures forall i :: 0 <= i < numHashes ==> PlainProbes(hash, sizeInBits % WORD32, numHashes)[i] / 8 < sizeInBits / 8
  {
    var n := sizeInBits % WORD32;
    forall i | 0 <= i < numHashes ensures PlainProbes(hash, n, numHashes)[i] / 8 < sizeInBits / 8 {
      var p := MultReduce(DoubleHash(Low(hash), High(hash), i), n);
      assert n <= sizeInBits && p < sizeInBits;
    }
  }
}
