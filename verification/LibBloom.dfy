/**
  libbloom: one loop both checks and adds.
 */
module LibBloom {
  import opened Bits
  import opened BloomBits
  import opened BloomFilters

  // (a + i * b) % bits, the sum in 32-bit arithmetic.
  ghost function Probes(a: nat, b: nat, bits: nat, hashes: nat): (ps: seq<nat>)
    requires bits > 0
    ensures |ps| == hashes && forall i :: 0 <= i < hashes ==> ps[i] == DoubleHash(a, b, i) % bits
  {
    seq(hashes, i requires 0 <= i < hashes => DoubleHash(a, b, i) % bits)
  }

  /**
    test_bit_set_bit: whether the bit was set; afterwards it is set when that was asked for.
   */
  method TestBitSetBit(buf: array<nat>, x: nat, setBit: bool) returns (hit: bool)
    requires x / 8 < buf.Length
    modifies buf
    ensures hit == BitAt(old(buf[..]), x)
    ensures if setBit then Added(old(buf[..]), buf[..], [x]) else buf[..] == old(buf[..])
  {
    var byte := Shr(x, 3);
    ByteBit(x);
    var c := buf[byte];
    hit := TestBitIn(c, x % 8);
    if hit {
      if setBit { AddedAlready(buf[..], x); }
    } else if setBit {
      SetBitIn(buf, byte, x % 8, x);
    }
  }

  lemma AddedAlready(b: seq<nat>, x: nat)
    requires BitAt(b, x)
    ensures Added(b, b, [x])
  {}

  class Bloom<B(!new)> {
    const bits: nat
    const hashes: nat
    const bf: array<nat>
    const murmur: (B, nat) -> nat
    var ready: bool

    ghost var added: set<B>

    ghost function ProbesOf(buffer: B): (ps: seq<nat>)
      requires bits > 0
    {
      var a := murmur(buffer, 0x9747b28c) % WORD32;
      Probes(a, murmur(buffer, a) % WORD32, bits, hashes)
    }

    ghost predicate Valid()
      reads this, bf
    {
      && bits > 0 && bf.Length == (if bits % 8 != 0 then bits / 8 + 1 else bits / 8)
      && Filled(bf[..], added, Probing())
    }

    // Position i of a buffer, in numbers: two murmur hashes, the second seeded with the first.
    ghost function Position(buffer: B, i: nat): int
      requires bits > 0
    {
      var a := murmur(buffer, 2538058380) % 0x1_0000_0000;
      (a + i * (murmur(buffer, a) % 0x1_0000_0000)) % 0x1_0000_0000 % bits
    }

    // Some buffer that was added has the position.
    ghost predicate Taken(p: int)
      reads this
      requires bits > 0
    {
      exists y, j: nat :: y in added && j < hashes && Position(y, j) == p
    }

    // What the filter says of a buffer.
    ghost predicate AllTaken(buffer: B)
      reads this
      requires bits > 0
    {
      forall i: nat :: i < hashes ==> Taken(Position(buffer, i))
    }

    ghost function Probing(): B -> seq<nat>
      requires bits > 0
    {
      x => ProbesOf(x)
    }

    lemma TakenIs(p: nat)
      requires bits > 0
      ensures Occurs(added, Probing(), p) <==> Taken(p)
    {
      hide DoubleHash;
      forall y, j: nat | j < hashes ensures ProbesOf(y)[j] == Position(y, j) { ProbeIs(y, j); }
      hide Position;
      if Occurs(added, Probing(), p) {
        var y :| y in added && p in Probing()(y);
        var j: nat :| j < hashes && ProbesOf(y)[j] == p;
        assert Position(y, j) == p;
      }
      if Taken(p) {
        var y, j: nat :| y in added && j < hashes && Position(y, j) == p;
        assert ProbesOf(y)[j] == p;
        assert p in Probing()(y);
      }
    }

    lemma ProbeIs(x: B, i: nat)
      requires bits > 0 && i < hashes
      ensures ProbesOf(x)[i] == Position(x, i)
    {
      hide DoubleHash;
      var a := murmur(x, 0x9747b28c) % WORD32;
      DoubleHashIs(a, murmur(x, a) % WORD32, i);
    }

    lemma Answer(x: B)
      requires Valid()
      ensures AllSet(bf[..], ProbesOf(x)) <==> AllTaken(x)
      ensures x in added ==> AllTaken(x)
    {
      hide Position, Taken, Occurs, AllSet, Filled;
      FilledAnswers(bf[..], added, Probing(), x);
      forall i: nat | i < hashes ensures Occurs(added, Probing(), ProbesOf(x)[i]) <==> Taken(Position(x, i)) {
        ProbeIs(x, i);
        TakenIs(ProbesOf(x)[i]);
      }
    }

    constructor (bits: nat, hashes: nat, murmur: (B, nat) -> nat)
      requires bits > 0
      ensures Valid() && ready && added == {} && fresh(bf)
      ensures this.bits == bits && this.hashes == hashes && this.murmur == murmur
    {
      this.bits, this.hashes, this.murmur := bits, hashes, murmur;
      bf := new nat[if bits % 8 != 0 then bits / 8 + 1 else bits / 8](_ => 0);
      ready, added := true, {};
      new;
      NothingFilled(bf[..], Probing());
    }

    /**
      bloom_check_add: adding answers what checking would have answered before, even when two probes
      of one buffer coincide.
     */
    method CheckAdd(buffer: B, add: bool) returns (r: int)
      requires Valid()
      modifies this`added, bf
      ensures Valid()
      ensures r == if !ready then -1 else if old(AllTaken(buffer)) then 1 else 0
      ensures add && ready ==> added == old(added) + {buffer} && Added(old(bf[..]), bf[..], ProbesOf(buffer))
      ensures !add || !ready ==> added == old(added) && bf[..] == old(bf[..])
      ensures buffer in old(added) && ready ==> r == 1
    {
      if !ready {
        return -1;
      }
      hide Added, AllSet, Filled, AllTaken;
      ghost var b := bf[..];
      Answer(buffer);
      r := Walk(buffer, add);
      if add {
        FilledMore(b, bf[..], added, Probing(), buffer);
        added := added + {buffer};
      }
    }

    // The loop over the probes.
    method Walk(buffer: B, add: bool) returns (r: int)
      requires bits > 0 && bf.Length == (if bits % 8 != 0 then bits / 8 + 1 else bits / 8)
      modifies bf
      ensures r == if AllSet(old(bf[..]), ProbesOf(buffer)) then 1 else 0
      ensures if add then Added(old(bf[..]), bf[..], ProbesOf(buffer)) else bf[..] == old(bf[..])
    {
      hide BitAt, Added, DoubleHash;
      ghost var b, ps := bf[..], ProbesOf(buffer);
      var a := murmur(buffer, 0x9747b28c) % WORD32;
      var c := murmur(buffer, a) % WORD32;
      var hits := 0;
      AddedNothing(b);
      for i := 0 to hashes
        invariant hits <= i && (hits == i <==> AllSet(b, ps[..i]))
        invariant if add then Added(b, bf[..], ps[..i]) else bf[..] == b && hits == i
      {
        var x := DoubleHash(a, c, i) % bits;
        assert ps[i] == x && ps[..i + 1] == ps[..i] + [x];
        ghost var b1 := bf[..];
        var hit := TestBitSetBit(bf, x, add);
        if add { HitBefore(b, b1, ps[..i], x); AddedMore(b, b1, bf[..], ps[..i], x); }
        AllSetMore(b, ps[..i], x);
        if hit {
          hits := hits + 1;
        } else if !add {
          assert ps[..i + 1] <= ps;
          return 0;
        }
      }
      assert ps[..hashes] == ps;
      r := if hits == hashes then 1 else 0;
    }

    // bloom_check
    method Check(buffer: B) returns (r: int)
      requires Valid()
      modifies this`added, bf
      ensures Valid() && added == old(added) && bf[..] == old(bf[..])
      ensures r == if !ready then -1 else if AllTaken(buffer) then 1 else 0
      ensures ready && buffer in added ==> r == 1
    {
      hide Filled, AllTaken;
      r := CheckAdd(buffer, false);
    }

    // bloom_add
    method Add(buffer: B) returns (r: int)
      requires Valid()
      modifies this`added, bf
      ensures Valid()
      ensures r == if !ready then -1 else if old(AllTaken(buffer)) then 1 else 0
      ensures if ready then added == old(added) + {buffer} && Added(old(bf[..]), bf[..], ProbesOf(buffer))
              else added == old(added) && bf[..] == old(bf[..])
    {
      hide Filled, Added, AllTaken;
      r := CheckAdd(buffer, true);
    }
  }

  // While every earlier probe was a hit, a probe hits exactly when its bit was set to begin with.
  lemma HitBefore(b: seq<nat>, b': seq<nat>, ps: seq<nat>, x: nat)
    requires Added(b, b', ps)
    ensures AllSet(b, ps) ==> (BitAt(b', x) <==> BitAt(b, x))
  {}
}
