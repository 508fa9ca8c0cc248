/**
  Bit arrays stored in bytes, probe positions from two 32-bit hashes, and what adding a set of
  positions means for every later test.
 */
module BloomBits {
  import opened Bits
  import opened GrowthPolicy

  const WORD32: nat := 0x1_0000_0000

  // The two halves of a 64-bit hash.
  function Low(hash: nat): nat {
    hash % WORD32
  }

  function High(hash: nat): nat {
    hash / WORD32 % WORD32
  }

  lemma Halves(hash: nat)
    requires hash < WORD
    ensures hash == 0x1_0000_0000 * High(hash) + Low(hash)
    ensures High(hash) < 0x1_0000_0000 && Low(hash) < 0x1_0000_0000
  {}

  // hash1 + i * hash2 in 32-bit arithmetic.
  function DoubleHash(hash1: nat, hash2: nat, i: nat): (r: nat)
    ensures r < WORD32
  {
    MulNonneg(i, hash2);
    (hash1 + i * hash2) % WORD32
  }

  lemma MulNonneg(a: nat, b: nat)
    ensures a * b >= 0
  {
    MulMono(a, 0, b);
  }

  lemma DoubleHashIs(hash1: nat, hash2: nat, i: nat)
    ensures DoubleHash(hash1, hash2, i) == (hash1 + i * hash2) % 0x1_0000_0000
  {}

  // Adding hash2 once more gives the next double hash.
  lemma DoubleHashNext(hash1: nat, hash2: nat, i: nat)
    ensures (DoubleHash(hash1, hash2, i) + hash2) % WORD32 == DoubleHash(hash1, hash2, i + 1)
  {
    var s := hash1 + i * hash2;
    MulNonneg(i, hash2);
    assert hash1 + (i + 1) * hash2 == s + hash2;
    assert (s % WORD32 + hash2) % WORD32 == (s + hash2) % WORD32;
  }

  lemma DoubleHashFirst(hash1: nat, hash2: nat)
    requires hash1 < WORD32
    ensures DoubleHash(hash1, hash2, 0) == hash1
  {}

  /**
    (uint64_t(hash) * n) >> 32: the hash scaled from 32 bits to n, rounded down.
   */
  function MultReduce(hash: nat, n: nat): (r: nat)
    requires hash < WORD32 && n < WORD32
    ensures if n == 0 then r == 0 else r < n
    ensures r * 0x1_0000_0000 <= hash * n < (r + 1) * 0x1_0000_0000
  {
    MulNonneg(hash, n);
    assert Shr(hash * n, 32) == hash * n / WORD32 by { ShrIsDiv(hash * n, 32); Pow2_32(); }
    ReducedBelow(hash, n);
    Shr(hash * n, 32)
  }

  lemma ReducedBelow(hash: nat, n: nat)
    requires hash < WORD32 && n < WORD32
    ensures hash * n >= 0
    ensures if n == 0 then hash * n / WORD32 == 0 else hash * n / WORD32 < n
  {
    MulNonneg(hash, n);
    if n > 0 {
      MulMono(n, hash + 1, WORD32);
      assert n * (hash + 1) == hash * n + n;
      var p, q := hash * n, hash * n / WORD32;
      assert p < WORD32 * n;
      if q >= n { MulMono(WORD32, n, q); }
    }
  }

  lemma MultReduceIs(hash: nat, n: nat)
    requires hash < WORD32 && n < WORD32
    ensures hash * n >= 0 && MultReduce(hash, n) == hash * n / 0x1_0000_0000
  {
    hide MultReduce;
    QuotientIs(hash * n, MultReduce(hash, n));
  }

  lemma QuotientIs(x: int, q: nat)
    requires q * 0x1_0000_0000 <= x < (q + 1) * 0x1_0000_0000
    ensures x >= 0 && q == x / 0x1_0000_0000
  {}

  /**
    Every position below n is the reduction of some hash.
   */
  lemma ReductionReaches(n: nat, r: nat) returns (hash: nat)
    requires r < n < WORD32
    ensures hash < WORD32 && MultReduce(hash, n) == r
  {
    hide MultReduce;
    var x := r * 0x1_0000_0000 + n - 1;
    hash := x / n;
    var m := hash * n;
    assert m == n * (x / n) && x - n < m <= x;
    if hash >= WORD32 { MulMono(n, WORD32, hash); }
    MultReduceIs(hash, n);
    QuotientIs(m, r);
  }

  // ---------- bits in bytes ----------

  ghost predicate BitAt(b: seq<nat>, p: nat) {
    p / 8 < |b| && Bit(b[p / 8], p % 8)
  }

  ghost predicate AllSet(b: seq<nat>, ps: seq<nat>) {
    forall i :: 0 <= i < |ps| ==> BitAt(b, ps[i])
  }

  // b' has the bits of b and those at the positions ps, no others.
  ghost predicate Added(b: seq<nat>, b': seq<nat>, ps: seq<nat>) {
    |b'| == |b| && forall p: nat :: BitAt(b', p) <==> BitAt(b, p) || p in ps
  }

  /**
    setBit: bytes[p >> 3] |= 1 << (p & 7).
   */
  method SetBitIn(bytes: array<nat>, byte: nat, k: nat, ghost p: nat)
    requires byte == p / 8 < bytes.Length && k == p % 8
    modifies bytes
    ensures Added(old(bytes[..]), bytes[..], [p])
  {
    ghost var b := bytes[..];
    bytes[byte] := SetBit(bytes[byte], k);
    forall q: nat ensures BitAt(bytes[..], q) <==> BitAt(b, q) || q in [p] {
      if q / 8 == byte { assert BitAt(bytes[..], q) <==> Bit(b[byte], q % 8) || q % 8 == k; }
    }
  }

  /**
    testBit: (bytes[p >> 3] & (1 << (p & 7))) != 0.
   */
  function TestBitIn(word: nat, k: nat): (r: bool)
    ensures r <==> Bit(word, k)
  {
    SingleBit(word, k);
    And(word, Pow2(k)) != 0
  }

  lemma SingleBit(word: nat, k: nat)
    ensures And(word, Pow2(k)) != 0 <==> Bit(word, k)
  {
    var a := And(word, Pow2(k));
    AndBit(word, Pow2(k), k);
    Pow2Bit(k, k);
    if a > 0 {
      var i := NonzeroHasBit(a);
      AndBit(word, Pow2(k), i);
      Pow2Bit(k, i);
    } else {
      ZeroBits(k);
    }
  }

  // ---------- adding ----------

  lemma AddedNothing(b: seq<nat>)
    ensures Added(b, b, [])
  {}

  lemma AddedMore(b: seq<nat>, b': seq<nat>, b'': seq<nat>, ps: seq<nat>, p: nat)
    requires Added(b, b', ps) && Added(b', b'', [p])
    ensures Added(b, b'', ps + [p])
  {
    forall q: nat ensures BitAt(b'', q) <==> BitAt(b, q) || q in ps + [p] {
      assert q in ps + [p] <==> q in ps || q in [p];
    }
  }

  // What was added is found, and what was found before is found still.
  lemma AddedFound(b: seq<nat>, b': seq<nat>, ps: seq<nat>, other: seq<nat>)
    requires Added(b, b', ps)
    ensures AllSet(b', ps)
    ensures AllSet(b, other) ==> AllSet(b', other)
  {
    forall i | 0 <= i < |ps| ensures BitAt(b', ps[i]) { assert ps[i] in ps; }
  }

  // ---------- the values added so far ----------

  // The bits that are set are the positions of the values added, and no others.
  ghost predicate Filled<T(!new)>(b: seq<nat>, added: set<T>, probes: T -> seq<nat>) {
    forall p: nat :: BitAt(b, p) <==> Occurs(added, probes, p)
  }

  ghost predicate Occurs<T(!new)>(added: set<T>, probes: T -> seq<nat>, p: nat) {
    exists x :: x in added && p in probes(x)
  }

  lemma NothingFilled<T(!new)>(b: seq<nat>, probes: T -> seq<nat>)
    requires forall i :: 0 <= i < |b| ==> b[i] == 0
    ensures Filled(b, {}, probes)
  {
    forall p: nat ensures !BitAt(b, p) { ZeroBits(p % 8); }
  }

  lemma FilledMore<T(!new)>(b: seq<nat>, b': seq<nat>, added: set<T>, probes: T -> seq<nat>, x: T)
    requires Filled(b, added, probes) && Added(b, b', probes(x))
    ensures Filled(b', added + {x}, probes)
  {
    hide BitAt;
    forall p: nat ensures BitAt(b', p) <==> Occurs(added + {x}, probes, p) {
      if p in probes(x) { assert x in added + {x}; }
      assert BitAt(b, p) <==> Occurs(added, probes, p);
    }
  }

  /**
    What the filter answers: whether every position of the value occurs among those of the values added.
   */
  lemma FilledAnswers<T(!new)>(b: seq<nat>, added: set<T>, probes: T -> seq<nat>, x: T)
    requires Filled(b, added, probes)
    ensures AllSet(b, probes(x)) <==> forall i :: 0 <= i < |probes(x)| ==> Occurs(added, probes, probes(x)[i])
    ensures x in added ==> AllSet(b, probes(x))
  {
    hide BitAt;
    if x in added {
      forall i | 0 <= i < |probes(x)| ensures Occurs(added, probes, probes(x)[i]) { assert probes(x)[i] in probes(x); }
    }
  }

  lemma AllSetMore(b: seq<nat>, ps: seq<nat>, x: nat)
    ensures AllSet(b, ps + [x]) <==> AllSet(b, ps) && BitAt(b, x)
  {
    var t := ps + [x];
    if AllSet(b, t) {
      assert t[|ps|] == x;
      forall i | 0 <= i < |ps| ensures BitAt(b, ps[i]) { assert t[i] == ps[i]; }
    }
  }

  lemma AllSetPrefix(b: seq<nat>, ps: seq<nat>, k: nat)
    requires AllSet(b, ps) && k <= |ps|
    ensures AllSet(b, ps[..k])
  {}
}
