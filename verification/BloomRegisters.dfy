/**
  The register-blocked filter: all bits of a value lie in one 64-bit word, built with shifts of the
  second hash.
 */
module BloomRegisters {
  import opened Bits
  import opened GrowthPolicy
  import opened BloomBits

  // Bit j is one of the n positions hash2 & 63, (hash2 >> 6) & 63, ...
  predicate Marked(hash2: nat, n: nat, j: nat) {
    n > 0 && (hash2 % 64 == j || Marked(hash2 / 64, n - 1, j))
  }

  // Position number i of the second hash, in numbers.
  ghost function Digit64(hash2: nat, i: nat): nat {
    hash2 / Pow2(6 * i) % 64
  }

  lemma Digit64Shifts(hash2: nat, i: nat)
    ensures Digit64(hash2, 0) == hash2 % 64 && Digit64(hash2, i + 1) == Digit64(hash2 / 64, i)
  {
    assert Pow2(0) == 1 && Pow2(6) == 64;
    ShrIsDiv(hash2, 6);
    ShrIsDiv(hash2 / 64, 6 * i);
    ShrIsDiv(hash2, 6 * (i + 1));
    ShrTwice(hash2, 6, 6 * i);
  }

  lemma {:induction false} ShrTwice(x: nat, a: nat, b: nat)
    ensures Shr(x, a + b) == Shr(Shr(x, a), b)
  {
    if a > 0 { ShrTwice(x / 2, a - 1, b); }
  }

  lemma {:induction false} MarkedIs(hash2: nat, n: nat, j: nat)
    ensures Marked(hash2, n, j) <==> exists i: nat :: i < n && Digit64(hash2, i) == j
    decreases n
  {
    hide Digit64;
    if n > 0 {
      MarkedIs(hash2 / 64, n - 1, j);
      Digit64Shifts(hash2, 0);
      if Marked(hash2 / 64, n - 1, j) {
        var i: nat :| i < n - 1 && Digit64(hash2 / 64, i) == j;
        Digit64Shifts(hash2, i);
        assert Digit64(hash2, i + 1) == j;
      }
      if exists i: nat :: i < n && Digit64(hash2, i) == j {
        var i: nat :| i < n && Digit64(hash2, i) == j;
        if i > 0 { Digit64Shifts(hash2, i - 1); }
      }
    }
  }

  // The word has exactly the bits marked so far, of n, when rest and left remain.
  ghost predicate WordSoFar(word: nat, rest: nat, left: nat, hash2: nat, n: nat) {
    forall j: nat :: Bit(word, j) || Marked(rest, left, j) <==> Marked(hash2, n, j)
  }

  lemma Started(hash2: nat, n: nat)
    ensures WordSoFar(0, hash2, n, hash2, n)
  {
    forall j: nat ensures !Bit(0, j) { ZeroBits(j); }
  }

  // testWord |= 1 << (hash2 & 63); hash2 >>= 6.
  lemma OneBitMore(word: nat, rest: nat, left: nat, hash2: nat, n: nat)
    requires WordSoFar(word, rest, left, hash2, n) && left > 0
    ensures And(rest, 63) == rest % 64 && Shr(rest, 6) == rest / 64
    ensures WordSoFar(SetBit(word, rest % 64), rest / 64, left - 1, hash2, n)
  {
    assert Pow2(6) == 64;
    MaskIsMod(rest, 6);
    ShrIsDiv(rest, 6);
    var word' := SetBit(word, rest % 64);
    forall j: nat ensures Bit(word', j) || Marked(rest / 64, left - 1, j) <==> Marked(hash2, n, j) {
      assert Bit(word, j) || Marked(rest, left, j) <==> Marked(hash2, n, j);
    }
  }

  ghost predicate WordOf(word: nat, hash2: nat, n: nat) {
    forall j: nat :: Bit(word, j) <==> Marked(hash2, n, j)
  }

  lemma Finished(word: nat, rest: nat, hash2: nat, n: nat)
    requires WordSoFar(word, rest, 0, hash2, n)
    ensures WordOf(word, hash2, n)
  {
    forall j: nat ensures Bit(word, j) <==> Marked(hash2, n, j) {
      assert Bit(word, j) || Marked(rest, 0, j) <==> Marked(hash2, n, j);
    }
  }

  /**
    The loop of addValue: one bit per turn, numHashes turns.
   */
  method AddWord(hash2: nat, numHashes: nat) returns (word: nat)
    ensures WordOf(word, hash2, numHashes)
  {
    hide WordSoFar, WordOf, Marked;
    word := 0;
    var rest := hash2;
    Started(hash2, numHashes);
    for i := 1 to numHashes + 1
      invariant WordSoFar(word, rest, numHashes + 1 - i, hash2, numHashes)
    {
      OneBitMore(word, rest, numHashes + 1 - i, hash2, numHashes);
      word := SetBit(word, And(rest, 63));
      rest := Shr(rest, 6);
    }
    Finished(word, rest, hash2, numHashes);
  }

  /**
    The loop of testValue: one turn fewer, and one bit after it.
   */
  method TestWord(hash2: nat, numHashes: nat) returns (word: nat)
    ensures WordOf(word, hash2, if numHashes == 0 then 1 else numHashes)
  {
    hide WordSoFar, WordOf, Marked;
    ghost var n := if numHashes == 0 then 1 else numHashes;
    word := 0;
    var rest := hash2;
    Started(hash2, n);
    var i := 1;
    while i < numHashes
      invariant 1 <= i <= n && WordSoFar(word, rest, n + 1 - i, hash2, n)
      decreases numHashes - i
    {
      OneBitMore(word, rest, n + 1 - i, hash2, n);
      word := SetBit(word, And(rest, 63));
      rest := Shr(rest, 6);
      i := i + 1;
    }
    OneBitMore(word, rest, 1, hash2, n);
    word := SetBit(word, And(rest, 63));
    Finished(word, rest / 64, hash2, n);
  }

  // Every marked bit is set.
  ghost predicate Covers(word: nat, hash2: nat, n: nat) {
    forall j: nat :: Marked(hash2, n, j) ==> Bit(word, j)
  }

  // (testWord & word) == testWord
  lemma MaskTest(test: nat, word: nat, hash2: nat, n: nat)
    requires WordOf(test, hash2, n)
    ensures And(test, word) == test <==> Covers(word, hash2, n)
  {
    if And(test, word) == test {
      forall j: nat | Marked(hash2, n, j) ensures Bit(word, j) { AndBit(test, word, j); }
    }
    if Covers(word, hash2, n) {
      forall j: nat ensures Bit(And(test, word), j) == Bit(test, j) { AndBit(test, word, j); }
      SameBits(And(test, word), test);
    }
  }

  class RegisterBloom<T(!new)> {
    const words: array<nat>
    const numBlocks: nat
    const numHashes: nat
    const hash: T -> nat

    ghost var added: set<T>

    function WordNum(x: T): (r: nat)
      requires numBlocks < WORD32
      ensures r < numBlocks || r == 0
    {
      MultReduce(Low(hash(x)), numBlocks)
    }

    // Bit b of word w belongs to some value that was added.
    ghost predicate Owned(w: nat, b: nat)
      reads this
      requires numBlocks < WORD32
    {
      exists y :: y in added && WordNum(y) == w && Marked(High(hash(y)), numHashes, b)
    }

    ghost predicate Valid()
      reads this, words
    {
      && numBlocks < WORD32 && words.Length >= 1 && words.Length >= numBlocks
      && forall w: nat, b: nat :: w < words.Length ==> (Bit(words[w], b) <==> Owned(w, b))
    }

    // The word of a value and its position i in it, in numbers.
    ghost function WordOfValue(x: T): int {
      hash(x) % 0x1_0000_0000 * numBlocks / 0x1_0000_0000
    }

    ghost function Position(x: T, i: nat): nat {
      hash(x) / 0x1_0000_0000 % 0x1_0000_0000 / Pow2(6 * i) % 64
    }

    ghost predicate SamePlace(y: T, j: nat, x: T, i: nat) {
      WordOfValue(y) == WordOfValue(x) && Position(y, j) == Position(x, i)
    }

    // Some value that was added has the position in the same word.
    ghost predicate Taken(x: T, i: nat)
      reads this
    {
      exists y, j: nat :: y in added && j < numHashes && SamePlace(y, j, x, i)
    }

    lemma OwnedIs(x: T, i: nat)
      requires numBlocks < WORD32
      ensures Owned(WordNum(x), Digit64(High(hash(x)), i)) <==> Taken(x, i)
    {
      hide MultReduce, Marked, Pow2;
      forall y ensures WordNum(y) == WordOfValue(y) { MultReduceIs(Low(hash(y)), numBlocks); }
      hide WordOfValue;
      var b := Digit64(High(hash(x)), i);
      forall y
        ensures Marked(High(hash(y)), numHashes, b) <==>
                  exists j: nat :: j < numHashes && Digit64(High(hash(y)), j) == b
      {
        MarkedIs(High(hash(y)), numHashes, b);
      }
      forall y, j: nat ensures Position(y, j) == Digit64(High(hash(y)), j) {}
      hide Position, Digit64;
      if Owned(WordNum(x), b) {
        var y :| y in added && WordNum(y) == WordNum(x) && Marked(High(hash(y)), numHashes, b);
        var j: nat :| j < numHashes && Digit64(High(hash(y)), j) == b;
        assert SamePlace(y, j, x, i);
      }
      if Taken(x, i) {
        var y, j: nat :| y in added && j < numHashes && SamePlace(y, j, x, i);
        assert Digit64(High(hash(y)), j) == b;
      }
    }

    lemma OwnTaken(x: T, i: nat)
      requires x in added && i < numHashes
      ensures Taken(x, i)
    {
      assert SamePlace(x, i, x, i);
    }

    // What the test of a word says, for n positions.
    lemma Answer(x: T, n: nat)
      requires Valid()
      ensures Covers(words[WordNum(x)], High(hash(x)), n) <==> forall i: nat :: i < n ==> Taken(x, i)
    {
      hide MultReduce, Marked, Owned, Taken, Digit64, High, Low;
      var h, w := High(hash(x)), words[WordNum(x)];
      forall i: nat ensures Bit(w, Digit64(h, i)) <==> Taken(x, i) { OwnedIs(x, i); }
      forall j: nat ensures Marked(h, n, j) <==> exists i: nat :: i < n && Digit64(h, i) == j { MarkedIs(h, n, j); }
      if Covers(w, h, n) {
        forall i: nat | i < n ensures Taken(x, i) { assert Marked(h, n, Digit64(h, i)); }
      }
    }

    constructor (sizeInBits: nat, numHashes: nat, hash: T -> nat)
      ensures Valid() && added == {} && fresh(words)
      ensures this.numHashes == numHashes && this.hash == hash
      ensures words.Length == 8 * (sizeInBits / 512 + 1) && numBlocks == words.Length % WORD32
    {
      var sizeInBytes := (sizeInBits + (512 - sizeInBits % 512)) / 8;
      assert sizeInBytes == 64 * (sizeInBits / 512 + 1);
      this.numBlocks := (8 * sizeInBytes / 64) % WORD32;
      this.words := new nat[sizeInBytes / 8](_ => 0);
      this.numHashes, this.hash := numHashes, hash;
      added := {};
      new;
      forall b: nat ensures !Bit(0, b) { ZeroBits(b); }
    }

    method AddValue(x: T)
      requires Valid()
      modifies this, words
      ensures Valid() && added == old(added) + {x}
      ensures forall i :: 0 <= i < words.Length && i != WordNum(x) ==> words[i] == old(words[i])
      ensures forall j: nat :: Bit(words[WordNum(x)], j) <==>
                old(Bit(words[WordNum(x)], j)) || Marked(High(hash(x)), numHashes, j)
    {
      hide MultReduce, High, Low, Marked;
      var w := WordNum(x);
      var h := High(hash(x));
      var testWord := AddWord(h, numHashes);
      var before := words[w];
      var after := Or(before, testWord);
      forall j: nat ensures Bit(after, j) <==> Bit(before, j) || Marked(h, numHashes, j) { OrBit(before, testWord, j); }
      hide Or;
      ghost var was := added;
      words[w] := after;
      added := added + {x};
      forall v: nat, b: nat | v < words.Length ensures Bit(words[v], b) <==> Owned(v, b) {
        assert Bit(old(words[v]), b) <==>
            exists y :: y in was && WordNum(y) == v && Marked(High(hash(y)), numHashes, b);
        if v == w && Marked(h, numHashes, b) { assert x in added; }
      }
    }

    /**
      testValue: whether every position of the value is one of a value added to the same word, hence true
      for everything added, whenever there is at least one hash; with none, it asks for a bit that
      addValue never sets and is false for every value.
     */
    method TestValue(x: T) returns (r: bool)
      requires Valid()
      ensures r <==> forall i: nat :: i < (if numHashes == 0 then 1 else numHashes) ==> Taken(x, i)
      ensures x in added ==> (r <==> numHashes >= 1)
      ensures numHashes == 0 ==> !r
    {
      hide MultReduce, High, Low, WordOf, Covers, Position, WordOfValue;
      var w := WordNum(x);
      var h := High(hash(x));
      var testWord := TestWord(h, numHashes);
      ghost var n := if numHashes == 0 then 1 else numHashes;
      MaskTest(testWord, words[w], h, n);
      Answer(x, n);
      r := And(testWord, words[w]) == testWord;
      if numHashes == 0 {
        assert !Taken(x, 0);
      } else if x in added {
        forall i: nat | i < numHashes ensures Taken(x, i) { OwnTaken(x, i); }
      }
    }
  }
}
