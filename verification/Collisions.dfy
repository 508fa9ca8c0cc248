/**
  Collisions: the number of ordered pairs of equal elements, as the sum of c * (c - 1) over a frequency
  map computes it, and why a finer partition has no more of them.
 */
module Collisions {
  import opened Bits

  function Count<T(==)>(s: seq<T>, x: T): nat {
    if s == [] then 0 else Count(s[..|s| - 1], x) + (if s[|s| - 1] == x then 1 else 0)
  }

  // The number of ordered pairs of positions with equal elements.
  function Pairs<T(==)>(s: seq<T>): nat {
    if s == [] then 0 else Pairs(s[..|s| - 1]) + 2 * Count(s[..|s| - 1], s[|s| - 1])
  }

  // Where t has equal elements, so has s.
  ghost predicate Refines<T(!new), U(!new)>(t: seq<T>, s: seq<U>) {
    |t| == |s| && forall i, j :: 0 <= i < |t| && 0 <= j < |t| && t[i] == t[j] ==> s[i] == s[j]
  }

  lemma {:induction false} CountRefines<T(!new), U(!new)>(t: seq<T>, x: T, s: seq<U>, y: U)
    requires |t| == |s| && forall i :: 0 <= i < |t| && t[i] == x ==> s[i] == y
    ensures Count(t, x) <= Count(s, y)
  {
    if t != [] { CountRefines(t[..|t| - 1], x, s[..|s| - 1], y); }
  }

  /**
    A finer partition has no more collisions.
   */
  lemma {:induction false} FinerIsFewer<T(!new), U(!new)>(t: seq<T>, s: seq<U>)
    requires Refines(t, s)
    ensures Pairs(t) <= Pairs(s)
  {
    if t != [] {
      var l := |t| - 1;
      FinerIsFewer(t[..l], s[..l]);
      CountRefines(t[..l], t[l], s[..l], s[l]);
    }
  }

  lemma {:induction false} CountAtMost<T>(s: seq<T>, x: T)
    ensures Count(s, x) <= |s|
    ensures Count(s, x) == 0 <==> x !in s
  {
    if s != [] {
      var l := |s| - 1;
      CountAtMost(s[..l], x);
      assert s == s[..l] + [s[l]];
    }
  }

  // At most all ordered pairs collide.
  lemma {:induction false} PairsAtMost<T>(s: seq<T>)
    ensures Pairs(s) <= |s| * (|s| - 1)
  {
    if s != [] {
      var l := |s| - 1;
      PairsAtMost(s[..l]);
      CountAtMost(s[..l], s[l]);
      if l > 0 { assert l * (l - 1) + 2 * l == (l + 1) * l; }
    }
  }

  // The count is the one of the multiset.
  lemma {:induction false} CountIs<T>(s: seq<T>, x: T)
    ensures Count(s, x) == multiset(s)[x]
  {
    if s != [] {
      CountIs(s[..|s| - 1], x);
      assert s == s[..|s| - 1] + [s[|s| - 1]];
    }
  }

  ghost predicate AllAlike<T(!new)>(s: seq<T>) {
    forall i, j :: 0 <= i < |s| && 0 <= j < |s| ==> s[i] == s[j]
  }

  lemma {:induction false} CountAll<T>(s: seq<T>, x: T)
    ensures Count(s, x) <= |s|
    ensures Count(s, x) == |s| <==> forall i :: 0 <= i < |s| ==> s[i] == x
  {
    if s != [] { CountAll(s[..|s| - 1], x); }
  }

  /**
    All ordered pairs collide exactly when all elements are alike.
   */
  lemma {:induction false} PairsFull<T(!new)>(s: seq<T>)
    ensures Pairs(s) == |s| * (|s| - 1) <==> AllAlike(s)
  {
    if s != [] {
      var l, t, x := |s| - 1, s[..|s| - 1], s[|s| - 1];
      PairsFull(t);
      PairsAtMost(t);
      CountAll(t, x);
      assert Pairs(s) == Pairs(t) + 2 * Count(t, x);
      hide Pairs, Count;
      FullSum(Pairs(t), Count(t, x), l);
      assert AllAlike(s) <==> AllAlike(t) && forall i :: 0 <= i < l ==> t[i] == x;
    }
  }

  lemma FullSum(pairs: nat, count: nat, l: nat)
    requires pairs <= l * (l - 1) && count <= l
    ensures pairs + 2 * count == (l + 1) * l <==> pairs == l * (l - 1) && count == l
  {
    assert (l + 1) * l == l * (l - 1) + 2 * l;
  }

  // ---------- the sum over a frequency map ----------

  function Without<T(==, !new)>(s: seq<T>, x: T): (r: seq<T>)
    ensures forall y :: y in r <==> y in s && y != x
  {
    if s == [] then []
    else
      var l := |s| - 1;
      assert s == s[..l] + [s[l]];
      Without(s[..l], x) + (if s[l] == x then [] else [s[l]])
  }

  lemma CountPush<T>(s: seq<T>, x: T, y: T)
    ensures Count(s + [x], y) == Count(s, y) + (if x == y then 1 else 0)
  {
    assert (s + [x])[..|s|] == s;
  }

  lemma PairsPush<T>(s: seq<T>, x: T)
    ensures Pairs(s + [x]) == Pairs(s) + 2 * Count(s, x)
  {
    assert (s + [x])[..|s|] == s;
  }

  lemma {:induction false} CountWithout<T(!new)>(s: seq<T>, x: T, y: T)
    ensures Count(Without(s, x), y) == if x == y then 0 else Count(s, y)
  {
    if s != [] {
      var l := |s| - 1;
      CountWithout(s[..l], x, y);
      if s[l] != x { CountPush(Without(s[..l], x), s[l], y); }
      assert s[l] == x ==> Without(s, x) == Without(s[..l], x);
    }
  }

  // c * (c - 1), the ordered pairs among c equal elements.
  function Own(c: nat): nat {
    if c == 0 then 0 else Own(c - 1) + 2 * (c - 1)
  }

  lemma {:induction false} OwnIs(c: nat)
    ensures Own(c) == c * (c - 1)
  {
    if c > 0 {
      OwnIs(c - 1);
      var d := c - 1;
      assert (d + 1) * d == d * (d - 1) + 2 * d;
    }
  }

  // Taking out one value takes out its own pairs.
  lemma {:induction false} PairsWithout<T(!new)>(s: seq<T>, x: T)
    ensures Pairs(s) == Own(Count(s, x)) + Pairs(Without(s, x))
  {
    if s != [] {
      var t, y := s[..|s| - 1], s[|s| - 1];
      assert s == t + [y];
      PairsWithout(t, x);
      hide Pairs, Count, Without;
      PairsPush(t, y);
      CountPush(t, y, x);
      WithoutPush(t, y, x);
      if y != x {
        PairsPush(Without(t, x), y);
        CountWithout(t, x, y);
      }
    }
  }

  lemma WithoutPush<T(!new)>(s: seq<T>, x: T, y: T)
    ensures Without(s + [x], y) == if x == y then Without(s, y) else Without(s, y) + [x]
  {
    assert (s + [x])[..|s|] == s;
  }

  // Every value of s with its number of occurrences.
  ghost predicate IsFrequencyMap<T(!new)>(freq: map<T, nat>, s: seq<T>) {
    forall x :: (x in freq <==> x in s) && (x in freq ==> freq[x] == Count(s, x))
  }

  /**
    Filling the frequency map: one increment per element.
   */
  method Frequencies<T(==, !new)>(s: seq<T>) returns (freq: map<T, nat>)
    ensures IsFrequencyMap(freq, s)
  {
    freq := map[];
    for i := 0 to |s|
      invariant IsFrequencyMap(freq, s[..i])
    {
      CountAtMost(s[..i], s[i]);
      assert s[..i + 1][..i] == s[..i];
      forall y ensures Count(s[..i + 1], y) == Count(s[..i], y) + (if s[i] == y then 1 else 0) {}
      freq := freq[s[i] := (if s[i] in freq then freq[s[i]] else 0) + 1];
    }
    assert s[..|s|] == s;
  }

  // x * (x - 1) * ... with k factors, over the integers.
  function Falling(x: int, k: nat): int {
    if k == 0 then 1 else Falling(x, k - 1) * (x - k + 1)
  }

  /**
    fallingPower in 64-bit arithmetic: the falling power modulo 2^64, also when factors wrap around.
   */
  method FallingPower(x: nat, power: nat) returns (r: nat)
    requires x < WORD && power < 0x1_0000_0000
    ensures r == Falling(x, power) % WORD
  {
    if power == 0 {
      return 1;
    }
    r := x;
    assert Falling(x, 1) == x;
    for i := 1 to power
      invariant r == Falling(x, i) % WORD
    {
      MulMod(Falling(x, i), x - i);
      r := (r * ((x - i) % WORD)) % WORD;
    }
  }

  lemma MulMod(a: int, b: int)
    ensures ((a % WORD) * (b % WORD)) % WORD == (a * b) % WORD
  {
    var qa, ra, qb, rb := a / WORD, a % WORD, b / WORD, b % WORD;
    var t := ra * rb;
    var q := WORD * qa * qb + qa * rb + ra * qb;
    calc {
      a * b;
      (WORD * qa + ra) * (WORD * qb + rb);
      WORD * q + t;
      WORD * (q + t / WORD) + t % WORD;
    }
    ModIs(a * b, q + t / WORD, t % WORD);
  }

  lemma ModIs(x: int, q: int, r: int)
    requires x == WORD * q + r && 0 <= r < WORD
    ensures x % WORD == r
  {}

  function Factorial(n: nat): nat {
    if n == 0 then 1 else n * Factorial(n - 1)
  }

  /**
    x * (x - 1) * ... * (x - k + 1) is x! / (x - k)!, and zero once a factor is.
   */
  lemma {:induction false} FallingFactorial(x: nat, k: nat)
    ensures k <= x ==> Falling(x, k) * Factorial(x - k) == Factorial(x)
    ensures k > x ==> Falling(x, k) == 0
  {
    if k > 0 {
      FallingFactorial(x, k - 1);
      var f, d := Falling(x, k - 1), x - k + 1;
      if k <= x {
        assert Factorial(d) == d * Factorial(x - k);
        assert Falling(x, k) == f * d;
        hide Falling, Factorial;
        Regroup(f, d, Factorial(x - k));
      } else if k == x + 1 {
        assert Falling(x, k) == f * d == 0;
      } else {
        assert Falling(x, k) == f * d == 0;
      }
    }
  }

  lemma Regroup(a: int, b: int, c: int)
    ensures (a * b) * c == a * (b * c)
  {}

  lemma FallingTwo(c: nat)
    ensures Falling(c, 2) == c * (c - 1)
  {
    assert Falling(c, 1) == c;
  }

  /**
    The numerator of evaluateRenyiEntropy: the sum over the frequency map, in whatever order its keys
    come, is the number of colliding pairs.
   */
  method CollisionSum<T(==, !new)>(freq: map<T, nat>, ghost s: seq<T>) returns (sum: nat)
    requires IsFrequencyMap(freq, s) && |s| < 0x8000_0000
    ensures sum == Pairs(s)
  {
    hide Pairs, Count, Without, Falling, Own;
    sum := 0;
    var keys := freq.Keys;
    ghost var rest := s;
    while keys != {}
      invariant keys <= freq.Keys && Remaining(freq, keys, rest)
      invariant sum + Pairs(rest) == Pairs(s)
      decreases |keys|
    {
      var k :| k in keys;
      CountAtMost(s, k);
      OwnPairs(freq[k]);
      var f := FallingPower(freq[k], 2);
      PairsWithout(rest, k);
      StillRemaining(freq, keys, rest, k);
      sum := sum + f;
      keys := keys - {k};
      rest := Without(rest, k);
    }
    NoneRemaining(freq, rest);
  }

  // The keys still to be visited are the values of rest, each as often as the map says.
  ghost predicate Remaining<T(!new)>(freq: map<T, nat>, keys: set<T>, rest: seq<T>) {
    && (forall x :: x in keys <==> x in rest)
    && (forall x :: x in keys ==> x in freq && Count(rest, x) == freq[x])
  }

  lemma StillRemaining<T(!new)>(freq: map<T, nat>, keys: set<T>, rest: seq<T>, k: T)
    requires Remaining(freq, keys, rest) && k in keys
    ensures Remaining(freq, keys - {k}, Without(rest, k)) && Count(rest, k) == freq[k]
  {
    hide Count;
    forall x ensures Count(Without(rest, k), x) == if x == k then 0 else Count(rest, x) { CountWithout(rest, k, x); }
  }

  lemma NoneRemaining<T(!new)>(freq: map<T, nat>, rest: seq<T>)
    requires Remaining(freq, {}, rest)
    ensures Pairs(rest) == 0
  {
    if rest != [] { var _ := Member(rest); }
  }

  lemma Member<T>(s: seq<T>) returns (x: T)
    requires s != []
    ensures x in s
  {
    x := s[0];
  }

  lemma OwnPairs(c: nat)
    requires c < 0x8000_0000
    ensures Falling(c, 2) % WORD == Own(c)
  {
    OwnIs(c);
    FallingTwo(c);
    if c > 0 { SmallProduct(c, c - 1); }
  }

  lemma SmallProduct(a: nat, b: nat)
    requires a < 0x8000_0000 && b < 0x8000_0000
    ensures a * b < WORD
  {
    MulMono(a, b, 0x8000_0000);
    MulMono(0x8000_0000, a, 0x8000_0000);
  }
}
