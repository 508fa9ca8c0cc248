/**
  Choosing the byte positions to hash: strings are grouped by their chunks at the selected positions,
  and the Renyi entropy of the grouping is judged by its exact collision sum, of which the entropy
  is a decreasing function.
 */
module EntropySelector {
  import opened Bits
  import opened Collisions
  import opened FiniteFacts

  /**
    sizeof(entropy_chunk_t), and what is read at the position just past the last whole chunk.
   */
  datatype Chunks = Chunks(width: nat, past: seq<char> -> seq<char>)

  ghost predicate ChunksOk(c: Chunks) {
    c.width > 0 && forall x :: |c.past(x)| == c.width
  }

  // Chunk p of a string; a missing chunk is zero, and so is every chunk beyond the number of chunks
  // as an int, which is smaller from 2^31 chunks on.
  function ChunkAt(c: Chunks, x: seq<char>, p: nat): (r: seq<char>)
    requires ChunksOk(c)
    ensures |r| == c.width
    ensures p < |x| / c.width < INT_LIMIT ==>
              0 <= p * c.width && p * c.width + c.width <= |x| && r == x[p * c.width..p * c.width + c.width]
    ensures p == |x| / c.width < INT_LIMIT ==> r == c.past(x)
    ensures p > ToInt32(|x| / c.width) ==> forall i :: 0 <= i < c.width ==> r[i] == '\0'
  {
    if p > ToInt32(|x| / c.width) then seq(c.width, _ => '\0')
    else if p < |x| / c.width then
      ChunkInside(c, x, p);
      x[p * c.width..p * c.width + c.width]
    else c.past(x)
  }

  lemma ChunkInside(c: Chunks, x: seq<char>, p: nat)
    requires c.width > 0 && p < |x| / c.width
    ensures 0 <= p * c.width && p * c.width + c.width <= |x|
  {
    var q := |x| / c.width;
    MulMono(c.width, p + 1, q);
    MulMono(c.width, 0, p);
    assert c.width * (p + 1) == p * c.width + c.width;
    assert c.width * q <= |x|;
  }

  // std::to_string
  function Digits(n: nat): seq<char> {
    if n < 10 then [n as char + '0'] else Digits(n / 10) + [(n % 10) as char + '0']
  }

  // A decimal numeral and its value.
  predicate IsNumeral(s: seq<char>) {
    s != [] && (|s| > 1 ==> s[0] != '0') && forall i :: 0 <= i < |s| ==> '0' <= s[i] <= '9'
  }

  function NumeralValue(s: seq<char>): nat
    requires forall i :: 0 <= i < |s| ==> '0' <= s[i] <= '9'
  {
    if s == [] then 0 else 10 * NumeralValue(s[..|s| - 1]) + (s[|s| - 1] as int - '0' as int)
  }

  lemma {:induction false} DigitsNumeral(n: nat)
    ensures IsNumeral(Digits(n)) && NumeralValue(Digits(n)) == n && (n > 0 ==> Digits(n)[0] != '0')
  {
    var d := Digits(n);
    if n < 10 {
      assert d[..0] == [];
    } else {
      DigitsNumeral(n / 10);
      assert d[..|d| - 1] == Digits(n / 10);
    }
  }

  // The chunks at the given positions, one after the other.
  function Body(c: Chunks, x: seq<char>, positions: seq<nat>): seq<char>
    requires ChunksOk(c)
  {
    if positions == [] then []
    else Body(c, x, positions[..|positions| - 1]) + ChunkAt(c, x, positions[|positions| - 1])
  }

  function Partial(c: Chunks, x: seq<char>, positions: seq<nat>): seq<char>
    requires ChunksOk(c)
  {
    Body(c, x, positions) + Digits(|x|)
  }

  /**
    formPartialString: a zeroed array of chunks is filled position by position; the length follows.
   */
  method FormPartialString(c: Chunks, x: seq<char>, positions: seq<nat>) returns (r: seq<char>)
    requires ChunksOk(c)
    ensures r == Partial(c, x, positions)
    ensures var n := |positions| * c.width;
            0 <= n <= |r| && IsNumeral(r[n..]) && NumeralValue(r[n..]) == |x|
    ensures forall k :: 0 <= k < |positions| && positions[k] < |x| / c.width < INT_LIMIT ==>
              Copies(c, x, positions[k], r, k)
  {
    hide ChunkAt, Body, Digits;
    var zero := seq(c.width, _ => '\0');
    var hashData := seq(|positions|, _ => zero);
    var size := |x| / c.width;
    for k := 0 to |positions|
      invariant |hashData| == |positions|
      invariant forall j :: 0 <= j < k ==> hashData[j] == ChunkAt(c, x, positions[j])
      invariant forall j :: k <= j < |positions| ==> hashData[j] == zero
    {
      MissingIsZero(c, x, positions[k]);
      if positions[k] <= ToInt32(size) {
        hashData := hashData[k := ChunkAt(c, x, positions[k])];
      }
    }
    BodyIsFlat(c, x, positions, hashData);
    r := Flatten(hashData) + Digits(|x|);
    PartialMeans(c, x, positions);
  }

  lemma MissingIsZero(c: Chunks, x: seq<char>, p: nat)
    requires ChunksOk(c)
    ensures p > ToInt32(|x| / c.width) ==> ChunkAt(c, x, p) == seq(c.width, _ => '\0')
  {}

  // Chunk k of r is x from chunk p on.
  ghost predicate Copies(c: Chunks, x: seq<char>, p: nat, r: seq<char>, k: nat) {
    && 0 <= p * c.width && p * c.width + c.width <= |x|
    && 0 <= k * c.width && k * c.width + c.width <= |r|
    && r[k * c.width..k * c.width + c.width] == x[p * c.width..p * c.width + c.width]
  }

  // The chunks of a body, one by one.
  lemma {:induction false} BodyAt(c: Chunks, x: seq<char>, positions: seq<nat>, k: nat)
    requires ChunksOk(c) && k < |positions|
    ensures |Body(c, x, positions)| == |positions| * c.width
    ensures 0 <= k * c.width <= k * c.width + c.width <= |positions| * c.width
    ensures Body(c, x, positions)[k * c.width..k * c.width + c.width] == ChunkAt(c, x, positions[k])
    decreases |positions|
  {
    hide ChunkAt;
    var l := |positions| - 1;
    var b, t := Body(c, x, positions), Body(c, x, positions[..l]);
    BodySize(c, x, positions);
    BodySize(c, x, positions[..l]);
    MulMono(c.width, k + 1, l + 1);
    MulMono(c.width, 0, k);
    Spread(k, c.width);
    Spread(l, c.width);
    if k < l {
      MulMono(c.width, k + 1, l);
      BodyAt(c, x, positions[..l], k);
      assert b[k * c.width..k * c.width + c.width] == t[k * c.width..k * c.width + c.width];
    }
  }

  lemma Spread(k: nat, w: nat)
    ensures (k + 1) * w == k * w + w && k * w == w * k && (k + 1) * w == w * (k + 1)
  {}

  lemma {:induction false} BodySize(c: Chunks, x: seq<char>, positions: seq<nat>)
    requires ChunksOk(c)
    ensures |Body(c, x, positions)| == |positions| * c.width
  {
    if positions != [] {
      BodySize(c, x, positions[..|positions| - 1]);
      Spread(|positions| - 1, c.width);
    }
  }

  // What a partial string is made of.
  lemma PartialMeans(c: Chunks, x: seq<char>, positions: seq<nat>)
    requires ChunksOk(c)
    ensures var r, n := Partial(c, x, positions), |positions| * c.width;
            && 0 <= n <= |r| && IsNumeral(r[n..]) && NumeralValue(r[n..]) == |x|
            && forall k :: 0 <= k < |positions| && positions[k] < |x| / c.width < INT_LIMIT ==>
                 Copies(c, x, positions[k], r, k)
  {
    hide ChunkAt, Body, Digits, NumeralValue, Copies;
    var r, n := Partial(c, x, positions), |positions| * c.width;
    BodySize(c, x, positions);
    DigitsNumeral(|x|);
    assert r[n..] == Digits(|x|);
    forall k | 0 <= k < |positions| && positions[k] < |x| / c.width < INT_LIMIT
      ensures Copies(c, x, positions[k], r, k)
    {
      BodyAt(c, x, positions, k);
      ChunkCopied(c, x, positions[k], Body(c, x, positions), Digits(|x|), k);
    }
  }

  lemma ChunkIs(c: Chunks, x: seq<char>, p: nat)
    requires ChunksOk(c) && p < |x| / c.width < INT_LIMIT
    ensures 0 <= p * c.width && p * c.width + c.width <= |x|
    ensures ChunkAt(c, x, p) == x[p * c.width..p * c.width + c.width]
  {
    hide ChunkAt, ToInt32;
    ChunkInside(c, x, p);
    var r := ChunkAt(c, x, p);
  }

  lemma Front(b: seq<char>, d: seq<char>, i: nat, j: nat)
    requires i <= j <= |b|
    ensures (b + d)[i..j] == b[i..j]
  {}

  lemma ChunkCopied(c: Chunks, x: seq<char>, p: nat, b: seq<char>, d: seq<char>, k: nat)
    requires ChunksOk(c) && p < |x| / c.width < INT_LIMIT && 0 <= k * c.width <= k * c.width + c.width <= |b|
    requires b[k * c.width..k * c.width + c.width] == ChunkAt(c, x, p)
    ensures Copies(c, x, p, b + d, k)
  {
    hide ChunkAt;
    ChunkIs(c, x, p);
    Front(b, d, k * c.width, k * c.width + c.width);
  }

  function Flatten(chunks: seq<seq<char>>): seq<char> {
    if chunks == [] then [] else Flatten(chunks[..|chunks| - 1]) + chunks[|chunks| - 1]
  }

  lemma {:induction false} BodyIsFlat(c: Chunks, x: seq<char>, positions: seq<nat>, chunks: seq<seq<char>>)
    requires ChunksOk(c) && |chunks| == |positions|
    requires forall j :: 0 <= j < |chunks| ==> chunks[j] == ChunkAt(c, x, positions[j])
    ensures Flatten(chunks) == Body(c, x, positions)
  {
    if chunks != [] { BodyIsFlat(c, x, positions[..|positions| - 1], chunks[..|chunks| - 1]); }
  }

  // ---------- one more position refines the grouping ----------

  lemma {:induction false} BodyLength(c: Chunks, x: seq<char>, y: seq<char>, positions: seq<nat>)
    requires ChunksOk(c)
    ensures |Body(c, x, positions)| == |Body(c, y, positions)|
  {
    if positions != [] { BodyLength(c, x, y, positions[..|positions| - 1]); }
  }

  lemma BodyPush(c: Chunks, x: seq<char>, positions: seq<nat>, p: nat)
    requires ChunksOk(c)
    ensures Body(c, x, positions + [p]) == Body(c, x, positions) + ChunkAt(c, x, p)
  {
    assert (positions + [p])[..|positions|] == positions;
  }

  // Strings told apart by the selected positions stay apart with one more.
  lemma SameWithMore(c: Chunks, x: seq<char>, y: seq<char>, positions: seq<nat>, p: nat)
    requires ChunksOk(c) && Partial(c, x, positions + [p]) == Partial(c, y, positions + [p])
    ensures Partial(c, x, positions) == Partial(c, y, positions)
  {
    hide ChunkAt, Body, Digits;
    BodyPush(c, x, positions, p);
    BodyPush(c, y, positions, p);
    BodyLength(c, x, y, positions);
    Parts(Body(c, x, positions), ChunkAt(c, x, p), Digits(|x|), Body(c, y, positions), ChunkAt(c, y, p), Digits(|y|));
  }

  lemma Parts(a: seq<char>, b: seq<char>, d: seq<char>, a': seq<char>, b': seq<char>, d': seq<char>)
    requires |a| == |a'| && |b| == |b'| && (a + b) + d == (a' + b') + d'
    ensures a == a' && d == d'
  {
    var s := (a + b) + d;
    assert a == s[..|a|] && a' == s[..|a|];
    assert d == s[|a| + |b|..] && d' == s[|a| + |b|..];
  }

  // x and y are equal but for chunk p.
  ghost predicate DifferAt(c: Chunks, x: seq<char>, y: seq<char>, p: nat) {
    && |x| == |y| && 0 <= p * c.width && p * c.width + c.width <= |x|
    && x[..p * c.width] == y[..p * c.width] && x[p * c.width + c.width..] == y[p * c.width + c.width..]
    && x[p * c.width..p * c.width + c.width] != y[p * c.width..p * c.width + c.width]
  }

  lemma {:induction false} SameBody(c: Chunks, x: seq<char>, y: seq<char>, positions: seq<nat>)
    requires ChunksOk(c)
    ensures Body(c, x, positions) == Body(c, y, positions)
       <==> forall k :: 0 <= k < |positions| ==> ChunkAt(c, x, positions[k]) == ChunkAt(c, y, positions[k])
  {
    hide ChunkAt;
    if positions != [] {
      var l := |positions| - 1;
      var s, q := positions[..l], positions[l];
      SameBody(c, x, y, s);
      BodyLength(c, x, y, s);
      ChunkLength(c, x, y, q);
      BothParts(Body(c, x, s), ChunkAt(c, x, q), Body(c, y, s), ChunkAt(c, y, q));
    }
  }

  lemma ChunkLength(c: Chunks, x: seq<char>, y: seq<char>, q: nat)
    requires ChunksOk(c)
    ensures |ChunkAt(c, x, q)| == |ChunkAt(c, y, q)|
  {}

  lemma BothParts(a: seq<char>, b: seq<char>, a': seq<char>, b': seq<char>)
    requires |a| == |a'| && |b| == |b'|
    ensures a + b == a' + b' <==> a == a' && b == b'
  {
    assert (a + b)[..|a|] == a && (a' + b')[..|a|] == a' && (a + b)[|a|..] == b && (a' + b')[|a|..] == b';
  }

  lemma ChunksDiffer(c: Chunks, x: seq<char>, y: seq<char>, p: nat, q: nat)
    requires ChunksOk(c) && DifferAt(c, x, y, p) && p < |x| / c.width < INT_LIMIT
    requires q == |x| / c.width ==> c.past(x) == c.past(y)
    ensures ChunkAt(c, x, q) == ChunkAt(c, y, q) <==> q != p
  {
    if q == p {
      var n := p * c.width;
      assert x[n..n + c.width] == ChunkAt(c, x, p) && y[n..n + c.width] == ChunkAt(c, y, p);
    } else if q < |x| / c.width {
      ChunkKept(c, x, y, p, q);
    }
  }

  lemma ChunkKept(c: Chunks, x: seq<char>, y: seq<char>, p: nat, q: nat)
    requires ChunksOk(c) && DifferAt(c, x, y, p) && p < |x| / c.width < INT_LIMIT && q < |x| / c.width && q != p
    ensures ChunkAt(c, x, q) == ChunkAt(c, y, q)
  {
    hide ChunkAt;
    var w := c.width;
    Spread(p, w);
    Spread(q, w);
    if q < p { MulMono(w, q + 1, p); } else { MulMono(w, p + 1, q); }
    ChunkIs(c, x, q);
    ChunkIs(c, y, q);
    SliceKept(x, y, p * w, p * w + w, q * w, q * w + w);
  }

  lemma SliceKept(x: seq<char>, y: seq<char>, i: nat, j: nat, a: nat, b: nat)
    requires i <= j <= |x| == |y| && x[..i] == y[..i] && x[j..] == y[j..]
    requires a <= b <= |x| && (b <= i || j <= a)
    ensures x[a..b] == y[a..b]
  {
    forall k | a <= k < b ensures x[k] == y[k] {
      if b <= i { assert x[..i][k] == y[..i][k]; } else { assert x[j..][k - j] == y[j..][k - j]; }
    }
  }

  /**
    Two strings that differ in one whole chunk get different partial strings if and only if that chunk is
    selected.
   */
  lemma TellsApart(c: Chunks, x: seq<char>, y: seq<char>, positions: seq<nat>, p: nat)
    requires ChunksOk(c) && DifferAt(c, x, y, p) && p < |x| / c.width < INT_LIMIT
    requires |x| / c.width in positions ==> c.past(x) == c.past(y)
    ensures Partial(c, x, positions) != Partial(c, y, positions) <==> p in positions
  {
    hide ChunkAt, Body, Digits;
    forall k | 0 <= k < |positions|
      ensures ChunkAt(c, x, positions[k]) == ChunkAt(c, y, positions[k]) <==> positions[k] != p
    {
      assert positions[k] in positions;
      ChunksDiffer(c, x, y, p, positions[k]);
    }
    SameBody(c, x, y, positions);
    BodyLength(c, x, y, positions);
    BothParts(Body(c, x, positions), Digits(|x|), Body(c, y, positions), Digits(|y|));
  }

  ghost function Keys(c: Chunks, data: seq<seq<char>>, positions: seq<nat>): (r: seq<seq<char>>)
    requires ChunksOk(c)
    ensures |r| == |data| && forall i :: 0 <= i < |data| ==> r[i] == Partial(c, data[i], positions)
  {
    seq(|data|, i requires 0 <= i < |data| => Partial(c, data[i], positions))
  }

  // The collision sum of a dataset under the selected positions.
  ghost function Sum(c: Chunks, data: seq<seq<char>>, positions: seq<nat>): nat
    requires ChunksOk(c)
  {
    Pairs(Keys(c, data, positions))
  }

  // All ordered pairs of a dataset: the collision sum of entropy 0.  Without strings there is no such
  // sum, since the entropy is infinite whatever the positions.
  function Worst(data: seq<seq<char>>): nat {
    if data == [] then 1 else |data| * (|data| - 1)
  }

  /**
    One more position, on any dataset, never adds collisions.
   */
  lemma MoreIsFewer(c: Chunks, data: seq<seq<char>>, positions: seq<nat>, p: nat)
    requires ChunksOk(c)
    ensures Sum(c, data, positions + [p]) <= Sum(c, data, positions)
  {
    hide Partial;
    var t, s := Keys(c, data, positions + [p]), Keys(c, data, positions);
    forall i, j | 0 <= i < |t| && 0 <= j < |t| && t[i] == t[j] ensures s[i] == s[j] {
      SameWithMore(c, data[i], data[j], positions, p);
    }
    FinerIsFewer(t, s);
  }

  lemma SumAtMost(c: Chunks, data: seq<seq<char>>, positions: seq<nat>)
    requires ChunksOk(c)
    ensures Sum(c, data, positions) <= Worst(data)
  {
    hide Partial;
    PairsAtMost(Keys(c, data, positions));
  }

  // ---------- the selection ----------

  /**
    evaluateEntropy, up to the logarithm: the collision sum through a frequency map.
   */
  method EvaluateSum(c: Chunks, data: seq<seq<char>>, positions: seq<nat>) returns (sum: nat)
    requires ChunksOk(c) && |data| < 0x8000_0000
    ensures sum == Sum(c, data, positions)
  {
    hide Partial, Pairs, Keys;
    var keys := [];
    for i := 0 to |data|
      invariant |keys| == i && forall j :: 0 <= j < i ==> keys[j] == Partial(c, data[j], positions)
    {
      var key := FormPartialString(c, data[i], positions);
      keys := keys + [key];
    }
    assert keys == Keys(c, data, positions);
    var freq := Frequencies(keys);
    sum := CollisionSum(freq, keys);
  }

  method IsUsed(positions: seq<nat>, i: nat) returns (used: bool)
    ensures used <==> i in positions
  {
    for j := 0 to |positions|
      invariant i !in positions[..j]
    {
      if positions[j] == i {
        return true;
      }
    }
    assert positions[..|positions|] == positions;
    used := false;
  }

  // Position b has fewer collisions than every unused candidate below it, and no more than any up to m.
  ghost predicate Best(c: Chunks, data: seq<seq<char>>, positions: seq<nat>, m: nat, b: nat)
    requires ChunksOk(c)
  {
    && b < m && b !in positions && Sum(c, data, positions + [b]) < Worst(data)
    && forall i: nat :: i < m && i !in positions ==>
         Sum(c, data, positions + [b]) <= Sum(c, data, positions + [i])
         && (i < b ==> Sum(c, data, positions + [b]) < Sum(c, data, positions + [i]))
  }

  // No unused candidate tells any two strings apart.
  ghost predicate Hopeless(c: Chunks, data: seq<seq<char>>, positions: seq<nat>, m: nat)
    requires ChunksOk(c)
  {
    forall i: nat :: i < m && i !in positions ==> Sum(c, data, positions + [i]) == Worst(data)
  }

  /**
    That is so exactly when there are strings, and each unused candidate gives all of them the same key.
   */
  lemma HopelessIff(c: Chunks, data: seq<seq<char>>, positions: seq<nat>, m: nat)
    requires ChunksOk(c)
    ensures Hopeless(c, data, positions, m) <==>
              forall i: nat :: i < m && i !in positions ==> data != [] && AllAlike(Keys(c, data, positions + [i]))
  {
    hide Partial;
    forall i: nat ensures Sum(c, data, positions + [i]) == Worst(data)
                     <==> data != [] && AllAlike(Keys(c, data, positions + [i])) {
      PairsFull(Keys(c, data, positions + [i]));
    }
  }

  /**
    chooseBestPositionRenyi: the first unused position with the fewest collisions, or -1 exactly when
    every unused position leaves all strings together.
   */
  method ChooseBestPosition(c: Chunks, maxLength: nat, data: seq<seq<char>>, positions: seq<nat>)
    returns (best: int, bestSum: nat)
    requires ChunksOk(c) && |data| < 0x8000_0000
    ensures best == -1 <==> Hopeless(c, data, positions, maxLength / c.width)
    ensures best != -1 ==>
              best >= 0 && Best(c, data, positions, maxLength / c.width, best)
                && bestSum == Sum(c, data, positions + [best])
  {
    hide Sum;
    best, bestSum := -1, Worst(data);
    for i := 0 to maxLength / c.width
      invariant best == -1 ==> bestSum == Worst(data) && Hopeless(c, data, positions, i)
      invariant best != -1 ==>
                  0 <= best && Best(c, data, positions, i, best) && bestSum == Sum(c, data, positions + [best])
    {
      var used := IsUsed(positions, i);
      if used {
        continue;
      }
      var sum := EvaluateSum(c, data, positions + [i]);
      SumAtMost(c, data, positions + [i]);
      if sum < bestSum {
        best, bestSum := i, sum;
      }
    }
  }

  ghost predicate DistinctBelow(positions: seq<nat>, m: nat) {
    && (forall i :: 0 <= i < |positions| ==> positions[i] < m)
    && (forall i, j :: 0 <= i < j < |positions| ==> positions[i] != positions[j])
  }

  lemma {:induction false} WithoutShorter(s: seq<nat>, x: nat)
    ensures |Without<nat>(s, x)| <= |s| && (x in s ==> |Without<nat>(s, x)| < |s|)
  {
    if s != [] {
      assert s == s[..|s| - 1] + [s[|s| - 1]];
      WithoutShorter(s[..|s| - 1], x);
    }
  }

  // Fewer than m positions leave one unused.
  lemma {:induction false} Unused(positions: seq<nat>, m: nat) returns (i: nat)
    requires |positions| < m
    ensures i < m && i !in positions
    decreases m
  {
    if m - 1 !in positions {
      i := m - 1;
    } else {
      var last: nat := m - 1;
      var others: seq<nat> := Without<nat>(positions, last);
      WithoutShorter(positions, last);
      i := Unused(others, last);
    }
  }

  // Once two strings are told apart, an unused position is never hopeless.
  lemma StaysHopeful(c: Chunks, data: seq<seq<char>>, positions: seq<nat>, m: nat)
    requires ChunksOk(c) && |positions| < m && Sum(c, data, positions) < Worst(data)
    ensures !Hopeless(c, data, positions, m)
  {
    hide Sum;
    var i := Unused(positions, m);
    MoreIsFewer(c, data, positions, i);
  }

  // The recorded sums are those of the growing selection on this dataset, and never go up.
  ghost predicate Recorded(c: Chunks, data: seq<seq<char>>, positions: seq<nat>, start: nat, sums: seq<nat>)
    requires ChunksOk(c)
  {
    && |positions| == start + |sums|
    && forall j :: 0 <= j < |sums| ==>
         && sums[j] == Sum(c, data, positions[..start + j + 1])
         && sums[j] <= Sum(c, data, positions[..start + j])
         && (j > 0 ==> sums[j] <= sums[j - 1])
  }

  lemma RecordNext(c: Chunks, data: seq<seq<char>>, positions: seq<nat>, start: nat, sums: seq<nat>, p: nat)
    requires ChunksOk(c) && Recorded(c, data, positions, start, sums)
    ensures Recorded(c, data, positions + [p], start, sums + [Sum(c, data, positions + [p])])
  {
    hide Sum;
    var positions', sums' := positions + [p], sums + [Sum(c, data, positions + [p])];
    MoreIsFewer(c, data, positions, p);
    assert positions'[..start + |sums|] == positions && positions'[..start + |sums| + 1] == positions';
    assert positions[..start + |sums|] == positions;
    forall j | 0 <= j < |sums'|
      ensures sums'[j] == Sum(c, data, positions'[..start + j + 1]) && sums'[j] <= Sum(c, data, positions'[..start + j])
      ensures j > 0 ==> sums'[j] <= sums'[j - 1]
    {
      if j < |sums| {
        assert positions'[..start + j + 1] == positions[..start + j + 1];
        assert positions'[..start + j] == positions[..start + j];
      }
    }
  }

  // Each position chosen was the best one at its turn.
  ghost predicate GreedyFrom(c: Chunks, data: seq<seq<char>>, positions: seq<nat>, start: nat, m: nat)
    requires ChunksOk(c)
  {
    start <= |positions| && forall k :: start <= k < |positions| ==> Best(c, data, positions[..k], m, positions[k])
  }

  lemma GreedyNext(c: Chunks, data: seq<seq<char>>, positions: seq<nat>, start: nat, m: nat, p: nat)
    requires ChunksOk(c) && GreedyFrom(c, data, positions, start, m) && Best(c, data, positions, m, p)
    ensures GreedyFrom(c, data, positions + [p], start, m)
  {
    hide Best;
    var positions' := positions + [p];
    forall k | start <= k < |positions'| ensures Best(c, data, positions'[..k], m, positions'[k]) {
      assert positions'[..k] == positions[..k];
      if k == |positions| { assert positions[..k] == positions; }
    }
  }

  /**
    greedyRenyiSelectorStopK: each step takes the best position on the training data; the recorded
    sums, on training or validation data, never go up, so the entropies never go down.  The run
    stays with real positions exactly when its first step finds one; `stuck` when it does not.
   */
  method SelectStopK(c: Chunks, maxLength: nat, data: seq<seq<char>>, validation: seq<seq<char>>, start: seq<nat>,
                     count: nat)
    returns (positions: seq<nat>, sums: seq<nat>, stuck: bool)
    requires ChunksOk(c) && data != [] && |data| < 0x8000_0000 && |validation| < 0x8000_0000
    requires count + |start| < maxLength
    ensures start <= positions && |positions| == |start| + |sums| && |sums| <= count
    ensures GreedyFrom(c, data, positions, |start|, maxLength / c.width)
    ensures Recorded(c, validation, positions, |start|, sums)
    ensures !stuck ==> |sums| == count || |positions| == maxLength / c.width
    ensures stuck ==> Hopeless(c, data, positions, maxLength / c.width)
    ensures DistinctBelow(start, maxLength / c.width) ==>
              (stuck <==> count > 0 && |start| < maxLength / c.width && Hopeless(c, data, start, maxLength / c.width))
  {
    hide Sum, Hopeless, Best, Recorded, GreedyFrom;
    ghost var m := maxLength / c.width;
    positions, sums, stuck := start, [], false;
    Begin(c, data, validation, start, m);
    for i := 0 to count
      invariant |sums| == i && start <= positions && |positions| == |start| + i
      invariant GreedyFrom(c, data, positions, |start|, m) && Recorded(c, validation, positions, |start|, sums)
      invariant DistinctBelow(start, m) ==> DistinctBelow(positions, m)
      invariant i > 0 ==> Sum(c, data, positions) < Worst(data) && !Hopeless(c, data, start, m)
      invariant i == 0 ==> positions == start
    {
      if |positions| == maxLength / c.width {
        Full(start, positions, m);
        return;
      }
      var best, bestSum := ChooseBestPosition(c, maxLength, data, positions);
      if DistinctBelow(start, m) {
        AtMost(positions, m);
        if i > 0 { StaysHopeful(c, data, positions, m); }
      }
      if best == -1 {
        stuck := true;
        return;
      }
      BestFacts(c, data, positions, m, best);
      RecordNext(c, validation, positions, |start|, sums, best);
      GreedyNext(c, data, positions, |start|, m, best);
      positions := positions + [best];
      var sum := bestSum;
      if validation != data {
        sum := EvaluateSum(c, validation, positions);
      }
      sums := sums + [sum];
    }
  }

  lemma Begin(c: Chunks, data: seq<seq<char>>, validation: seq<seq<char>>, start: seq<nat>, m: nat)
    requires ChunksOk(c)
    ensures GreedyFrom(c, data, start, |start|, m) && Recorded(c, validation, start, |start|, [])
  {}

  lemma Full(start: seq<nat>, positions: seq<nat>, m: nat)
    requires start <= positions && |positions| == m
    ensures |start| < m || positions == start
  {}

  ghost function Elements(s: seq<nat>): (r: set<nat>)
    ensures forall x: nat :: x in r <==> x in s
  {
    if s == [] then {}
    else
      assert s == s[..|s| - 1] + [s[|s| - 1]];
      Elements(s[..|s| - 1]) + {s[|s| - 1]}
  }

  // Distinct positions below m are at most m.
  lemma AtMost(positions: seq<nat>, m: nat)
    requires DistinctBelow(positions, m)
    ensures |positions| <= m
  {
    AllDifferent(positions);
    SubsetCard(Elements(positions), Upto(m));
  }

  lemma {:induction false} AllDifferent(s: seq<nat>)
    requires forall i, j :: 0 <= i < j < |s| ==> s[i] != s[j]
    ensures |Elements(s)| == |s|
  {
    if s != [] {
      var t, x := s[..|s| - 1], s[|s| - 1];
      forall i | 0 <= i < |t| ensures t[i] != x { assert s[i] != s[|s| - 1]; }
      AllDifferent(t);
      OneElementMore(Elements(t), x);
    }
  }

  lemma OneElementMore(a: set<nat>, x: nat)
    requires x !in a
    ensures |a + {x}| == |a| + 1
  {}

  lemma BestFacts(c: Chunks, data: seq<seq<char>>, positions: seq<nat>, m: nat, b: nat)
    requires ChunksOk(c) && Best(c, data, positions, m, b)
    ensures Sum(c, data, positions + [b]) < Worst(data) && !Hopeless(c, data, positions, m)
    ensures DistinctBelow(positions, m) ==> DistinctBelow(positions + [b], m)
  {
    hide Sum;
  }
}
