/**
  The bucket array of the Robin Hood table, as a sequence: distances around the ring, the
  probe invariant, and what one exchange of a bucket with a carried entry does to it.
 */
module RobinBuckets {

  datatype Bucket<K, V> = Empty | Full(dist: nat, hash: nat, key: K, val: V)

  /**
    The template parameters that decide behaviour: the hash functor, whether 32 bits of the
    hash are kept in the bucket (STORE_HASH) and whether lookups compare them
    (USE_STORED_HASH_ON_LOOKUP).
   */
  datatype Config<!K> = Config(hash: K -> nat, storeHash: bool, lookupHash: bool)

  const TRUNCATED: nat := 0x1_0000_0000

  function Truncate(hash: nat): nat {
    hash % TRUNCATED
  }

  // What the bucket of key k keeps of its hash.
  function StoredHash<K>(cfg: Config<K>, k: K): nat {
    if cfg.storeHash then Truncate(cfg.hash(k)) else 0
  }

  // dist_from_ideal_bucket, with -1 for an empty bucket.
  function Dist<K, V>(x: Bucket<K, V>): int {
    if x.Empty? then -1 else x.dist
  }

  function Next(i: nat, n: nat): (r: nat)
    requires i < n
    ensures r < n
  {
    if i + 1 == n then 0 else i + 1
  }

  function Prev(i: nat, n: nat): (r: nat)
    requires i < n
    ensures r < n && Next(r, n) == i
  {
    if i == 0 then n - 1 else i - 1
  }

  // Number of steps from bucket h forward to bucket i.
  function Cyc(i: nat, h: nat, n: nat): (r: nat)
    requires i < n && h < n
    ensures r < n
  {
    if i >= h then i - h else i - h + n
  }

  // The bucket reached from h in j steps.
  function Adv(h: nat, j: nat, n: nat): (r: nat)
    requires h < n && j <= n
    ensures r < n
  {
    if h + j < n then h + j else h + j - n
  }

  lemma AdvNext(h: nat, j: nat, n: nat)
    requires h < n && j < n
    ensures Next(Adv(h, j, n), n) == Adv(h, j + 1, n)
    ensures Prev(Adv(h, j + 1, n), n) == Adv(h, j, n)
  {}

  // One step towards bucket e.
  lemma CycNext(e: nat, i: nat, n: nat)
    requires e < n && i < n && e != i
    ensures Cyc(e, Next(i, n), n) + 1 == Cyc(e, i, n)
  {}

  // The stored distance is exact and the stored hash is the one of the key.
  ghost predicate Placed<K, V>(cfg: Config<K>, n: nat, x: Bucket<K, V>, i: nat)
    requires i < n
  {
    x.Full? ==> x.dist == Cyc(i, cfg.hash(x.key) % n, n) && x.hash == StoredHash(cfg, x.key)
  }

  ghost predicate AllPlaced<K, V>(cfg: Config<K>, b: seq<Bucket<K, V>>) {
    forall i :: 0 <= i < |b| ==> Placed(cfg, |b|, b[i], i)
  }

  ghost predicate OrderedAt<K, V>(b: seq<Bucket<K, V>>, i: nat)
    requires i < |b|
  {
    Dist(b[Next(i, |b|)]) <= Dist(b[i]) + 1
  }

  // The probe invariant: around the ring, the distance grows by at most one.
  ghost predicate Ordered<K, V>(b: seq<Bucket<K, V>>) {
    forall i :: 0 <= i < |b| ==> OrderedAt(b, i)
  }

  ghost predicate HasKey<K, V>(b: seq<Bucket<K, V>>, k: K) {
    exists i :: 0 <= i < |b| && b[i].Full? && b[i].key == k
  }

  ghost predicate KeysDistinct<K, V>(b: seq<Bucket<K, V>>) {
    forall i, j :: 0 <= i < j < |b| && b[i].Full? && b[j].Full? ==> b[i].key != b[j].key
  }

  ghost function Count<K, V>(b: seq<Bucket<K, V>>): (r: nat)
    ensures r <= |b|
  {
    if |b| == 0 then 0 else Count(b[..|b| - 1]) + (if b[|b| - 1].Full? then 1 else 0)
  }

  /**
    The buckets together with the entry in hand (if any) are exactly the finite map m:
    same keys, same values, no key twice, same number.
   */
  ghost predicate Holds<K, V>(b: seq<Bucket<K, V>>, hand: Bucket<K, V>, m: map<K, V>) {
    && KeysDistinct(b)
    && (forall i :: 0 <= i < |b| && b[i].Full? ==> b[i].key in m && m[b[i].key] == b[i].val)
    && (hand.Full? ==> hand.key in m && m[hand.key] == hand.val && !HasKey(b, hand.key))
    && (forall k :: k in m ==> (hand.Full? && hand.key == k) || HasKey(b, k))
    && Count(b) + (if hand.Full? then 1 else 0) == |m|
  }

  // Same entry, possibly at another distance.
  ghost predicate SameEntry<K, V>(x: Bucket<K, V>, y: Bucket<K, V>) {
    x.Full? == y.Full? && (x.Full? ==> x.hash == y.hash && x.key == y.key && x.val == y.val)
  }

  lemma {:induction false} CountUpdate<K, V>(b: seq<Bucket<K, V>>, i: nat, x: Bucket<K, V>)
    requires i < |b|
    ensures Count(b[i := x]) + (if b[i].Full? then 1 else 0) == Count(b) + (if x.Full? then 1 else 0)
  {
    var l := |b| - 1;
    if i == l {
      assert b[i := x][..l] == b[..l];
    } else {
      assert b[i := x][..l] == b[..l][i := x];
      CountUpdate(b[..l], i, x);
    }
  }

  lemma {:induction false} EmptyExists<K, V>(b: seq<Bucket<K, V>>) returns (e: nat)
    requires Count(b) < |b|
    ensures e < |b| && b[e].Empty?
  {
    var l := |b| - 1;
    if b[l].Empty? {
      e := l;
    } else {
      e := EmptyExists(b[..l]);
    }
  }

  lemma {:induction false} AllEmptyCount<K, V>(b: seq<Bucket<K, V>>)
    requires forall i :: 0 <= i < |b| ==> b[i].Empty?
    ensures Count(b) == 0
  {
    if |b| > 0 { AllEmptyCount(b[..|b| - 1]); }
  }

  // Exchanging bucket i with the entry in hand (either may be empty) keeps the finite map.
  lemma Exchange<K, V>(b: seq<Bucket<K, V>>, hand: Bucket<K, V>, m: map<K, V>, i: nat,
                       x: Bucket<K, V>, hand': Bucket<K, V>)
    requires Holds(b, hand, m) && i < |b|
    requires SameEntry(x, hand) && SameEntry(hand', b[i])
    ensures Holds(b[i := x], hand', m)
  {
    hide Count, KeysDistinct, HasKey;
    var b' := b[i := x];
    CountUpdate(b, i, x);
    ExchangedDistinct(b, i, x);
    forall k | k in m ensures (hand'.Full? && hand'.key == k) || HasKey(b', k) {
      ExchangedKey(b, hand, i, x, hand', k);
    }
  }

  lemma ExchangedDistinct<K, V>(b: seq<Bucket<K, V>>, i: nat, x: Bucket<K, V>)
    requires KeysDistinct(b) && i < |b| && (x.Full? ==> !HasKey(b, x.key))
    ensures KeysDistinct(b[i := x])
    ensures b[i].Full? ==> !HasKey(b[i := x], b[i].key)
  {
    assert forall j :: 0 <= j < |b| && b[j].Full? && x.Full? ==> b[j].key != x.key;
  }

  lemma ExchangedKey<K, V>(b: seq<Bucket<K, V>>, hand: Bucket<K, V>, i: nat, x: Bucket<K, V>, hand': Bucket<K, V>, k: K)
    requires i < |b| && SameEntry(x, hand) && SameEntry(hand', b[i])
    requires (hand.Full? && hand.key == k) || HasKey(b, k)
    ensures (hand'.Full? && hand'.key == k) || HasKey(b[i := x], k)
  {
    var b' := b[i := x];
    if hand.Full? && hand.key == k {
      assert b'[i].Full? && b'[i].key == k;
    } else {
      var j :| 0 <= j < |b| && b[j].Full? && b[j].key == k;
      if j != i { assert b'[j].Full? && b'[j].key == k; }
    }
  }

  // Dropping the entry in hand removes its key.
  lemma Drop<K, V>(b: seq<Bucket<K, V>>, hand: Bucket<K, V>, m: map<K, V>)
    requires Holds(b, hand, m) && hand.Full?
    ensures Holds(b, Empty, m - {hand.key})
  {
    var m' := m - {hand.key};
    assert m'.Keys == m.Keys - {hand.key};
    assert |m.Keys| == |m'.Keys| + 1;
  }

  // Taking a new entry in hand adds its key.
  lemma Take<K, V>(b: seq<Bucket<K, V>>, hand: Bucket<K, V>, m: map<K, V>)
    requires Holds(b, Empty, m) && hand.Full? && hand.key !in m
    ensures Holds(b, hand, m[hand.key := hand.val])
  {
    var m' := m[hand.key := hand.val];
    assert m'.Keys == m.Keys + {hand.key};
    assert |m'.Keys| == |m.Keys| + 1;
  }

  // The finite map of a bucket array is unique.
  lemma HoldsUnique<K, V>(b: seq<Bucket<K, V>>, m: map<K, V>, m': map<K, V>)
    requires Holds(b, Empty, m) && Holds(b, Empty, m')
    ensures m == m'
  {
    assert forall k :: k in m <==> HasKey(b, k);
    assert forall k :: k in m' <==> HasKey(b, k);
  }

  // Placing a Full bucket at i that is no closer to home than what was there, and at most one
  // further than its predecessor, keeps the probe invariant.
  lemma PlaceKeepsOrdered<K, V>(b: seq<Bucket<K, V>>, i: nat, x: Bucket<K, V>)
    requires Ordered(b) && i < |b|
    requires Dist(b[i]) <= Dist(x) <= Dist(b[Prev(i, |b|)]) + 1
    ensures Ordered(b[i := x])
  {
    var b' := b[i := x];
    forall j | 0 <= j < |b'| ensures OrderedAt(b', j) {
      assert OrderedAt(b, j);
      if Next(j, |b|) == i { assert j == Prev(i, |b|); }
    }
  }

  // Walking forward from an empty bucket, distances are bounded by the number of steps walked.
  lemma {:induction false} EmptyBounds<K, V>(b: seq<Bucket<K, V>>, e: nat, i: nat)
    requires Ordered(b) && e < |b| && i < |b| && b[e].Empty?
    ensures Dist(b[i]) < Cyc(i, e, |b|)  || i == e
    decreases Cyc(i, e, |b|)
  {
    if i != e {
      var p := Prev(i, |b|);
      EmptyBounds(b, e, p);
      assert OrderedAt(b, p);
    }
  }

  // Walking back from an entry towards its home, no bucket is closer to home than the walk.
  lemma {:induction false} RunBack<K, V>(b: seq<Bucket<K, V>>, h: nat, d: nat, j: nat)
    requires Ordered(b) && h < |b| && j <= d < |b|
    requires Dist(b[Adv(h, d, |b|)]) >= d
    ensures Dist(b[Adv(h, j, |b|)]) >= j
    decreases d - j
  {
    if j < d {
      RunBack(b, h, d, j + 1);
      assert OrderedAt(b, Adv(h, j, |b|));
      assert Next(Adv(h, j, |b|), |b|) == Adv(h, j + 1, |b|);
    }
  }

  // Bucket i is d steps from bucket h, and its predecessor is at distance d - 1 or more.
  ghost predicate CanPlace<K, V>(b: seq<Bucket<K, V>>, h: nat, i: nat, d: nat)
    requires h < |b|
  {
    d <= |b| && i == Adv(h, d, |b|) && d <= Dist(b[Prev(i, |b|)]) + 1
  }

  // Key k is not in the first d buckets from h.
  ghost predicate Passed<K, V>(b: seq<Bucket<K, V>>, h: nat, k: K, d: nat)
    requires h < |b| && d <= |b|
  {
    forall t :: 0 <= t < d ==> NotIn(b[Adv(h, t, |b|)], k)
  }

  ghost predicate NotIn<K, V>(x: Bucket<K, V>, k: K) {
    x.Full? ==> x.key != k
  }

  lemma ProbeStep<K, V>(b: seq<Bucket<K, V>>, h: nat, i: nat, d: nat, k: K)
    requires h < |b| && d < |b| && CanPlace(b, h, i, d) && Passed(b, h, k, d)
    requires d <= Dist(b[i]) && NotIn(b[i], k)
    ensures CanPlace(b, h, Next(i, |b|), d + 1) && Passed(b, h, k, d + 1)
  {
    AdvNext(h, d, |b|);
  }

  /**
    Early exit is complete: if the probe from the home of k stops at step d, because bucket
    Adv(h, d) is closer to its own home than d, then k can only be in the d buckets before.
   */
  lemma EarlyExit<K, V>(cfg: Config<K>, b: seq<Bucket<K, V>>, h: nat, k: K, d: nat)
    requires h < |b| && h == cfg.hash(k) % |b| && d <= |b|
    requires AllPlaced(cfg, b) && Ordered(b)
    requires d == |b| || d > Dist(b[Adv(h, d, |b|)])
    requires Passed(b, h, k, d)
    ensures !HasKey(b, k)
  {
    if HasKey(b, k) {
      var p :| 0 <= p < |b| && b[p].Full? && b[p].key == k;
      assert Placed(cfg, |b|, b[p], p);
      assert Adv(h, b[p].dist, |b|) == p;
      assert NotIn(b[p], k) || b[p].dist >= d;
      RunBack(b, h, b[p].dist, d);
    }
  }

  // A bucket array that satisfies every table invariant and stands for m.
  ghost predicate Sound<K(!new), V>(cfg: Config<K>, b: seq<Bucket<K, V>>, m: map<K, V>) {
    AllPlaced(cfg, b) && Ordered(b) && Holds(b, Empty, m)
  }

  // A bucket array of which one entry is in hand, to be placed at bucket i or further.
  ghost predicate Carrying<K(!new), V>(cfg: Config<K>, b: seq<Bucket<K, V>>, hand: Bucket<K, V>, i: nat, m: map<K, V>) {
    && i < |b| && hand.Full?
    && AllPlaced(cfg, b) && Ordered(b) && Holds(b, hand, m)
    && Placed(cfg, |b|, hand, i)
    && hand.dist <= Dist(b[Prev(i, |b|)]) + 1
  }

  // Leave the bucket alone when it is at least as far from home as the entry in hand.
  lemma CarryOn<K(!new), V>(cfg: Config<K>, b: seq<Bucket<K, V>>, hand: Bucket<K, V>, i: nat, m: map<K, V>, e: nat)
    requires Carrying(cfg, b, hand, i, m)
    requires hand.dist <= Dist(b[i])
    requires e < |b| && b[e].Empty?
    ensures Carrying(cfg, b, hand.(dist := hand.dist + 1), Next(i, |b|), m)
    ensures Cyc(e, Next(i, |b|), |b|) + 1 == Cyc(e, i, |b|)
  {
    CycNext(e, i, |b|);
    var n := |b|;
    var hand' := hand.(dist := hand.dist + 1);
    EmptyBounds(b, e, i);
    EmptyBounds(b, e, Prev(i, n));
    assert Prev(Next(i, n), n) == i;
    assert Holds(b, hand', m);
  }

  // Steal the bucket from a closer entry and carry that one instead.
  lemma CarrySwap<K(!new), V>(cfg: Config<K>, b: seq<Bucket<K, V>>, hand: Bucket<K, V>, i: nat, m: map<K, V>, e: nat)
    requires Carrying(cfg, b, hand, i, m)
    requires b[i].Full? && hand.dist > b[i].dist
    requires e < |b| && b[e].Empty?
    ensures Carrying(cfg, b[i := hand], b[i].(dist := b[i].dist + 1), Next(i, |b|), m)
    ensures b[i := hand][e].Empty? && Cyc(e, Next(i, |b|), |b|) + 1 == Cyc(e, i, |b|)
  {
    CycNext(e, i, |b|);
    var n := |b|;
    var hand' := b[i].(dist := b[i].dist + 1);
    EmptyBounds(b, e, i);
    assert Placed(cfg, n, b[i], i);
    assert Prev(Next(i, n), n) == i;
    PlaceKeepsOrdered(b, i, hand);
    Exchange(b, hand, m, i, hand, hand');
  }

  // Put the entry in hand into an empty bucket: the table is whole again.
  lemma CarryEnd<K(!new), V>(cfg: Config<K>, b: seq<Bucket<K, V>>, hand: Bucket<K, V>, i: nat, m: map<K, V>)
    requires Carrying(cfg, b, hand, i, m)
    requires b[i].Empty?
    ensures Sound(cfg, b[i := hand], m)
  {
    PlaceKeepsOrdered(b, i, hand);
    Exchange(b, hand, m, i, hand, Empty);
  }

  // One more entry of the old buckets is copied into the new ones.
  lemma FillStep<K, V>(src: seq<Bucket<K, V>>, m: map<K, V>, copied: map<K, V>, i: nat)
    requires i < |src| && src[i].Full?
    requires Holds(src, Empty, m) && Holds(src[..i], Empty, copied)
    ensures src[i].key !in copied && |copied| < |m|
    ensures Holds(src[..i + 1], Empty, copied[src[i].key := src[i].val])
  {
    hide *;
    var x, p := src[i], src[..i];
    FewerCopied(src, m, copied, i);
    Take(p, x, copied);
    HoldsAppend(p, x, copied[x.key := x.val]);
    assert src[..i + 1] == p + [x];
  }

  lemma FewerCopied<K, V>(src: seq<Bucket<K, V>>, m: map<K, V>, copied: map<K, V>, i: nat)
    requires i < |src| && src[i].Full?
    requires Holds(src, Empty, m) && Holds(src[..i], Empty, copied)
    ensures src[i].key !in copied && |copied| < |m|
  {
    assert src[..i + 1][..i] == src[..i] && src[..i + 1][i] == src[i];
    CountPrefix(src, i + 1);
    NotYetCopied(src, i);
  }

  lemma NotYetCopied<K, V>(src: seq<Bucket<K, V>>, i: nat)
    requires i < |src| && src[i].Full? && KeysDistinct(src)
    ensures !HasKey(src[..i], src[i].key)
  {}

  // Appending the entry in hand as one more bucket.
  lemma HoldsAppend<K, V>(b: seq<Bucket<K, V>>, hand: Bucket<K, V>, m: map<K, V>)
    requires Holds(b, hand, m)
    ensures Holds(b + [hand], Empty, m)
  {
    var b' := b + [hand];
    assert b'[..|b|] == b;
    forall k | k in m ensures HasKey(b', k) {
      if hand.Full? && hand.key == k {
        assert b'[|b|].key == k;
      } else {
        var j :| 0 <= j < |b| && b[j].Full? && b[j].key == k;
        assert b'[j].key == k;
      }
    }
  }

  lemma {:induction false} CountPrefix<K, V>(b: seq<Bucket<K, V>>, i: nat)
    requires i <= |b|
    ensures Count(b[..i]) <= Count(b)
  {
    if i < |b| {
      assert b[..|b| - 1][..i] == b[..i];
      CountPrefix(b[..|b| - 1], i);
    } else {
      assert b[..i] == b;
    }
  }
}
