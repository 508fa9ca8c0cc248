/**
  find_guaranteed: a lookup that trusts a single stored-hash match without comparing keys.
 */
module RobinGuaranteed {
  import opened Bits
  import opened GrowthPolicy
  import opened RobinBuckets
  import opened RobinLoops

  const MAX_MATCHES: nat := 8

  // The number of buckets the early-exit probe from h walks over, from its d-th step on.
  ghost function ProbeLen<K, V>(b: seq<Bucket<K, V>>, h: nat, d: nat): (r: nat)
    requires h < |b| && d <= |b|
    ensures d <= r <= |b|
    ensures r < |b| ==> r > Dist(b[Adv(h, r, |b|)])
    ensures forall t :: d <= t < r ==> Dist(b[Adv(h, t, |b|)]) >= t
    decreases |b| - d
  {
    if d == |b| || d > Dist(b[Adv(h, d, |b|)]) then d else ProbeLen(b, h, d + 1)
  }

  // The buckets among the first d from h whose stored hash is tr.
  ghost function Matches<K, V>(b: seq<Bucket<K, V>>, h: nat, d: nat, tr: nat): (r: seq<nat>)
    requires h < |b| && d <= |b|
    ensures forall p :: p in r ==> p < |b| && b[p].Full?
    ensures forall s :: 0 <= s < |r| ==> r[s] < |b| && b[r[s]].Full?
    decreases d
  {
    if d == 0 then []
    else
      var p := Adv(h, d - 1, |b|);
      Matches(b, h, d - 1, tr) + (if b[p].Full? && b[p].hash == tr then [p] else [])
  }

  // The stored-hash matches that find_guaranteed sees for a key.
  ghost function Candidates<K, V>(cfg: Config<K>, b: seq<Bucket<K, V>>, k: K): (r: seq<nat>)
    ensures forall p :: p in r ==> p < |b| && b[p].Full?
    ensures forall s :: 0 <= s < |r| ==> r[s] < |b| && b[r[s]].Full?
  {
    if |b| == 0 then []
    else
      var h := cfg.hash(k) % |b|;
      Matches(b, h, ProbeLen(b, h, 0), Truncate(cfg.hash(k)))
  }

  lemma {:induction false} MatchesGrow<K, V>(b: seq<Bucket<K, V>>, h: nat, d: nat, e: nat, tr: nat)
    requires h < |b| && d <= e <= |b|
    ensures Matches(b, h, d, tr) <= Matches(b, h, e, tr)
  {
    if d < e { MatchesGrow(b, h, d, e - 1, tr); }
  }

  lemma MatchesHas<K, V>(b: seq<Bucket<K, V>>, h: nat, d: nat, e: nat, tr: nat)
    requires h < |b| && d < e <= |b|
    requires var x := b[Adv(h, d, |b|)]; x.Full? && x.hash == tr
    ensures Adv(h, d, |b|) in Matches(b, h, e, tr)
  {
    MatchesGrow(b, h, d + 1, e, tr);
    var r := Matches(b, h, d + 1, tr);
    assert r[|r| - 1] == Adv(h, d, |b|);
    assert Matches(b, h, e, tr)[|r| - 1] == r[|r| - 1];
  }

  lemma {:induction false} MatchesIff<K, V>(b: seq<Bucket<K, V>>, h: nat, d: nat, tr: nat, p: nat)
    requires h < |b| && d <= |b|
    ensures p in Matches(b, h, d, tr) <==>
              exists t: nat :: t < d && Adv(h, t, |b|) == p && b[p].Full? && b[p].hash == tr
    ensures forall i, j :: 0 <= i < j < |Matches(b, h, d, tr)| ==> Matches(b, h, d, tr)[i] != Matches(b, h, d, tr)[j]
    decreases d
  {
    if d > 0 {
      MatchesIff(b, h, d - 1, tr, p);
      MatchesIff(b, h, d - 1, tr, Adv(h, d - 1, |b|));
      var all, last := Matches(b, h, d - 1, tr), Adv(h, d - 1, |b|);
      assert last !in all;
      assert forall i :: 0 <= i < |all| ==> all[i] in all;
    }
  }

  // Probe t of the key gets to bucket p, whose stored hash is the one of the key.
  ghost predicate MatchAt<K, V>(cfg: Config<K>, b: seq<Bucket<K, V>>, k: K, t: nat, p: nat)
    requires |b| > 0
  {
    var h := cfg.hash(k) % |b|;
    && t < |b| && Adv(h, t, |b|) == p && b[p].Full? && b[p].hash == cfg.hash(k) % 0x1_0000_0000
    && forall s :: 0 <= s <= t ==> Dist(b[Adv(h, s, |b|)]) >= s
  }

  /**
    The candidates are the buckets on the probe path whose stored hash is the one of the key, each once.
   */
  lemma CandidateIff<K, V>(cfg: Config<K>, b: seq<Bucket<K, V>>, k: K, p: nat)
    requires |b| > 0
    ensures p in Candidates(cfg, b, k) <==> exists t: nat :: MatchAt(cfg, b, k, t, p)
    ensures var all := Candidates(cfg, b, k); forall i, j :: 0 <= i < j < |all| ==> all[i] != all[j]
  {
    hide Matches;
    var h := cfg.hash(k) % |b|;
    var l := ProbeLen(b, h, 0);
    MatchesIff(b, h, l, Truncate(cfg.hash(k)), p);
    hide ProbeLen;
    if p in Candidates(cfg, b, k) {
      var t: nat :| t < l && Adv(h, t, |b|) == p && b[p].Full? && b[p].hash == Truncate(cfg.hash(k));
      assert MatchAt(cfg, b, k, t, p);
    }
    if exists t: nat :: MatchAt(cfg, b, k, t, p) {
      var t: nat :| MatchAt(cfg, b, k, t, p);
      assert t < l;
    }
  }

  // The bucket of a present key is among the candidates.
  lemma PresentIsCandidate<K(!new), V>(cfg: Config<K>, b: seq<Bucket<K, V>>, k: K, p: nat)
    requires cfg.storeHash && AllPlaced(cfg, b) && Ordered(b)
    requires p < |b| && b[p].Full? && b[p].key == k
    ensures p in Candidates(cfg, b, k)
  {
    var h := cfg.hash(k) % |b|;
    assert Placed(cfg, |b|, b[p], p);
    var d := b[p].dist;
    assert Adv(h, d, |b|) == p;
    var l := ProbeLen(b, h, 0);
    if l <= d { RunBack(b, h, d, l); }
    MatchesHas(b, h, d, l, Truncate(cfg.hash(k)));
  }

  lemma CandidatesInRange<K, V>(cfg: Config<K>, b: seq<Bucket<K, V>>, k: K)
    ensures var all := Candidates(cfg, b, k);
            && (forall p :: p in all ==> p < |b| && b[p].Full?)
            && (forall s :: 0 <= s < |all| ==> all[s] < |b| && b[all[s]].Full?)
  {
    var all := Candidates(cfg, b, k);
    assert forall s :: 0 <= s < |all| ==> all[s] in all;
  }

  // The indices as hash_matches keeps them, an array of int.
  ghost function Kept(all: seq<nat>): (r: seq<int>)
    ensures |r| == |all| && forall j :: 0 <= j < |all| ==> r[j] == ToInt32(all[j])
  {
    seq(|all|, j requires 0 <= j < |all| => ToInt32(all[j]))
  }

  lemma KeptPush(all: seq<nat>, i: nat)
    ensures Kept(all + [i]) == Kept(all) + [ToInt32(i)]
  {}

  /**
    The first loop of find_guaranteed_impl: collect the stored-hash matches, giving up at the
    eighth.
   */
  method Collect<K(!new), V>(cfg: Config<K>, mask: nat, b: seq<Bucket<K, V>>, hash: nat)
    returns (matches: seq<int>, full: bool)
    requires MaskOf(mask, b) && AllPlaced(cfg, b) && |b| > 0
    ensures var h := hash % |b|;
            var all := Matches(b, h, ProbeLen(b, h, 0), Truncate(hash));
            (full <==> |all| >= 8) && (!full ==> matches == Kept(all))
  {
    hide AllPlaced, Matches, ProbeLen, Kept;
    var i := BucketForHash(hash, mask);
    ghost var n, h, tr := |b|, i, Truncate(hash);
    ghost var l := ProbeLen(b, h, 0);
    var d := 0;
    matches, full := [], false;
    MatchesStep(b, h, d, tr);
    NothingKept();
    while d <= Dist(b[i])
      invariant d <= n && i == Adv(h, d, n) && ProbeLen(b, h, d) == l
      invariant matches == Kept(Matches(b, h, d, tr)) && |matches| == |Matches(b, h, d, tr)| < MAX_MATCHES
      decreases n - d
    {
      WithinRing(cfg, b, i);
      MatchesStep(b, h, d, tr);
      if b[i].hash == Truncate(hash) {
        if |matches| >= MAX_MATCHES - 1 {
          MatchesGrow(b, h, d + 1, l, tr);
          full := true;
          return;
        }
        KeptPush(Matches(b, h, d, tr), i);
        matches := matches + [ToInt32(i)];
      }
      AdvNext(h, d, n);
      i := NextIndex(i, mask);
      d := d + 1;
    }
    MatchesStep(b, h, d, tr);
  }

  // One step of the probe, said of both functions.
  lemma MatchesStep<K, V>(b: seq<Bucket<K, V>>, h: nat, d: nat, tr: nat)
    requires h < |b| && d <= |b|
    ensures Matches(b, h, 0, tr) == []
    ensures d == |b| || d > Dist(b[Adv(h, d, |b|)]) ==> ProbeLen(b, h, d) == d
    ensures d < |b| && d <= Dist(b[Adv(h, d, |b|)]) ==>
              && ProbeLen(b, h, d) == ProbeLen(b, h, d + 1) > d
              && Matches(b, h, d + 1, tr) == Matches(b, h, d, tr)
                   + (if b[Adv(h, d, |b|)].hash == tr then [Adv(h, d, |b|)] else [])
  {}

  lemma NothingKept()
    ensures Kept([]) == []
  {}

  // What find_guaranteed comes to: an iterator to a bucket, the end, or a pointer that strays from the
  // occupied buckets.
  datatype Lookup = Hit(pos: nat) | End | Stray

  // The answer of find.
  ghost predicate AsFind<K, V>(b: seq<Bucket<K, V>>, k: K, r: Lookup) {
    match r
    case Hit(p) => p < |b| && b[p].Full? && b[p].key == k
    case End => !HasKey(b, k)
    case Stray => false
  }

  // An index as it was kept names an occupied bucket.
  ghost predicate Readable<K, V>(b: seq<Bucket<K, V>>, i: nat) {
    0 <= ToInt32(i) < |b| && b[ToInt32(i)].Full?
  }

  // The bucket that the kept index names holds the key.
  ghost predicate ReadsKey<K, V>(b: seq<Bucket<K, V>>, i: nat, k: K) {
    Readable(b, i) && b[ToInt32(i)].key == k
  }

  ghost predicate AllReadable<K, V>(b: seq<Bucket<K, V>>, all: seq<nat>) {
    forall s :: 0 <= s < |all| ==> Readable(b, all[s])
  }

  // Match number t reads the key, and those before it read occupied buckets.
  ghost predicate KeyRead<K, V>(b: seq<Bucket<K, V>>, all: seq<nat>, k: K, t: nat) {
    t < |all| && ReadsKey(b, all[t], k) && AllReadable(b, all[..t])
  }

  /**
    What a caller can check before the call.  A single match is trusted; of several, those up to the one
    of the key are read through the index as it was kept; from eight on find does the work.
   */
  ghost predicate AnswersAsFind<K, V>(cfg: Config<K>, b: seq<Bucket<K, V>>, k: K) {
    var all := Candidates(cfg, b, k);
    if |all| >= 8 then true
    else if |all| == 1 then HasKey(b, k) && all[0] < INT_LIMIT
    else if HasKey(b, k) then exists t :: KeyRead(b, all, k, t)
    else AllReadable(b, all)
  }

  /**
    find_guaranteed_impl answers as find does if and only if AnswersAsFind.  A single match is returned
    whatever its key.
   */
  method FindGuaranteed<K(==, !new), V>(cfg: Config<K>, mask: nat, b: seq<Bucket<K, V>>, key: K) returns (r: Lookup)
    requires MaskOf(mask, b) && WellConfigured(cfg) && cfg.lookupHash
    requires AllPlaced(cfg, b) && Ordered(b) && KeysDistinct(b)
    ensures AsFind(b, key, r) <==> AnswersAsFind(cfg, b, key)
    ensures |Candidates(cfg, b, key)| == 1 ==>
              var i := ToInt32(Candidates(cfg, b, key)[0]);
              r == if 0 <= i < |b| then Hit(i) else Stray
  {
    hide AllPlaced, Ordered, Matches, ProbeLen;
    if |b| == 0 {
      return End;
    }
    var matches, full := Collect(cfg, mask, b, cfg.hash(key));
    if full {
      var found, p, _ := Probe(cfg, mask, b, key);
      return if found then Hit(p) else End;
    }
    ghost var all := Candidates(cfg, b, key);
    if |matches| == 1 {
      SingleMatch(cfg, b, key);
      return if 0 <= matches[0] < |b| then Hit(matches[0]) else Stray;
    }
    r := ReadMatches(b, matches, key, all);
  }

  // A present key with a single match is in the bucket of that match.
  lemma SingleMatch<K(!new), V>(cfg: Config<K>, b: seq<Bucket<K, V>>, k: K)
    requires cfg.storeHash && AllPlaced(cfg, b) && Ordered(b) && KeysDistinct(b) && |Candidates(cfg, b, k)| == 1
    ensures var i := ToInt32(Candidates(cfg, b, k)[0]);
            0 <= i < |b| && b[i].Full? && b[i].key == k <==> HasKey(b, k) && Candidates(cfg, b, k)[0] < INT_LIMIT
  {
    hide AllPlaced, Ordered, Matches, ProbeLen;
    if HasKey(b, k) {
      var p :| 0 <= p < |b| && b[p].Full? && b[p].key == k;
      PresentIsCandidate(cfg, b, k, p);
      assert Candidates(cfg, b, k)[0] == p;
    }
  }

  // The second loop: compare the keys of the matches.
  method ReadMatches<K(==, !new), V>(b: seq<Bucket<K, V>>, matches: seq<int>, key: K, ghost all: seq<nat>)
    returns (r: Lookup)
    requires matches == Kept(all)
    ensures AsFind(b, key, r) <==> if HasKey(b, key) then exists t :: KeyRead(b, all, key, t) else AllReadable(b, all)
  {
    hide HasKey;
    for j := 0 to |matches|
      invariant forall s :: 0 <= s < j ==> Readable(b, all[s]) && !ReadsKey(b, all[s], key)
    {
      var i := matches[j];
      if i < 0 || i >= |b| || b[i].Empty? {
        return Stray;
      }
      if b[i].key == key {
        HitHasKey(b, i);
        assert KeyRead(b, all, key, j);
        return Hit(i);
      }
    }
    r := End;
  }

  lemma HitHasKey<K, V>(b: seq<Bucket<K, V>>, i: nat)
    requires i < |b| && b[i].Full?
    ensures HasKey(b, b[i].key)
  {}

  // ---------- the condition for tables of some sizes ----------

  // Among at most 2^32 buckets, every index from 2^31 on is lost.
  lemma LargeIndex<K, V>(b: seq<Bucket<K, V>>, i: nat)
    requires |b| <= 2 * INT_LIMIT && i < |b| && b[i].Full?
    ensures Readable(b, i) <==> i < INT_LIMIT
    ensures i < INT_LIMIT ==> ToInt32(i) == i
  {}

  // No index up to the one of the key is 2^31 or more.
  ghost predicate SmallUpTo<K, V>(b: seq<Bucket<K, V>>, all: seq<nat>, k: K, t: nat)
    requires forall s :: 0 <= s < |all| ==> all[s] < |b| && b[all[s]].Full?
  {
    t < |all| && b[all[t]].key == k && AllSmall(all[..t + 1])
  }

  ghost predicate AllSmall(all: seq<nat>) {
    forall s :: 0 <= s < |all| ==> all[s] < INT_LIMIT
  }

  /**
    With at most 2^32 buckets: find_guaranteed answers as find does if and only if the key is present or
    has not exactly one match, and, up to seven matches, no index that is read or returned is 2^31 or more.
   */
  lemma UpTo32Bits<K(!new), V>(cfg: Config<K>, b: seq<Bucket<K, V>>, k: K)
    requires cfg.storeHash && AllPlaced(cfg, b) && Ordered(b) && KeysDistinct(b) && |b| <= 2 * INT_LIMIT
    ensures var all := Candidates(cfg, b, k);
            AnswersAsFind(cfg, b, k) <==>
              || |all| >= 8
              || (HasKey(b, k) && exists t :: SmallUpTo(b, all, k, t))
              || (!HasKey(b, k) && |all| != 1 && AllSmall(all))
  {
    hide AllPlaced, Ordered, Matches, ProbeLen, Candidates, KeysDistinct, KeyRead, SmallUpTo, HasKey;
    var all := Candidates(cfg, b, k);
    CandidatesInRange(cfg, b, k);
    SmallIsRead(b, all, k);
    if |all| == 1 {
      SingleMatch(cfg, b, k);
      SingleSmall(b, all, k);
    }
  }

  lemma SmallIsRead<K, V>(b: seq<Bucket<K, V>>, all: seq<nat>, k: K)
    requires |b| <= 2 * INT_LIMIT && forall s :: 0 <= s < |all| ==> all[s] < |b| && b[all[s]].Full?
    ensures (exists t :: KeyRead(b, all, k, t)) <==> (exists t :: SmallUpTo(b, all, k, t))
    ensures AllReadable(b, all) <==> AllSmall(all)
  {
    hide Readable;
    forall s | 0 <= s < |all|
      ensures Readable(b, all[s]) <==> all[s] < INT_LIMIT
      ensures all[s] < INT_LIMIT ==> ToInt32(all[s]) == all[s]
    {
      LargeIndex(b, all[s]);
    }
    forall t: nat ensures KeyRead(b, all, k, t) <==> SmallUpTo(b, all, k, t) {
      if t < |all| { assert all[..t + 1] == all[..t] + [all[t]]; }
    }
  }

  // A single match that is small and in the bucket of the key.
  lemma SingleSmall<K, V>(b: seq<Bucket<K, V>>, all: seq<nat>, k: K)
    requires |all| == 1 && all[0] < |b| && b[all[0]].Full?
    ensures (exists t :: SmallUpTo(b, all, k, t)) <==> all[0] < INT_LIMIT && b[all[0]].key == k
  {
    if all[0] < INT_LIMIT && b[all[0]].key == k { assert SmallUpTo(b, all, k, 0); }
    if exists t :: SmallUpTo(b, all, k, t) {
      var t :| SmallUpTo(b, all, k, t);
      assert all[..t + 1][0] == all[0];
    }
  }

  /**
    With at most 2^31 buckets it answers as find does if and only if the key is present or has not
    exactly one match.
   */
  lemma UpTo31Bits<K(!new), V>(cfg: Config<K>, b: seq<Bucket<K, V>>, k: K)
    requires cfg.storeHash && AllPlaced(cfg, b) && Ordered(b) && KeysDistinct(b) && |b| <= INT_LIMIT
    ensures AnswersAsFind(cfg, b, k) <==> HasKey(b, k) || |Candidates(cfg, b, k)| != 1
  {
    hide AllPlaced, Ordered, Matches, ProbeLen, Candidates, KeysDistinct;
    var all := Candidates(cfg, b, k);
    CandidatesInRange(cfg, b, k);
    UpTo32Bits(cfg, b, k);
    assert forall s :: 0 <= s < |all| ==> all[s] in all;
    if HasKey(b, k) {
      var p :| 0 <= p < |b| && b[p].Full? && b[p].key == k;
      PresentIsCandidate(cfg, b, k, p);
      var t :| 0 <= t < |all| && all[t] == p;
      assert SmallUpTo(b, all, k, t);
    }
  }

  lemma WithinRing<K(!new), V>(cfg: Config<K>, b: seq<Bucket<K, V>>, i: nat)
    requires AllPlaced(cfg, b) && i < |b|
    ensures Dist(b[i]) < |b|
  {
    assert Placed(cfg, |b|, b[i], i);
  }
}
