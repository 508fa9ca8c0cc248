/**
  The search loops of the sparse table, on its vector of sparse arrays.
 */
module SparseLoops {
  import opened Bits
  import opened GrowthPolicy
  import opened ProbeSequence
  import opened SparseArray
  import opened SparseSlots

  // ibucket >> BUCKET_SHIFT
  function SparseIbucket(ibucket: nat): (r: nat)
    ensures r == ibucket / 64
  {
    ShrIsDiv(ibucket, 6);
    assert Pow2(6) == 64;
    Shr(ibucket, 6)
  }

  // ibucket & BUCKET_MASK
  function IndexInSparseBucket(ibucket: nat): (r: nat)
    ensures r == ibucket % 64
  {
    MaskIsMod(ibucket, 6);
    assert Pow2(6) == 64;
    And(ibucket, 63)
  }

  // How many sparse arrays n buckets take.
  function NbArrays(n: nat): nat {
    if n == 0 then 0 else if n < 64 then 1 else SparseIbucket(n)
  }

  ghost function SlotOf<T>(arrays: seq<Array<T>>, i: nat): Slot<T>
    requires i / 64 < |arrays| && Valid(arrays[i / 64])
  {
    SlotAt(arrays[i / 64], i % 64)
  }

  // The vector of arrays fits n buckets; slots beyond the last bucket are never used.
  ghost predicate Fitted<T>(arrays: seq<Array<T>>, n: nat) {
    && (n > 0 ==> IsPow2(n))
    && |arrays| == NbArrays(n)
    && (forall j :: 0 <= j < |arrays| ==> Valid(arrays[j]))
    && (forall i :: n <= i < 64 * |arrays| ==> SlotOf(arrays, i).Free?)
  }

  lemma FittedRange<T>(arrays: seq<Array<T>>, n: nat, i: nat)
    requires Fitted(arrays, n) && i < n
    ensures i / 64 < |arrays| && n <= 64 * |arrays|
  {
    if n >= 64 { Pow2Multiple(n); }
  }

  lemma Pow2Multiple(n: nat)
    requires IsPow2(n) && n >= 64
    ensures n == 64 * (n / 64)
  {
    var k: nat :| n == Pow2(k);
    assert Pow2(6) == 64;
    Pow2StrictMono(k, 6);
    Pow2Divides(6, k);
  }

  // The buckets, one after the other.
  ghost function Slots<T>(arrays: seq<Array<T>>, n: nat): (s: seq<Slot<T>>)
    requires Fitted(arrays, n)
    ensures |s| == n
    ensures forall i :: 0 <= i < n ==> i / 64 < |arrays| && s[i] == SlotOf(arrays, i)
  {
    assert forall i :: 0 <= i < n ==> i / 64 < |arrays| by {
      forall i | 0 <= i < n ensures i / 64 < |arrays| { FittedRange(arrays, n, i); }
    }
    seq(n, i requires 0 <= i < n => SlotOf(arrays, i))
  }

  // Replacing one array, changing one of its slots, changes that bucket only.
  lemma OneSlotChanges<T>(arrays: seq<Array<T>>, n: nat, i: nat, a: Array<T>, x: Slot<T>)
    requires Fitted(arrays, n) && i < n && i / 64 < |arrays|
    requires Valid(a) && SlotAt(a, i % 64) == x
    requires forall j: nat :: j != i % 64 ==> SlotAt(a, j) == SlotAt(arrays[i / 64], j)
    ensures Fitted(arrays[i / 64 := a], n)
    ensures Slots(arrays[i / 64 := a], n) == Slots(arrays, n)[i := x]
  {
    hide SlotAt, Valid, IsPow2;
    var arrays' := arrays[i / 64 := a];
    forall j | 0 <= j < 64 * |arrays| && j != i ensures SlotOf(arrays', j) == SlotOf(arrays, j) {
      if j / 64 == i / 64 { assert j % 64 != i % 64; }
    }
    var s, s' := Slots(arrays, n), Slots(arrays', n);
    forall j | 0 <= j < n ensures s'[j] == s[i := x][j] {
      FittedRange(arrays, n, j);
    }
  }

  ghost predicate MaskOf(mask: nat, n: nat) {
    IsPow2(mask + 1) && mask == (if n == 0 then 0 else n - 1)
  }

  /**
    The probe loop of find_impl and erase_impl: ends at the bucket of the key, or at a free bucket
    within the first n probes.
   */
  method Seek<K(==, !new), V>(cfg: Config<K>, mask: nat, arrays: seq<Array<Entry<K, V>>>, n: nat, key: K)
    returns (found: bool, ibucket: nat)
    requires Fitted(arrays, n) && MaskOf(mask, n)
    requires n > 0 ==> HasFree(Slots(arrays, n))
    ensures found <==> Met(cfg, Slots(arrays, n), key)
    ensures found ==> ibucket < n && Slots(arrays, n)[ibucket].Occ? && Slots(arrays, n)[ibucket].val.key == key
  {
    hide Slots, ProbeAt, NotFreeBefore, NotAmong, NextBucket, Steps, Fitted, Valid, SlotAt, IsPow2, Met, MetAt,
      NotKey, HasFree;
    ghost var s := Slots(arrays, n);
    SlotsLength(arrays, n);
    ibucket := BucketForHash(cfg.hash(key), mask);
    if n == 0 {
      NothingMet(cfg, s, key);
      return false, 0;
    }
    ghost var h := ibucket;
    ghost var f := FreeBucket(s);
    SearchStart(cfg, s, h, key);
    var probe := 0;
    while true
      invariant ibucket < n && probe < n && ibucket == ProbeAt(cfg.probing, h, probe, n)
      invariant NotFreeBefore(cfg, s, h, probe) && NotAmong(cfg, s, h, key, probe)
      decreases n - probe
    {
      SlotsAt(arrays, n, ibucket);
      var a := arrays[SparseIbucket(ibucket)];
      var index := IndexInSparseBucket(ibucket);
      SlotKind(a, index, key);
      if HasValue(a, index) {
        if Value(a, index).key == key {
          MetHere(cfg, s, key, probe);
          return true, ibucket;
        }
      } else if !HasDeletedValue(a, index) || probe >= n {
        FreeStopsSearch(cfg, s, key, probe);
        return false, ibucket;
      }
      SearchStep(cfg, s, h, f, key, probe);
      NextBucketIsProbe(cfg.probing, h, probe, mask);
      probe := probe + 1;
      ibucket := NextBucket(cfg.probing, ibucket, probe, mask);
    }
  }

  lemma NothingMet<K(!new), V>(cfg: Config<K>, s: seq<Slot<Entry<K, V>>>, k: K)
    requires s == []
    ensures !Met(cfg, s, k) && !HasKey(s, k)
  {}

  lemma MetHere<K(!new), V>(cfg: Config<K>, s: seq<Slot<Entry<K, V>>>, k: K, j: nat)
    requires j < |s| && NotFreeBefore(cfg, s, Home(cfg, k, |s|), j)
    requires var x := s[ProbeAt(cfg.probing, Home(cfg, k, |s|), j, |s|)]; x.Occ? && x.val.key == k
    ensures Met(cfg, s, k)
  {
    assert MetAt(cfg, s, k, j);
  }

  lemma FreeBucket<T>(s: seq<Slot<T>>) returns (f: nat)
    requires HasFree(s)
    ensures f < |s| && s[f].Free?
  {
    f :| f < |s| && s[f].Free?;
  }

  // What the two bitmaps say about a slot.
  lemma SlotKind<K, V>(a: Array<Entry<K, V>>, i: nat, k: K)
    requires Valid(a)
    ensures HasValue(a, i) <==> SlotAt(a, i).Occ?
    ensures !HasValue(a, i) && !HasDeletedValue(a, i) <==> SlotAt(a, i).Free?
    ensures NotKey(SlotAt(a, i), k) <==> (SlotAt(a, i).Occ? ==> SlotAt(a, i).val.key != k)
  {}

  lemma SlotsLength<T>(arrays: seq<Array<T>>, n: nat)
    requires Fitted(arrays, n)
    ensures |Slots(arrays, n)| == n
  {}

  lemma SlotsAt<T>(arrays: seq<Array<T>>, n: nat, i: nat)
    requires Fitted(arrays, n) && i < n
    ensures |Slots(arrays, n)| == n && i / 64 < |arrays| && Valid(arrays[i / 64])
    ensures Slots(arrays, n)[i] == SlotOf(arrays, i)
  {}

  lemma SearchStart<K(!new), V>(cfg: Config<K>, s: seq<Slot<Entry<K, V>>>, h: nat, k: K)
    requires |s| > 0 && h < |s|
    ensures h == ProbeAt(cfg.probing, h, 0, |s|) && NotFreeBefore(cfg, s, h, 0) && NotAmong(cfg, s, h, k, 0)
  {
    ModUnique(h, |s|, 0, h);
  }

  // The search goes on past an occupied bucket or a tombstone; a free bucket is still ahead.
  lemma SearchStep<K(!new), V>(cfg: Config<K>, s: seq<Slot<Entry<K, V>>>, h: nat, f: nat, k: K, j: nat)
    requires IsPow2(|s|) && f < |s| && s[f].Free? && j < |s|
    requires NotFreeBefore(cfg, s, h, j) && NotAmong(cfg, s, h, k, j)
    requires var x := s[ProbeAt(cfg.probing, h, j, |s|)]; !x.Free? && NotKey(x, k)
    ensures NotFreeBefore(cfg, s, h, j + 1) && NotAmong(cfg, s, h, k, j + 1) && j + 1 < |s|
  {
    hide ProbeAt;
    FreeAhead(cfg, s, h, f, j + 1);
  }

  // Bucket p can take a key with home h: every bucket probed before it is in use or a tombstone.
  ghost predicate CanTake<K(!new), V>(cfg: Config<K>, s: seq<Slot<Entry<K, V>>>, h: nat, p: nat)
    requires IsPow2(|s|) && h < |s|
  {
    p < |s| && !s[p].Occ? && NotFreeBefore(cfg, s, h, Steps(cfg.probing, h, p, |s|))
  }

  lemma ProbedCanTake<K(!new), V>(cfg: Config<K>, s: seq<Slot<Entry<K, V>>>, h: nat, j: nat)
    requires IsPow2(|s|) && h < |s| && j < |s| && NotFreeBefore(cfg, s, h, j)
    requires !s[ProbeAt(cfg.probing, h, j, |s|)].Occ?
    ensures CanTake(cfg, s, h, ProbeAt(cfg.probing, h, j, |s|))
  {
    StepsOfProbe(cfg.probing, h, j, |s|);
  }

  // The first j probes for home h all meet a value.
  ghost predicate OccBefore<K(!new), V>(cfg: Config<K>, s: seq<Slot<Entry<K, V>>>, h: nat, j: nat)
    requires |s| > 0
  {
    forall t :: 0 <= t < j ==> s[ProbeAt(cfg.probing, h, t, |s|)].Occ?
  }

  // Bucket p is the first on the probe path of home h without a value: the first tombstone, or the free
  // bucket that ends the path when there is no tombstone before it.
  ghost predicate FirstWithoutValue<K(!new), V>(cfg: Config<K>, s: seq<Slot<Entry<K, V>>>, h: nat, p: nat)
    requires IsPow2(|s|) && h < |s|
  {
    p < |s| && !s[p].Occ? && OccBefore(cfg, s, h, Steps(cfg.probing, h, p, |s|))
  }

  lemma ProbedFirst<K(!new), V>(cfg: Config<K>, s: seq<Slot<Entry<K, V>>>, h: nat, j: nat)
    requires IsPow2(|s|) && h < |s| && j < |s| && OccBefore(cfg, s, h, j)
    requires !s[ProbeAt(cfg.probing, h, j, |s|)].Occ?
    ensures FirstWithoutValue(cfg, s, h, ProbeAt(cfg.probing, h, j, |s|))
  {
    StepsOfProbe(cfg.probing, h, j, |s|);
  }

  lemma OccNone<K(!new), V>(cfg: Config<K>, s: seq<Slot<Entry<K, V>>>, h: nat)
    requires |s| > 0
    ensures OccBefore(cfg, s, h, 0)
  {}

  lemma OccNext<K(!new), V>(cfg: Config<K>, s: seq<Slot<Entry<K, V>>>, h: nat, j: nat)
    requires |s| > 0 && OccBefore(cfg, s, h, j) && s[ProbeAt(cfg.probing, h, j, |s|)].Occ?
    ensures OccBefore(cfg, s, h, j + 1)
  {
    hide ProbeAt;
  }

  /**
    The probe loop of insert_impl.  It remembers the first tombstone but goes on until the key or a
    free bucket is met, so that reusing the tombstone never stores a key twice.
   */
  method SeekForInsert<K(==, !new), V>(cfg: Config<K>, mask: nat, arrays: seq<Array<Entry<K, V>>>, n: nat, key: K)
    returns (found: bool, target: nat, reuse: bool)
    requires Fitted(arrays, n) && MaskOf(mask, n) && n > 0
    requires Reachable(cfg, Slots(arrays, n)) && NbOcc(Slots(arrays, n)) + NbTomb(Slots(arrays, n)) < n
    ensures target < n && (found <==> HasKey(Slots(arrays, n), key))
    ensures found ==> Slots(arrays, n)[target].Occ? && Slots(arrays, n)[target].val.key == key
    ensures !found ==> CanTake(cfg, Slots(arrays, n), Home(cfg, key, n), target)
    ensures !found ==> if reuse then Slots(arrays, n)[target].Tomb? else Slots(arrays, n)[target].Free?
    ensures !found ==> FirstWithoutValue(cfg, Slots(arrays, n), Home(cfg, key, n), target)
  {
    hide Slots, Reachable, NbOcc, NbTomb, ProbeAt, NotFreeBefore, NotAmong, NextBucket, CanTake, Steps, OccBefore,
      FirstWithoutValue;
    ghost var s := Slots(arrays, n);
    SlotsLength(arrays, n);
    var foundFirstDeleted := false;
    var firstDeleted: nat := 0;
    var ibucket := BucketForHash(cfg.hash(key), mask);
    ghost var h := ibucket;
    assert h == Home(cfg, key, n);
    ghost var f := FreeExists(s);
    SearchStart(cfg, s, h, key);
    OccNone(cfg, s, h);
    var probe := 0;
    while true
      invariant ibucket < n && probe < n && ibucket == ProbeAt(cfg.probing, h, probe, n)
      invariant NotFreeBefore(cfg, s, h, probe) && NotAmong(cfg, s, h, key, probe)
      invariant if foundFirstDeleted
                then firstDeleted < n && s[firstDeleted].Tomb? && CanTake(cfg, s, h, firstDeleted)
                     && FirstWithoutValue(cfg, s, h, firstDeleted)
                else OccBefore(cfg, s, h, probe)
      decreases n - probe
    {
      SlotsAt(arrays, n, ibucket);
      var a := arrays[SparseIbucket(ibucket)];
      var index := IndexInSparseBucket(ibucket);
      if HasValue(a, index) {
        if Value(a, index).key == key {
          return true, ibucket, false;
        }
        if !foundFirstDeleted { OccNext(cfg, s, h, probe); }
      } else if HasDeletedValue(a, index) && probe < n {
        if !foundFirstDeleted {
          ProbedCanTake(cfg, s, h, probe);
          ProbedFirst(cfg, s, h, probe);
          foundFirstDeleted, firstDeleted := true, ibucket;
        }
      } else {
        FreeEndsSearch(cfg, s, key, probe);
        ProbedCanTake(cfg, s, h, probe);
        if !foundFirstDeleted { ProbedFirst(cfg, s, h, probe); }
        return false, if foundFirstDeleted then firstDeleted else ibucket, foundFirstDeleted;
      }
      SearchStep(cfg, s, h, f, key, probe);
      NextBucketIsProbe(cfg.probing, h, probe, mask);
      probe := probe + 1;
      ibucket := NextBucket(cfg.probing, ibucket, probe, mask);
    }
  }

  /**
    The probe loop of insert_on_rehash, in a table without tombstones: the first bucket without a
    value.
   */
  method SeekFree<K(!new), V>(cfg: Config<K>, mask: nat, arrays: seq<Array<Entry<K, V>>>, n: nat, key: K)
    returns (target: nat)
    requires Fitted(arrays, n) && MaskOf(mask, n) && n > 0
    requires NbOcc(Slots(arrays, n)) + NbTomb(Slots(arrays, n)) < n
    ensures target < n && CanTake(cfg, Slots(arrays, n), Home(cfg, key, n), target)
    ensures FirstWithoutValue(cfg, Slots(arrays, n), Home(cfg, key, n), target)
  {
    hide Slots, NbOcc, NbTomb, ProbeAt, NotFreeBefore, NextBucket, CanTake, Steps, OccBefore, FirstWithoutValue;
    ghost var s := Slots(arrays, n);
    SlotsLength(arrays, n);
    target := BucketForHash(cfg.hash(key), mask);
    ghost var h := target;
    assert h == Home(cfg, key, n);
    ghost var f := FreeExists(s);
    PassStart(cfg, s, h);
    OccNone(cfg, s, h);
    var probe := 0;
    while true
      invariant target < n && probe < n && target == ProbeAt(cfg.probing, h, probe, n)
      invariant NotFreeBefore(cfg, s, h, probe) && OccBefore(cfg, s, h, probe)
      decreases n - probe
    {
      SlotsAt(arrays, n, target);
      if !HasValue(arrays[SparseIbucket(target)], IndexInSparseBucket(target)) {
        ProbedCanTake(cfg, s, h, probe);
        ProbedFirst(cfg, s, h, probe);
        return;
      }
      OccNext(cfg, s, h, probe);
      PassStep(cfg, s, h, f, probe);
      NextBucketIsProbe(cfg.probing, h, probe, mask);
      probe := probe + 1;
      target := NextBucket(cfg.probing, target, probe, mask);
    }
  }

  lemma PassStart<K(!new), V>(cfg: Config<K>, s: seq<Slot<Entry<K, V>>>, h: nat)
    requires |s| > 0 && h < |s|
    ensures h == ProbeAt(cfg.probing, h, 0, |s|) && NotFreeBefore(cfg, s, h, 0)
  {
    ModUnique(h, |s|, 0, h);
  }

  lemma PassStep<K(!new), V>(cfg: Config<K>, s: seq<Slot<Entry<K, V>>>, h: nat, f: nat, j: nat)
    requires IsPow2(|s|) && f < |s| && s[f].Free? && j < |s|
    requires NotFreeBefore(cfg, s, h, j) && !s[ProbeAt(cfg.probing, h, j, |s|)].Free?
    ensures NotFreeBefore(cfg, s, h, j + 1) && j + 1 < |s|
  {
    hide ProbeAt;
    FreeAhead(cfg, s, h, f, j + 1);
  }
}
