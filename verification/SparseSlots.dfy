/**
  The buckets of the sparse table seen as one flat sequence of slots: what probing with tombstones
  keeps, and how slots stand for a finite map.
 */
module SparseSlots {
  import opened GrowthPolicy
  import opened ProbeSequence
  import opened SparseArray

  datatype Entry<K, V> = Entry(key: K, val: V)

  datatype Config<!K> = Config(hash: K -> nat, probing: Probing)

  ghost function Home<K>(cfg: Config<K>, k: K, n: nat): (h: nat)
    requires n > 0
    ensures h < n
  {
    cfg.hash(k) % n
  }

  // No bucket of the first j probes for a key with home h is free.
  ghost predicate NotFreeBefore<K, V>(cfg: Config<K>, s: seq<Slot<Entry<K, V>>>, h: nat, j: nat)
    requires |s| > 0
  {
    forall t :: 0 <= t < j ==> !s[ProbeAt(cfg.probing, h, t, |s|)].Free?
  }

  /**
    The probe invariant: every bucket probed before a stored key is occupied or a tombstone.
   */
  ghost predicate Reachable<K(!new), V>(cfg: Config<K>, s: seq<Slot<Entry<K, V>>>) {
    IsPow2(|s|) &&
    forall p :: 0 <= p < |s| && s[p].Occ? ==>
      NotFreeBefore(cfg, s, Home(cfg, s[p].val.key, |s|), Steps(cfg.probing, Home(cfg, s[p].val.key, |s|), p, |s|))
  }

  ghost predicate HasKey<K, V>(s: seq<Slot<Entry<K, V>>>, k: K) {
    exists p :: 0 <= p < |s| && s[p].Occ? && s[p].val.key == k
  }

  ghost function NbOcc<T>(s: seq<Slot<T>>): nat {
    if |s| == 0 then 0 else NbOcc(s[..|s| - 1]) + (if s[|s| - 1].Occ? then 1 else 0)
  }

  ghost function NbTomb<T>(s: seq<Slot<T>>): nat {
    if |s| == 0 then 0 else NbTomb(s[..|s| - 1]) + (if s[|s| - 1].Tomb? then 1 else 0)
  }

  ghost predicate KeysDistinct<K, V>(s: seq<Slot<Entry<K, V>>>) {
    forall i, j :: 0 <= i < j < |s| && s[i].Occ? && s[j].Occ? ==> s[i].val.key != s[j].val.key
  }

  lemma KeysDistinctUpdate<K, V>(s: seq<Slot<Entry<K, V>>>, p: nat, x: Slot<Entry<K, V>>)
    requires KeysDistinct(s) && p < |s| && (x.Occ? ==> !HasKey(s, x.val.key))
    ensures KeysDistinct(s[p := x])
  {}

  // The slots are exactly the finite map m.
  ghost predicate Holds<K, V>(s: seq<Slot<Entry<K, V>>>, m: map<K, V>) {
    && KeysDistinct(s)
    && (forall i :: 0 <= i < |s| && s[i].Occ? ==> s[i].val.key in m && m[s[i].val.key] == s[i].val.val)
    && (forall k :: k in m ==> HasKey(s, k))
    && NbOcc(s) == |m|
  }

  lemma {:induction false} CountsUpdate<T>(s: seq<Slot<T>>, i: nat, x: Slot<T>)
    requires i < |s|
    ensures NbOcc(s[i := x]) + (if s[i].Occ? then 1 else 0) == NbOcc(s) + (if x.Occ? then 1 else 0)
    ensures NbTomb(s[i := x]) + (if s[i].Tomb? then 1 else 0) == NbTomb(s) + (if x.Tomb? then 1 else 0)
  {
    var l := |s| - 1;
    if i == l {
      assert s[i := x][..l] == s[..l];
    } else {
      assert s[i := x][..l] == s[..l][i := x];
      CountsUpdate(s[..l], i, x);
    }
  }

  lemma {:induction false} FreeExists<T>(s: seq<Slot<T>>) returns (f: nat)
    requires NbOcc(s) + NbTomb(s) < |s|
    ensures f < |s| && s[f].Free?
  {
    var l := |s| - 1;
    if s[l].Free? { f := l; } else { f := FreeExists(s[..l]); }
  }

  lemma {:induction false} AllFree<T>(s: seq<Slot<T>>)
    requires forall i :: 0 <= i < |s| ==> s[i].Free?
    ensures NbOcc(s) == 0 && NbTomb(s) == 0
  {
    if |s| > 0 { AllFree(s[..|s| - 1]); }
  }

  // A new key in a slot that is free or a tombstone.
  lemma SetHolds<K, V>(s: seq<Slot<Entry<K, V>>>, m: map<K, V>, p: nat, e: Entry<K, V>)
    requires Holds(s, m) && p < |s| && !s[p].Occ? && e.key !in m
    ensures Holds(s[p := Occ(e)], m[e.key := e.val])
  {
    var s', m' := s[p := Occ(e)], m[e.key := e.val];
    HoldsLookup(s, m, e.key);
    KeysDistinctUpdate(s, p, Occ(e));
    hide KeysDistinct, HasKey;
    CountsUpdate(s, p, Occ(e));
    assert m'.Keys == m.Keys + {e.key};
    forall k | k in m' ensures HasKey(s', k) { KeyKept(s, p, Occ(e), k); }
  }

  // A key that is not in slot p is still there after slot p changes.
  lemma KeyKept<K, V>(s: seq<Slot<Entry<K, V>>>, p: nat, x: Slot<Entry<K, V>>, k: K)
    requires p < |s|
    requires (x.Occ? && x.val.key == k) || (HasKey(s, k) && !(s[p].Occ? && s[p].val.key == k))
    ensures HasKey(s[p := x], k)
  {
    var s' := s[p := x];
    if x.Occ? && x.val.key == k {
      assert s'[p].val.key == k;
    } else {
      var j :| 0 <= j < |s| && s[j].Occ? && s[j].val.key == k;
      assert s'[j].val.key == k;
    }
  }

  lemma OthersDiffer<K, V>(s: seq<Slot<Entry<K, V>>>, p: nat)
    requires KeysDistinct(s) && p < |s| && s[p].Occ?
    ensures forall i :: 0 <= i < |s| && i != p && s[i].Occ? ==> s[i].val.key != s[p].val.key
  {}

  lemma EraseHolds<K, V>(s: seq<Slot<Entry<K, V>>>, m: map<K, V>, p: nat)
    requires Holds(s, m) && p < |s| && s[p].Occ?
    ensures s[p].val.key in m && Holds(s[p := Tomb], m - {s[p].val.key})
  {
    var k0 := s[p].val.key;
    var s', m' := s[p := Tomb], m - {k0};
    KeysDistinctUpdate(s, p, Tomb);
    OthersDiffer(s, p);
    hide KeysDistinct;
    CountsUpdate(s, p, Tomb);
    assert m'.Keys == m.Keys - {k0};
    forall k | k in m' ensures HasKey(s', k) { KeyKept(s, p, Tomb, k); }
  }

  lemma AssignHolds<K, V>(s: seq<Slot<Entry<K, V>>>, m: map<K, V>, p: nat, v: V)
    requires Holds(s, m) && p < |s| && s[p].Occ?
    ensures Holds(s[p := Occ(Entry(s[p].val.key, v))], m[s[p].val.key := v])
  {
    hide Holds;
    var k := s[p].val.key;
    EraseHolds(s, m, p);
    SetHolds(s[p := Tomb], m - {k}, p, Entry(k, v));
    assert s[p := Tomb][p := Occ(Entry(k, v))] == s[p := Occ(Entry(k, v))];
    assert (m - {k})[k := v] == m[k := v];
  }

  lemma HoldsLookup<K, V>(s: seq<Slot<Entry<K, V>>>, m: map<K, V>, k: K)
    requires Holds(s, m)
    ensures HasKey(s, k) <==> k in m
    ensures forall i :: 0 <= i < |s| && s[i].Occ? && s[i].val.key == k ==> s[i].val.val == m[k]
  {}

  // A slot that is not free any more, or was never: the probe invariant survives when a new key is
  // itself reachable.
  lemma UpdateReachable<K(!new), V>(cfg: Config<K>, s: seq<Slot<Entry<K, V>>>, p: nat, x: Slot<Entry<K, V>>)
    requires Reachable(cfg, s) && p < |s| && !x.Free?
    requires x.Occ? ==>
               NotFreeBefore(cfg, s, Home(cfg, x.val.key, |s|), Steps(cfg.probing, Home(cfg, x.val.key, |s|), p, |s|))
    ensures Reachable(cfg, s[p := x])
  {
    hide IsPow2, Home, ProbeAt, Steps;
    var s' := s[p := x];
    forall q | 0 <= q < |s'| && s'[q].Occ?
      ensures var h := Home(cfg, s'[q].val.key, |s'|); NotFreeBefore(cfg, s', h, Steps(cfg.probing, h, q, |s'|))
    {
      var h := Home(cfg, s'[q].val.key, |s|);
      assert NotFreeBefore(cfg, s, h, Steps(cfg.probing, h, q, |s|));
    }
  }

  // The key is not in the buckets of the first j probes.
  ghost predicate NotAmong<K, V>(cfg: Config<K>, s: seq<Slot<Entry<K, V>>>, h: nat, k: K, j: nat)
    requires |s| > 0
  {
    forall t :: 0 <= t < j ==> NotKey(s[ProbeAt(cfg.probing, h, t, |s|)], k)
  }

  ghost predicate NotKey<K, V>(x: Slot<Entry<K, V>>, k: K) {
    x.Occ? ==> x.val.key != k
  }

  /**
    A free bucket ends the search: if probe j meets one and the key was not met before, the key is
    nowhere.
   */
  lemma FreeEndsSearch<K(!new), V>(cfg: Config<K>, s: seq<Slot<Entry<K, V>>>, k: K, j: nat)
    requires Reachable(cfg, s) && |s| > 0 && j < |s|
    requires NotAmong(cfg, s, Home(cfg, k, |s|), k, j) && s[ProbeAt(cfg.probing, Home(cfg, k, |s|), j, |s|)].Free?
    ensures !HasKey(s, k)
  {
    hide IsPow2, Home, ProbeAt;
    var h := Home(cfg, k, |s|);
    forall p | 0 <= p < |s| && s[p].Occ? ensures s[p].val.key != k {
      var d := Steps(cfg.probing, h, p, |s|);
      assert s[p].val.key == k ==> NotFreeBefore(cfg, s, h, d);
      assert d < j ==> NotKey(s[ProbeAt(cfg.probing, h, d, |s|)], k);
    }
  }

  // Probing for the key meets it at probe j, and no free bucket before that.
  ghost predicate MetAt<K(!new), V>(cfg: Config<K>, s: seq<Slot<Entry<K, V>>>, k: K, j: nat)
    requires |s| > 0
  {
    var x := s[ProbeAt(cfg.probing, Home(cfg, k, |s|), j, |s|)];
    j < |s| && NotFreeBefore(cfg, s, Home(cfg, k, |s|), j) && x.Occ? && x.val.key == k
  }

  // What the search finds, whether or not every stored key can be reached.
  ghost predicate Met<K(!new), V>(cfg: Config<K>, s: seq<Slot<Entry<K, V>>>, k: K) {
    |s| > 0 && exists j :: MetAt(cfg, s, k, j)
  }

  lemma FreeStopsSearch<K(!new), V>(cfg: Config<K>, s: seq<Slot<Entry<K, V>>>, k: K, j: nat)
    requires |s| > 0 && NotAmong(cfg, s, Home(cfg, k, |s|), k, j)
    requires s[ProbeAt(cfg.probing, Home(cfg, k, |s|), j, |s|)].Free?
    ensures !Met(cfg, s, k)
  {
    hide Home, ProbeAt;
    forall i: nat ensures !MetAt(cfg, s, k, i) {
      assert i < j ==> NotKey(s[ProbeAt(cfg.probing, Home(cfg, k, |s|), i, |s|)], k);
    }
  }

  /**
    Under the probe invariant the search finds exactly the stored keys.
   */
  lemma MetIsStored<K(!new), V>(cfg: Config<K>, s: seq<Slot<Entry<K, V>>>, k: K)
    requires Reachable(cfg, s)
    ensures Met(cfg, s, k) <==> HasKey(s, k)
  {
    hide IsPow2, Home, ProbeAt, Steps;
    if HasKey(s, k) {
      var p :| 0 <= p < |s| && s[p].Occ? && s[p].val.key == k;
      StepsFacts(cfg.probing, Home(cfg, k, |s|), p, |s|);
      assert MetAt(cfg, s, k, Steps(cfg.probing, Home(cfg, k, |s|), p, |s|));
    }
  }

  lemma StepsFacts(probing: Probing, h: nat, p: nat, n: nat)
    requires IsPow2(n) && p < n
    ensures Steps(probing, h, p, n) < n && ProbeAt(probing, h, Steps(probing, h, p, n), n) == p
  {}

  ghost predicate HasFree<T>(s: seq<Slot<T>>) {
    exists f :: 0 <= f < |s| && s[f].Free?
  }

  // The probe from h meets the free bucket f at probe Steps(f), so it has not met it earlier.
  lemma FreeAhead<K(!new), V>(cfg: Config<K>, s: seq<Slot<Entry<K, V>>>, h: nat, f: nat, j: nat)
    requires IsPow2(|s|) && f < |s| && s[f].Free? && NotFreeBefore(cfg, s, h, j)
    ensures j <= Steps(cfg.probing, h, f, |s|)
  {
    hide ProbeAt;
    var d := Steps(cfg.probing, h, f, |s|);
    assert ProbeAt(cfg.probing, h, d, |s|) == f;
  }
}
