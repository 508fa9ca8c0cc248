/**
  Deserialization of the sparse table with hash_compatible = true: the arrays are taken over as they
  were written instead of inserting their values again.

  A table reads back only if it had no buckets or at least 64, and an array without values loses its
  tombstones on the way.  Which keys are found afterwards is stated exactly.
 */
module SparseCompatible {
  import opened Bits
  import opened GrowthPolicy
  import opened LoadFactor
  import opened RunBounds
  import opened PopCount
  import opened ProbeSequence
  import opened SparseArray
  import opened SparseSlots
  import opened SparseLoops
  import opened SparseLists
  import SparseSerial
  import SparseTable

  type Token<K, V> = SparseSerial.Token<K, V>

  datatype Outcome =
    | Ok(consumed: nat)
    | BadStream          // the deserializer runs out of tokens, or meets one of another type
    | BadVersion | OtherPolicy | BadArrayCount | BadArraySize | BadLoad | LengthError

  // An array without values comes back blank.
  function Kept<T>(a: Array<T>): Array<T> {
    if a.nbElements == 0 then Blank() else a
  }

  function AllKept<T>(arrays: seq<Array<T>>): (r: seq<Array<T>>)
    ensures |r| == |arrays| && forall j :: 0 <= j < |r| ==> r[j] == Kept(arrays[j])
  {
    seq(|arrays|, j requires 0 <= j < |arrays| => Kept(arrays[j]))
  }

  // ---------- what is lost ----------

  // Bucket i lies in an array that holds a value.
  ghost predicate InUse<T>(arrays: seq<Array<T>>, i: nat) {
    i / 64 < |arrays| && arrays[i / 64].nbElements > 0
  }

  lemma KeptSlot<T>(a: Array<T>, i: nat)
    requires Valid(a)
    ensures Valid(Kept(a)) && SlotAt(Kept(a), i) == (if a.nbElements > 0 then SlotAt(a, i) else Free)
    ensures SlotAt(a, i).Occ? ==> a.nbElements > 0
  {
    if Bit(a.vals, i) { RankBelow(a.vals, i); }
  }

  lemma KeptSlots<T>(arrays: seq<Array<T>>, n: nat)
    requires Fitted(arrays, n)
    ensures Fitted(AllKept(arrays), n)
    ensures forall i :: 0 <= i < n ==>
              Slots(AllKept(arrays), n)[i] == if InUse(arrays, i) then Slots(arrays, n)[i] else Free
    ensures forall i :: 0 <= i < n && Slots(arrays, n)[i].Occ? ==> InUse(arrays, i)
  {
    hide SlotAt, Valid, IsPow2, Kept;
    var kept := AllKept(arrays);
    forall j | 0 <= j < |arrays| ensures Valid(kept[j]) { KeptSlot(arrays[j], 0); }
    forall i | 0 <= i < 64 * |arrays|
      ensures SlotOf(kept, i) == (if InUse(arrays, i) then SlotOf(arrays, i) else Free)
      ensures SlotOf(arrays, i).Occ? ==> InUse(arrays, i)
    {
      KeptSlot(arrays[i / 64], i % 64);
    }
    forall i | 0 <= i < n ensures i / 64 < |arrays| && i < 64 * |arrays| { FittedRange(arrays, n, i); }
  }

  // Every bucket probed before the one of key k lies in an array that holds a value.
  ghost predicate PathInUse<K(!new), V>(cfg: Config<K>, arrays: seq<Array<Entry<K, V>>>, n: nat, k: K)
    requires Fitted(arrays, n)
  {
    forall p :: 0 <= p < n && Slots(arrays, n)[p].Occ? && Slots(arrays, n)[p].val.key == k ==>
      InUseBefore(cfg, arrays, n, Home(cfg, k, n), Steps(cfg.probing, Home(cfg, k, n), p, n))
  }

  ghost predicate InUseBefore<K, V>(cfg: Config<K>, arrays: seq<Array<Entry<K, V>>>, n: nat, h: nat, j: nat)
    requires n > 0
  {
    forall t :: 0 <= t < j ==> InUse(arrays, ProbeAt(cfg.probing, h, t, n))
  }

  /**
    In the arrays that are read back, the search finds exactly the keys whose probe path was in use.
   */
  lemma FoundIff<K(!new), V>(cfg: Config<K>, arrays: seq<Array<Entry<K, V>>>, n: nat, m: map<K, V>, tombs: int, k: K)
    requires SparseTable.Sound(cfg, arrays, n, m, tombs) && n > 0
    ensures Fitted(AllKept(arrays), n)
    ensures Met(cfg, Slots(AllKept(arrays), n), k) <==> k in m && PathInUse(cfg, arrays, n, k)
  {
    hide SparseTable.Sound, Slots, Home, ProbeAt, Steps, InUse, Fitted, IsPow2, AllKept;
    SparseTable.SoundFacts(cfg, arrays, n, m, tombs);
    SparseTable.SoundLookup(cfg, arrays, n, m, tombs, k);
    KeptSlots(arrays, n);
    SlotsLength(arrays, n);
    SlotsLength(AllKept(arrays), n);
    var s, s' := Slots(arrays, n), Slots(AllKept(arrays), n);
    if Met(cfg, s', k) {
      var j: nat :| MetAt(cfg, s', k, j);
      MetThenInUse(cfg, arrays, n, s, s', k, j);
      OnePlace(cfg, arrays, n, m, tombs, k, ProbeAt(cfg.probing, Home(cfg, k, n), j, n));
      StepsOfProbe(cfg.probing, Home(cfg, k, n), j, n);
    }
    if k in m && PathInUse(cfg, arrays, n, k) {
      var p :| 0 <= p < n && s[p].Occ? && s[p].val.key == k;
      InUseThenMet(cfg, arrays, n, s, s', k, p);
    }
  }

  // The second table is the first one without the buckets that are not in use.
  ghost predicate Filtered<K, V>(arrays: seq<Array<Entry<K, V>>>, s: seq<Slot<Entry<K, V>>>,
                                 s': seq<Slot<Entry<K, V>>>)
  {
    && |s| == |s'|
    && (forall i :: 0 <= i < |s| ==> s'[i] == if InUse(arrays, i) then s[i] else Free)
    && (forall i :: 0 <= i < |s| && s[i].Occ? ==> InUse(arrays, i))
  }

  lemma MetThenInUse<K(!new), V>(cfg: Config<K>, arrays: seq<Array<Entry<K, V>>>, n: nat, s: seq<Slot<Entry<K, V>>>,
                                 s': seq<Slot<Entry<K, V>>>, k: K, j: nat)
    requires |s| == n > 0 && Filtered(arrays, s, s') && MetAt(cfg, s', k, j)
    ensures InUseBefore(cfg, arrays, n, Home(cfg, k, n), j)
    ensures var x := s[ProbeAt(cfg.probing, Home(cfg, k, n), j, n)]; x.Occ? && x.val.key == k
  {
    hide Home, ProbeAt, InUse;
    forall t | 0 <= t < j ensures InUse(arrays, ProbeAt(cfg.probing, Home(cfg, k, n), t, n)) {
      assert !s'[ProbeAt(cfg.probing, Home(cfg, k, n), t, n)].Free?;
    }
  }

  lemma InUseThenMet<K(!new), V>(cfg: Config<K>, arrays: seq<Array<Entry<K, V>>>, n: nat, s: seq<Slot<Entry<K, V>>>,
                                 s': seq<Slot<Entry<K, V>>>, k: K, p: nat)
    requires |s| == n > 0 && Filtered(arrays, s, s') && Reachable(cfg, s)
    requires p < n && s[p].Occ? && s[p].val.key == k
    requires InUseBefore(cfg, arrays, n, Home(cfg, k, n), Steps(cfg.probing, Home(cfg, k, n), p, n))
    ensures Met(cfg, s', k)
  {
    hide Home, ProbeAt, InUse, Steps, IsPow2;
    var h := Home(cfg, k, n);
    var d := Steps(cfg.probing, h, p, n);
    StepsFacts(cfg.probing, h, p, n);
    assert NotFreeBefore(cfg, s, h, d);
    forall t | 0 <= t < d ensures !s'[ProbeAt(cfg.probing, h, t, n)].Free? {
      assert InUse(arrays, ProbeAt(cfg.probing, h, t, n));
    }
    assert MetAt(cfg, s', k, d);
  }

  lemma OnePlace<K(!new), V>(cfg: Config<K>, arrays: seq<Array<Entry<K, V>>>, n: nat, m: map<K, V>, tombs: int, k: K,
                             p: nat)
    requires SparseTable.Sound(cfg, arrays, n, m, tombs) && p < n
    requires Slots(arrays, n)[p].Occ? && Slots(arrays, n)[p].val.key == k
    ensures k in m
    ensures forall q :: 0 <= q < n && Slots(arrays, n)[q].Occ? && Slots(arrays, n)[q].val.key == k ==> q == p
  {
    hide Slots, Fitted, Reachable, NbOcc, NbTomb, HasKey;
    SlotsLength(arrays, n);
    assert Holds(Slots(arrays, n), m);
  }

  /**
    All keys are found again if and only if all their paths were in use; without tombstones they were.
   */
  lemma NothingLostIff<K(!new), V>(cfg: Config<K>, arrays: seq<Array<Entry<K, V>>>, n: nat, m: map<K, V>, tombs: int)
    requires SparseTable.Sound(cfg, arrays, n, m, tombs) && n > 0
    ensures Fitted(AllKept(arrays), n)
    ensures (forall k :: Met(cfg, Slots(AllKept(arrays), n), k) <==> k in m) <==> AllInUse(cfg, arrays, n, m)
    ensures tombs == 0 ==> AllInUse(cfg, arrays, n, m)
  {
    hide SparseTable.Sound, Slots, Fitted, PathInUse, Met, AllKept;
    KeptFitted(cfg, arrays, n, m, tombs);
    forall k ensures Met(cfg, Slots(AllKept(arrays), n), k) <==> k in m && PathInUse(cfg, arrays, n, k) {
      FoundIff(cfg, arrays, n, m, tombs, k);
    }
    if tombs == 0 {
      forall k | k in m ensures PathInUse(cfg, arrays, n, k) { NoTombsInUse(cfg, arrays, n, m, k); }
    }
  }

  ghost predicate AllInUse<K(!new), V>(cfg: Config<K>, arrays: seq<Array<Entry<K, V>>>, n: nat, m: map<K, V>)
    requires Fitted(arrays, n)
  {
    forall k :: k in m ==> PathInUse(cfg, arrays, n, k)
  }

  lemma KeptFitted<K(!new), V>(cfg: Config<K>, arrays: seq<Array<Entry<K, V>>>, n: nat, m: map<K, V>, tombs: int)
    requires SparseTable.Sound(cfg, arrays, n, m, tombs)
    ensures Fitted(arrays, n) && Fitted(AllKept(arrays), n)
  {
    hide Slots, Holds, Reachable, Fitted, NbTomb;
    KeptSlots(arrays, n);
  }

  // A bucket on the way to a stored key holds a value or a tombstone.
  lemma NoTombsInUse<K(!new), V>(cfg: Config<K>, arrays: seq<Array<Entry<K, V>>>, n: nat, m: map<K, V>, k: K)
    requires SparseTable.Sound(cfg, arrays, n, m, 0) && n > 0
    ensures Fitted(arrays, n) && PathInUse(cfg, arrays, n, k)
  {
    hide SparseTable.Sound, Slots, Home, ProbeAt, Steps, InUse, Fitted, IsPow2, NbTomb;
    SparseTable.SoundFacts(cfg, arrays, n, m, 0);
    KeptSlots(arrays, n);
    SlotsLength(arrays, n);
    var s, h := Slots(arrays, n), Home(cfg, k, n);
    forall p | 0 <= p < n && s[p].Occ? && s[p].val.key == k
      ensures InUseBefore(cfg, arrays, n, h, Steps(cfg.probing, h, p, n))
    {
      var d := Steps(cfg.probing, h, p, n);
      assert NotFreeBefore(cfg, s, h, d);
      forall t | 0 <= t < d ensures InUse(arrays, ProbeAt(cfg.probing, h, t, n)) {
        SparseTable.NoTombs(s, ProbeAt(cfg.probing, h, t, n));
      }
    }
  }

  // A free bucket stays free.
  lemma KeptHasFree<T>(arrays: seq<Array<T>>, n: nat)
    requires Fitted(arrays, n) && HasFree(Slots(arrays, n))
    ensures Fitted(AllKept(arrays), n) && HasFree(Slots(AllKept(arrays), n))
  {
    hide Slots, Fitted, InUse, AllKept;
    KeptSlots(arrays, n);
    SlotsLength(arrays, n);
    SlotsLength(AllKept(arrays), n);
    var f :| 0 <= f < n && Slots(arrays, n)[f].Free?;
    assert Slots(AllKept(arrays), n)[f].Free?;
  }

  // ---------- reading ----------

  // Where a token stream comes from: a table with these arrays, or anywhere.
  datatype Source<K, V> = Anywhere | From(arrays: seq<Array<Entry<K, V>>>, n: nat, m: map<K, V>, tombs: nat, load: real)

  // The stream that Serialize wrote for a valid table.
  ghost predicate FromTable<K, V>(tokens: seq<Token<K, V>>, src: Source<K, V>)
    requires src.From?
  {
    && SparseSerial.Written(tokens, src.arrays, src.m)
    && tokens[..6] == SparseSerial.Header(src.n, |src.arrays|, |src.m|, src.tombs, src.load)
    && 0.1 <= src.load <= 0.8 && Fitted(src.arrays, src.n) && src.n <= MAX_BUCKET_COUNT
    && (src.n == 0 ==> src.arrays == [] && src.m == map[])
  }

  lemma SizeBelow<T>(a: Array<T>)
    requires Valid(a)
    ensures a.nbElements == |a.values| <= 64
  {
    CountIsRank(a.vals, 64);
    RankBelowIndex(a.vals, 64);
  }

  lemma {:induction false} RankBelowIndex(x: nat, i: nat)
    ensures Rank(x, i) <= i
  {
    if i > 0 {
      RankBelowIndex(x, i - 1);
      RankStep(x, i - 1);
    }
  }

  /**
    deserialize_hash_compatible of one array: its bitmaps and values as written, except that an array
    without values comes back blank.
   */
  method ReadArray<K, V>(tokens: seq<Token<K, V>>, start: nat, ghost src: Source<K, V>, ghost i: nat)
    returns (r: Outcome, a: Array<Entry<K, V>>)
    requires src.From? ==> SparseSerial.Written(tokens, src.arrays, src.m) && i < |src.arrays| && Valid(src.arrays[i])
    requires src.From? ==> start == 6 + |SparseSerial.Flatten(src.arrays[..i])|
    ensures src.From? ==> r == Ok(6 + |SparseSerial.Flatten(src.arrays[..i + 1])|) && a == Kept(src.arrays[i])
  {
    hide SparseSerial.Written, SparseSerial.Flatten, Valid;
    if src.From? {
      SparseSerial.WrittenAt(tokens, src.arrays, src.m, i);
      SizeBelow(src.arrays[i]);
    }
    a := Blank();
    if start + 3 > |tokens| || !tokens[start].Num? || !tokens[start + 1].Num? || !tokens[start + 2].Num? {
      return BadStream, a;
    }
    var size := tokens[start].n;
    if size > BITMAP_NB_BITS {
      return BadArraySize, a;
    }
    if size == 0 {
      return Ok(start + 3), a;
    }
    var values := [];
    while |values| < size
      invariant |values| <= size
      invariant src.From? ==> values == src.arrays[i].values[..|values|]
    {
      assert src.From? ==> tokens[start + 3 + |values|] == SparseSerial.Val(src.arrays[i].values[|values|]);
      if start + 3 + |values| >= |tokens| || !tokens[start + 3 + |values|].Val? {
        return BadStream, a;
      }
      values := values + [tokens[start + 3 + |values|].e];
    }
    assert src.From? ==> values == src.arrays[i].values;
    a := Array(tokens[start + 1].n, tokens[start + 2].n, values, size);
    r := Ok(start + 3 + size);
  }

  // What reading a written stream comes to.
  ghost function Expected<K, V>(src: Source<K, V>, length: nat, maxBuckets: nat): Outcome
    requires src.From?
  {
    if src.n == 0 then Ok(length)
    else if src.n < 64 then BadArrayCount
    else if src.n / 64 > maxBuckets then LengthError
    else if !EnoughFor(src.n, src.load, |src.m|) then BadLoad
    else Ok(length)
  }

  /**
    deserialize_impl with hash_compatible = true, into an empty table.  The load thresholds stay those
    of no buckets, since the load factor is set before there are any; so the next insert will rehash.
   */
  method Deserialize<K(==, !new), V>(t: SparseTable.Table<K, V>, tokens: seq<Token<K, V>>, ghost src: Source<K, V>)
    returns (r: Outcome)
    requires t.Valid() && t.bucketCount == 0
    requires src.From? ==> FromTable(tokens, src)
    modifies t
    ensures src.From? ==> r == Expected(src, |tokens|, t.maxBuckets)
    ensures src.From? && r.Ok? ==>
              && t.arrays == AllKept(src.arrays) && t.bucketCount == src.n && MaskOf(t.mask, src.n)
              && t.nbElements == |src.m| && t.maxLoad == src.load
              && (src.n > 0 ==> t.nbDeletedBuckets == src.tombs)
              && t.loadThresholdRehash == t.loadThresholdClearDeleted == 0
              && t.model == src.m && if src.n == 0 then t.Valid() else t.Stale()
  {
    hide t.Valid, t.Stale, SparseSerial.Flatten, Valid, RoundUp, IsPow2, FromTable, SparseSerial.Header, AllKept;
    if src.From? { FromTableFacts(tokens, src); }
    GrowthFacts(t);
    if |tokens| < 1 || !tokens[0].Num? {
      return BadStream;
    }
    if tokens[0].n != SparseSerial.SERIALIZATION_PROTOCOL_VERSION {
      return BadVersion;
    }
    if |tokens| < 6 || !tokens[1].Num? || !tokens[2].Num? || !tokens[3].Num? || !tokens[4].Num? || !tokens[5].Flt? {
      return BadStream;
    }
    var n, nbArrays := tokens[1].n, tokens[2].n;
    t.SetMaxLoad(tokens[5].r);
    NoThresholds(t);
    if n == 0 {
      return Ok(6);
    }
    if n > MAX_BUCKET_COUNT {
      return LengthError;
    }
    t.bucketCount := RoundUpToPowerOfTwo(n);
    t.mask := t.bucketCount - 1;
    if t.bucketCount != n {
      return OtherPolicy;
    }
    var rounded := RoundUpToPowerOfTwo(n);
    if nbArrays != SparseIbucket(rounded) {
      return BadArrayCount;
    }
    t.nbElements, t.nbDeletedBuckets := tokens[3].n, tokens[4].n;
    if nbArrays > t.maxBuckets {
      return LengthError;
    }
    var read, arrays := ReadArrays(tokens, nbArrays, src);
    if !read.Ok? {
      return read;
    }
    t.arrays := arrays;
    if t.nbElements as real > n as real * t.maxLoad {
      return BadLoad;
    }
    if src.From? {
      t.model := src.m;
      NowStale(t, tokens, src);
    }
    return read;
  }

  lemma GrowthFacts<K(!new), V>(t: SparseTable.Table<K, V>)
    requires t.Valid()
    ensures IsPow2(t.growthFactor) && t.growthFactor >= 2 && t.maxBuckets <= MAX_BUCKET_COUNT
    ensures t.bucketCount == 0 ==> t.model == map[]
  {
    hide SparseTable.Sound, IsPow2;
  }

  lemma NowStale<K(!new), V>(t: SparseTable.Table<K, V>, tokens: seq<Token<K, V>>, src: Source<K, V>)
    requires src.From? && FromTable(tokens, src) && src.n > 0 && EnoughFor(src.n, src.load, |src.m|)
    requires IsPow2(t.growthFactor) && t.growthFactor >= 2 && t.maxBuckets <= MAX_BUCKET_COUNT
    requires t.arrays == AllKept(src.arrays) && t.bucketCount == src.n && MaskOf(t.mask, src.n) && t.maxLoad == src.load
    requires t.model == src.m && t.nbElements == |src.m| && t.loadThresholdRehash == 0
    ensures t.Stale()
  {
    hide Lists, Values, Fitted, SparseSerial.Written, IsPow2, AllKept, MaskOf;
    StillListed(tokens, src);
    BelowCount(|src.m|, src.n, src.load);
  }

  lemma BelowCount(size: nat, n: nat, load: real)
    requires n > 0 && load <= 0.8 && size as real <= n as real * load
    ensures size < n
  {
    MulMonoReal(load, 0.8, n as real);
  }

  // Blank arrays had no values, so the values are the same.
  lemma {:induction false} KeptValues<T>(arrays: seq<Array<T>>)
    requires forall j :: 0 <= j < |arrays| ==> Valid(arrays[j])
    ensures Values(AllKept(arrays)) == Values(arrays)
  {
    hide Valid;
    if arrays != [] {
      var l := |arrays| - 1;
      KeptValues(arrays[..l]);
      assert AllKept(arrays)[..l] == AllKept(arrays[..l]);
      SizeBelow(arrays[l]);
    }
  }

  lemma StillListed<K, V>(tokens: seq<Token<K, V>>, src: Source<K, V>)
    requires src.From? && FromTable(tokens, src)
    ensures Lists(Values(AllKept(src.arrays)), src.m)
  {
    hide Lists, Valid, Values, AllKept;
    KeptValues(src.arrays);
  }

  // The loop over the arrays.
  method ReadArrays<K, V>(tokens: seq<Token<K, V>>, nbArrays: nat, ghost src: Source<K, V>)
    returns (r: Outcome, arrays: seq<Array<Entry<K, V>>>)
    requires src.From? ==> FromTable(tokens, src) && nbArrays == |src.arrays|
    ensures src.From? ==> r == Ok(|tokens|) && arrays == AllKept(src.arrays)
  {
    hide SparseSerial.Written, SparseSerial.Flatten, Valid, Fitted, IsPow2, Kept;
    if src.From? { FromTableFacts(tokens, src); }
    var pos := 6;
    arrays := [];
    for i := 0 to nbArrays
      invariant |arrays| == i
      invariant src.From? ==> pos == 6 + |SparseSerial.Flatten(src.arrays[..i])|
      invariant src.From? ==> forall j :: 0 <= j < i ==> arrays[j] == Kept(src.arrays[j])
    {
      var read, a := ReadArray(tokens, pos, src, i);
      if !read.Ok? {
        return read, arrays;
      }
      pos := read.consumed;
      arrays := arrays + [a];
    }
    if src.From? { assert src.arrays[..nbArrays] == src.arrays; }
    r := Ok(pos);
  }

  lemma FromTableFacts<K, V>(tokens: seq<Token<K, V>>, src: Source<K, V>)
    requires src.From? && FromTable(tokens, src)
    ensures |tokens| == 6 + |SparseSerial.Flatten(src.arrays)|
    ensures tokens[..6] == SparseSerial.Header(src.n, |src.arrays|, |src.m|, src.tombs, src.load)
    ensures tokens[0] == SparseSerial.Num(SparseSerial.SERIALIZATION_PROTOCOL_VERSION)
    ensures tokens[1] == SparseSerial.Num(src.n) && tokens[2] == SparseSerial.Num(|src.arrays|)
    ensures tokens[3] == SparseSerial.Num(|src.m|)
    ensures tokens[4] == SparseSerial.Num(src.tombs) && tokens[5] == SparseSerial.Flt(src.load)
    ensures 0.1 <= src.load <= 0.8 && src.n <= MAX_BUCKET_COUNT && (src.n == 0 ==> src.arrays == [] && |src.m| == 0)
    ensures src.n > 0 ==> IsPow2(src.n) && RoundUp(src.n) == src.n
    ensures 0 < src.n < 64 ==> |src.arrays| == 1
    ensures src.n == 0 || src.n >= 64 ==> |src.arrays| == src.n / 64
    ensures forall j :: 0 <= j < |src.arrays| ==> Valid(src.arrays[j])
    ensures src.arrays[..0] == [] && |SparseSerial.Flatten(src.arrays[..0])| == 0
  {
    hide Valid, SlotAt, Lists;
    var t := tokens[..6];
    assert tokens[0] == t[0] && tokens[1] == t[1] && tokens[2] == t[2] && tokens[3] == t[3] && tokens[4] == t[4];
    assert tokens[5] == t[5];
    if src.n > 0 { RoundUpOfPow2(src.n); }
  }

  // A table without buckets has no arrays, no elements and nothing to divide the load by.
  lemma NoThresholds<K(!new), V>(t: SparseTable.Table<K, V>)
    requires t.Valid() && t.bucketCount == 0
    ensures t.arrays == [] && t.nbElements == 0 && MaskOf(t.mask, 0)
    ensures t.loadThresholdRehash == t.loadThresholdClearDeleted == 0
  {
    hide Slots, Holds, Reachable, SparseTable.WithDeleted, IsPow2;
  }

  /**
    The round trip with hash_compatible = true.  It fails for every table of 1 to 63 buckets, and for
    one that holds more than its load factor allows.  Otherwise the search finds exactly the keys whose
    probe path was in use, with their values; those are all keys if and only if all paths were in use.
   */
  method RoundTrip<K(==, !new), V>(src: SparseTable.Table<K, V>, dst: SparseTable.Table<K, V>)
    returns (tokens: seq<Token<K, V>>, r: Outcome)
    requires src.Valid() && dst.Valid() && dst.bucketCount == 0 && src != dst && src.cfg == dst.cfg
    modifies dst
    ensures tokens == SparseSerial.Stream(src)
    ensures Fitted(src.arrays, src.bucketCount)
    ensures r == Expected(SourceOf(src), |tokens|, dst.maxBuckets)
    ensures 0 < src.bucketCount < 64 ==> r == BadArrayCount
    ensures src.bucketCount == 0 ==> r == Ok(|tokens|)
    ensures src.bucketCount >= 64 && src.bucketCount <= dst.maxBuckets ==>
              r == if |src.model| as real > src.bucketCount as real * src.maxLoad then BadLoad else Ok(|tokens|)
    ensures r.Ok? ==> dst.bucketCount == src.bucketCount && MaskOf(dst.mask, dst.bucketCount) && dst.model == src.model
    ensures r.Ok? ==> ReadBack(src.cfg, src.arrays, src.bucketCount, src.model, dst.arrays)
    ensures r.Ok? ==> if src.bucketCount == 0 then dst.Valid() else dst.Stale()
    ensures r.Ok? && src.bucketCount > 0 ==>
              ((forall k :: Met(dst.cfg, Slots(dst.arrays, dst.bucketCount), k) <==> k in src.model)
               <==> AllInUse(src.cfg, src.arrays, src.bucketCount, src.model))
  {
    hide SparseTable.Sound, SparseTable.Thresholds, SparseSerial.Stream, SparseSerial.Written, Values, Lists,
      Fitted, Slots, ReadBack, AllInUse, Met, AllKept;
    tokens := SparseSerial.Serialize(src);
    SerializedFrom(src, tokens);
    r := Deserialize(dst, tokens, SourceOf(src));
    if r.Ok? {
      ReadBackHolds(src.cfg, src.arrays, src.bucketCount, src.model, src.nbDeletedBuckets);
      if src.bucketCount > 0 {
        NothingLostIff(src.cfg, src.arrays, src.bucketCount, src.model, src.nbDeletedBuckets);
      }
    }
  }

  ghost function SourceOf<K(!new), V>(t: SparseTable.Table<K, V>): (src: Source<K, V>)
    reads t
    ensures src.From?
  {
    From(t.arrays, t.bucketCount, t.model, t.nbDeletedBuckets, t.maxLoad)
  }

  /**
    find on a table that was read back: the key is found, with its value, exactly when it was stored and
    every array on its probe path held a value.
   */
  method FindReadBack<K(==, !new), V>(t: SparseTable.Table<K, V>, key: K, ghost arrays: seq<Array<Entry<K, V>>>,
                                      ghost m: map<K, V>)
    returns (found: bool, ibucket: nat)
    requires Fitted(arrays, t.bucketCount) && MaskOf(t.mask, t.bucketCount)
    requires ReadBack(t.cfg, arrays, t.bucketCount, m, t.arrays)
    ensures found <==> key in m && PathInUse(t.cfg, arrays, t.bucketCount, key)
    ensures found ==> Fitted(t.arrays, t.bucketCount) && ibucket < t.bucketCount
    ensures found ==> Slots(t.arrays, t.bucketCount)[ibucket] == Occ(Entry(key, m[key]))
  {
    hide Fitted, Slots, Met, PathInUse, HasFree, MaskOf;
    SlotsLength(t.arrays, t.bucketCount);
    found, ibucket := Seek(t.cfg, t.mask, t.arrays, t.bucketCount, key);
  }

  /**
    The first insert after such a read rehashes the table, and brings back the keys that could not be found:
    it ends in a valid table that stands for what was written, and the new key.
   */
  method ReadThenInsert<K(==, !new), V>(src: SparseTable.Table<K, V>, dst: SparseTable.Table<K, V>, key: K, val: V)
    returns (tokens: seq<Token<K, V>>, r: Outcome, ins: SparseTable.InsertResult)
    requires src.Valid() && dst.Valid() && dst.bucketCount == 0 && src != dst && src.cfg == dst.cfg
    modifies dst
    ensures tokens == SparseSerial.Stream(src)
    ensures r == Expected(SourceOf(src), |tokens|, dst.maxBuckets)
    ensures r.Ok? ==> (ins.LengthError? <==> TooMany(NextCount(dst.growthFactor, src.bucketCount), dst.maxBuckets))
    ensures r.Ok? && !ins.LengthError? ==>
              && dst.Valid() && (ins.Present? <==> key in src.model)
              && dst.model == if ins.Present? then src.model else src.model[key := val]
  {
    hide src.Valid, dst.Valid, dst.Listed, ReadBack, AllInUse, Met, Slots, Fitted, TooMany, Expected,
      SparseSerial.Stream, IsPow2;
    tokens, r := RoundTrip(src, dst);
    ins := SparseTable.LengthError;
    if r.Ok? {
      NextIs(dst);
      ins := dst.Insert(key, val);
    }
  }

  // The first insert into a table without buckets, or one that was just read back, asks for more.
  lemma NextIs<K(!new), V>(t: SparseTable.Table<K, V>)
    requires if t.bucketCount == 0 then t.Valid() else t.Stale()
    ensures t.GrowthFails() <==> TooMany(NextCount(t.growthFactor, t.bucketCount), t.maxBuckets)
  {
    hide t.Valid, t.Stale, TooMany, MaskOf;
    ZeroThreshold(t);
    Commutes(t.mask + 1, t.growthFactor);
  }

  lemma ZeroThreshold<K(!new), V>(t: SparseTable.Table<K, V>)
    requires if t.bucketCount == 0 then t.Valid() else t.Stale()
    ensures t.loadThresholdRehash == 0 && t.mask + 1 == if t.bucketCount == 0 then 1 else t.bucketCount
  {
    hide SparseTable.Sound, t.Listed, t.Valid, IsPow2;
    if t.bucketCount == 0 { NoThresholds(t); }
  }

  lemma Commutes(x: nat, y: nat)
    ensures x * y == y * x
  {}

  // The arrays that were read back fit, have a free bucket to end every search, and hold keys of the
  // map with their values; the search finds those whose path was in use.
  ghost predicate ReadBack<K(!new), V>(cfg: Config<K>, arrays: seq<Array<Entry<K, V>>>, n: nat, m: map<K, V>,
                                       arrays': seq<Array<Entry<K, V>>>)
    requires Fitted(arrays, n)
  {
    && Fitted(arrays', n) && (n > 0 ==> HasFree(Slots(arrays', n)))
    && (forall p :: 0 <= p < n && Slots(arrays', n)[p].Occ? ==>
          Slots(arrays', n)[p].val.key in m && m[Slots(arrays', n)[p].val.key] == Slots(arrays', n)[p].val.val)
    && (forall k :: Met(cfg, Slots(arrays', n), k) <==> k in m && PathInUse(cfg, arrays, n, k))
  }

  lemma ReadBackHolds<K(!new), V>(cfg: Config<K>, arrays: seq<Array<Entry<K, V>>>, n: nat, m: map<K, V>, tombs: nat)
    requires SparseTable.Sound(cfg, arrays, n, m, tombs) && (|m| + tombs < n || n == 0)
    ensures Fitted(arrays, n) && ReadBack(cfg, arrays, n, m, AllKept(arrays))
  {
    hide SparseTable.Sound, Slots, Fitted, PathInUse, Met, AllKept, HasFree, InUse;
    SparseTable.SoundFacts(cfg, arrays, n, m, tombs);
    KeptSlots(arrays, n);
    SlotsLength(arrays, n);
    SlotsLength(AllKept(arrays), n);
    forall k ensures Met(cfg, Slots(AllKept(arrays), n), k) <==> k in m && PathInUse(cfg, arrays, n, k) {
      SparseTable.SoundLookup(cfg, arrays, n, m, tombs, k);
      SparseTable.SoundSearch(cfg, arrays, n, m, tombs, k);
      if n > 0 { FoundIff(cfg, arrays, n, m, tombs, k); } else { NothingMet(cfg, Slots(AllKept(arrays), n), k); }
    }
    forall p | 0 <= p < n && Slots(AllKept(arrays), n)[p].Occ?
      ensures var e := Slots(AllKept(arrays), n)[p].val; e.key in m && m[e.key] == e.val
    {
      var k := Slots(arrays, n)[p].val.key;
      SparseTable.SoundLookup(cfg, arrays, n, m, tombs, k);
    }
    if n > 0 {
      SomeFree(cfg, arrays, n, m, tombs);
      KeptHasFree(arrays, n);
    }
  }

  lemma SomeFree<K(!new), V>(cfg: Config<K>, arrays: seq<Array<Entry<K, V>>>, n: nat, m: map<K, V>, tombs: nat)
    requires SparseTable.Sound(cfg, arrays, n, m, tombs) && |m| + tombs < n
    ensures Fitted(arrays, n) && HasFree(Slots(arrays, n))
  {
    hide SparseTable.Sound, Slots, Fitted;
    SparseTable.SoundFacts(cfg, arrays, n, m, tombs);
    SlotsLength(arrays, n);
    var _ := FreeExists(Slots(arrays, n));
  }

  lemma SerializedFrom<K(!new), V>(t: SparseTable.Table<K, V>, tokens: seq<Token<K, V>>)
    requires t.Valid()
    requires tokens == SparseSerial.Stream(t)
    ensures FromTable(tokens, SourceOf(t))
  {
    hide SparseSerial.Written, SparseSerial.Flatten, Slots, Values, Lists, Reachable, SparseTable.Thresholds;
    SparseSerial.SerializedWritten(t, tokens);
    SparseTable.SoundFacts(t.cfg, t.arrays, t.bucketCount, t.model, t.nbDeletedBuckets);
    assert tokens[..6] == SparseSerial.Header(t.bucketCount, |t.arrays|, t.nbElements, t.nbDeletedBuckets, t.maxLoad);
  }

  // ---------- a key that is lost ----------

  // Keys 1 and 2 with home 63 were inserted into 128 buckets, and key 1 was erased.
  const ERASED: seq<Array<Entry<int, int>>> := [Array(0, SetBit(0, 63), [], 0), Array(1, 0, [Entry(2, 20)], 1)]

  lemma FirstErased(i: nat)
    ensures Valid(ERASED[0]) && SlotAt(ERASED[0], i) == if i == 63 then Tomb else Free
  {
    forall j: nat ensures !Bit(0, j) { ZeroBits(j); }
  }

  lemma SecondErased(i: nat)
    ensures Valid(ERASED[1]) && SlotAt(ERASED[1], i) == if i == 0 then Occ(Entry(2, 20)) else Free
  {
    forall j: nat ensures !Bit(0, j) { ZeroBits(j); }
    forall j: nat ensures Bit(1, j) <==> j == 0 { if j > 0 { ZeroBits(j - 1); } }
    assert Rank(1, 0) == 0 && Count(1) == 1;
  }

  // The buckets of ERASED: all free but two.
  ghost function ErasedBuckets(): (s: seq<Slot<Entry<int, int>>>) {
    seq(128, _ => Free)[63 := Tomb][64 := Occ(Entry(2, 20))]
  }

  lemma ErasedSlots()
    ensures Fitted(ERASED, 128) && Slots(ERASED, 128) == ErasedBuckets()
  {
    hide Valid, SlotAt, Slots;
    Is128();
    FirstErased(0);
    SecondErased(0);
    forall i: nat | i < 128 ensures SlotOf(ERASED, i) == ErasedBuckets()[i] {
      FirstErased(i % 64);
      SecondErased(i % 64);
    }
    SlotsLength(ERASED, 128);
    forall i: nat | i < 128 ensures Slots(ERASED, 128)[i] == ErasedBuckets()[i] {
      SlotsAt(ERASED, 128, i);
    }
  }

  lemma Is128()
    ensures IsPow2(128)
  {
    assert Pow2(7) == 128;
  }

  // The two slots were filled one after the other.
  lemma ErasedSound(cfg: Config<int>)
    requires cfg == Config((k: int) => 63, Linear)
    ensures SparseTable.Sound(cfg, ERASED, 128, map[2 := 20], 1)
  {
    hide Slots, Fitted, Reachable, Holds, NbTomb, NbOcc, IsPow2, Steps, ProbeAt, Home, NotFreeBefore;
    ErasedSlots();
    Is128();
    EmptyBuckets(cfg);
    var s0: seq<Slot<Entry<int, int>>> := seq(128, _ => Free);
    var s1 := s0[63 := Tomb];
    UpdateReachable(cfg, s0, 63, Tomb);
    CountsUpdate(s0, 63, Tomb);
    TombHolds(s0, 63);
    SecondReached(cfg, s1);
    UpdateReachable(cfg, s1, 64, Occ(Entry(2, 20)));
    CountsUpdate(s1, 64, Occ(Entry(2, 20)));
    SetHolds(s1, map[], 64, Entry(2, 20));
    assert Slots(ERASED, 128) == s1[64 := Occ(Entry(2, 20))];
  }

  lemma EmptyBuckets(cfg: Config<int>)
    ensures var s: seq<Slot<Entry<int, int>>> := seq(128, _ => Free);
            Reachable(cfg, s) && Holds(s, map[]) && NbTomb(s) == 0
  {
    hide ProbeAt, Steps, Home;
    Is128();
    AllFree<Entry<int, int>>(seq(128, _ => Free));
  }

  lemma TombHolds(s: seq<Slot<Entry<int, int>>>, p: nat)
    requires Holds(s, map[]) && p < |s| && s[p].Free?
    ensures Holds(s[p := Tomb], map[])
  {
    CountsUpdate(s, p, Tomb);
  }

  lemma SecondReached(cfg: Config<int>, s: seq<Slot<Entry<int, int>>>)
    requires cfg == Config((k: int) => 63, Linear) && |s| == 128 && s[63].Tomb?
    ensures IsPow2(128) && Home(cfg, 2, 128) == 63 && Steps(Linear, 63, 64, 128) == 1
    ensures ProbeAt(Linear, 63, 0, 128) == 63
    ensures NotFreeBefore(cfg, s, 63, 1)
  {
    Is128();
    hide IsPow2, Steps;
    StepsOfProbe(Linear, 63, 1, 128);
  }

  lemma ErasedPath(cfg: Config<int>)
    requires cfg == Config((k: int) => 63, Linear)
    ensures Fitted(ERASED, 128) && !AllInUse(cfg, ERASED, 128, map[2 := 20])
  {
    hide Fitted, Slots, IsPow2, Home, Steps, ProbeAt;
    ErasedSlots();
    SecondReached(cfg, ErasedBuckets());
    assert Slots(ERASED, 128)[64] == Occ(Entry(2, 20));
    assert !InUse(ERASED, 63);
    assert !InUseBefore(cfg, ERASED, 128, 63, 1);
    assert !PathInUse(cfg, ERASED, 128, 2);
  }

  /**
    A valid table that is read back without error and in which key 2 is not found any more: its path
    starts at the tombstone of the first array, which holds no value.
   */
  lemma CanLoseKeys()
    ensures var cfg := Config((k: int) => 63, Linear);
            && SparseTable.Sound(cfg, ERASED, 128, map[2 := 20], 1)
            && !AllInUse(cfg, ERASED, 128, map[2 := 20])
            && EnoughFor(128, 0.5, 1)
  {
    hide SparseTable.Sound, AllInUse;
    var cfg := Config((k: int) => 63, Linear);
    ErasedSlots();
    ErasedSound(cfg);
    ErasedPath(cfg);
  }
}
