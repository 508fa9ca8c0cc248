/**
  Whole runs of the hopscotch table.
 */
module HopscotchRuns {
  import opened Bits
  import opened GrowthPolicy
  import opened LoadFactor
  import opened Options
  import opened MapRuns
  import opened RunBounds
  import opened MapCells
  import opened HopscotchBuckets
  import opened HopscotchLoops
  import opened HopscotchSteps
  import HopscotchTable

  // What decides, besides the finite map, whether a table refuses an operation at once.
  datatype View = View(maxLoad: real, growthFails: bool)

  ghost predicate ViewOk(v: View) {
    0.1 <= v.maxLoad <= 0.95
  }

  ghost function ViewOf<K(!new), V>(t: HopscotchTable.Table<K, V>): View
    reads t
  {
    View(t.maxLoad, t.GrowthFails())
  }

  // The operation throws length_error before it does anything.
  ghost predicate MustRefuse<K, V>(maxBuckets: nat, v: View, m: map<K, V>, op: Op<K, V>)
    requires ViewOk(v)
  {
    match op
    case Insert(k, _) => k !in m && v.growthFails
    case InsertOrAssign(k, _) => k !in m && v.growthFails
    case Rehash(count) => TooMany(Least(count, |m|, v.maxLoad), maxBuckets)
    case Reserve(count) => TooMany(Least(BucketsFor(count, v.maxLoad), |m|, v.maxLoad), maxBuckets)
    case _ => false
  }

  // The operation may throw length_error: it does so at once, or a rehash on the way may ask for more
  // buckets than there can be, of which the number of elements is the only cause.
  ghost predicate MayRefuse<K, V>(growthFactor: nat, maxBuckets: nat, v: View, m: map<K, V>, op: Op<K, V>)
    requires ViewOk(v)
  {
    match op
    case Insert(k, _) => k !in m && NoRoom(growthFactor, |m| + 1, maxBuckets)
    case InsertOrAssign(k, _) => k !in m && NoRoom(growthFactor, |m| + 1, maxBuckets)
    case Rehash(count) => MustRefuse(maxBuckets, v, m, op) || NoRoom(growthFactor, |m|, maxBuckets)
    case Reserve(count) => MustRefuse(maxBuckets, v, m, op) || NoRoom(growthFactor, |m|, maxBuckets)
    case _ => false
  }

  ghost predicate NoRoom(growthFactor: nat, size: nat, maxBuckets: nat) {
    growthFactor * (10 * size + 9) > maxBuckets
  }

  // One step of a run.
  ghost predicate StepOk<K, V>(growthFactor: nat, maxBuckets: nat, v: View, m: map<K, V>, op: Op<K, V>, refused: bool,
                               v': View)
  {
    && ViewOk(v)
    && (MustRefuse(maxBuckets, v, m, op) ==> refused)
    && (refused ==> MayRefuse(growthFactor, maxBuckets, v, m, op))
    && v'.maxLoad == if op.SetMaxLoad? then Clamp(op.factor, 0.1, 0.95) else v.maxLoad
  }

  ghost function Steps<K, V>(growthFactor: nat, maxBuckets: nat): (View, map<K, V>, Op<K, V>, bool, View) -> bool {
    (v, m, op, refused, v') => StepOk(growthFactor, maxBuckets, v, m, op, refused, v')
  }

  lemma Agree<K(!new), V>(t: HopscotchTable.Table<K, V>)
    requires t.Valid()
    ensures ViewOk(ViewOf(t)) && t.nbElements == |t.model|
    ensures forall c: nat :: t.RehashCount(c) == Least(c, |t.model|, t.maxLoad)
    ensures forall s: nat :: t.Growth(s) > t.maxBuckets <==> NoRoom(t.growthFactor, s, t.maxBuckets)
  {
    hide Sound, Threshold, BucketsFor, HopscotchTable.Thresholds, IsPow2;
  }

  method Do<K(==, !new), V>(t: HopscotchTable.Table<K, V>, op: Op<K, V>)
    returns (s: HopscotchTable.Status, a: Answer<V>)
    requires t.Valid()
    modifies t
    ensures StepOk(t.growthFactor, t.maxBuckets, old(ViewOf(t)), old(t.model), op, !s.Done?, ViewOf(t))
    ensures a == if s.Done? then Expected(old(t.model), op) else LengthError
    ensures s.Done? ==> t.Valid() && t.model == After(old(t.model), op)
    ensures s.LengthError? ==> t.Valid() && t.model == old(t.model)
    ensures MustRefuse(t.maxBuckets, old(ViewOf(t)), old(t.model), op) ==> s.LengthError? && unchanged(t)
  {
    hide t.Valid, TooMany, BucketsFor, Least, t.RehashCount, t.GrowthFails, t.MayGrow, t.Growth, NoRoom;
    Agree(t);
    s := HopscotchTable.Done;
    match op
    case Insert(k, v) =>
      var pos, inserted;
      s, pos, inserted := t.Insert(k, v);
      a := if !s.Done? then LengthError else if inserted then Added else AlreadyThere;
    case InsertOrAssign(k, v) =>
      var inserted;
      s, inserted := t.InsertOrAssign(k, v);
      a := if !s.Done? then LengthError else if inserted then Added else AlreadyThere;
    case Erase(k) =>
      var n := t.EraseKey(k);
      a := NbErased(n);
    case EraseAt(k) =>
      var pos := t.Find(k);
      if !pos.End? {
        t.EraseAt(pos, k);
      }
      a := NbErased(if pos.End? then 0 else 1);
    case Find(k) =>
      var pos := t.Find(k);
      a := Found(match pos
                 case InBucket(p) => Some(t.buckets[p].slot.entry.val)
                 case InOverflow(p) => Some(t.overflow[p].val)
                 case End => None);
    case Clear =>
      t.Clear();
      a := Done;
    case Rehash(n) =>
      s := t.Rehash(n);
      a := if s.Done? then Done else LengthError;
    case Reserve(n) =>
      s := t.Reserve(n);
      a := if s.Done? then Done else LengthError;
    case SetMaxLoad(f) =>
      t.SetMaxLoad(f);
      a := Done;
  }

  /**
    Every run on a valid table answers as the finite map does, except for the operations that end in a
    length error, and the trace of views says which must and which may.  Unless a rehash was interrupted,
    which ends the run, the table is valid at the end and stands for the finite map.
   */
  method Run<K(==, !new), V>(t: HopscotchTable.Table<K, V>, ops: seq<Op<K, V>>)
    returns (answers: seq<Answer<V>>, interrupted: bool, ghost views: seq<View>, ghost refused: seq<bool>)
    requires t.Valid()
    modifies t
    ensures |answers| == |refused| <= |ops| && |views| == |answers| + 1
    ensures Traced(Steps(t.growthFactor, t.maxBuckets), Usual(), old(t.model), ops[..|answers|], views, refused)
    ensures AnswersAsMap(Usual(), old(t.model), ops[..|answers|], answers, refused)
    ensures if interrupted then |refused| > 0 && refused[|refused| - 1]
            else t.Valid() && |answers| == |ops| && t.model == MapAfter(Usual(), old(t.model), ops, refused)
    ensures views[0] == old(ViewOf(t)) && views[|answers|] == ViewOf(t)
  {
    hide t.Valid, Expected, After, StepOk, Traced, t.GrowthFails;
    ghost var step := Steps<K, V>(t.growthFactor, t.maxBuckets);
    answers, views, refused, interrupted := [], [ViewOf(t)], [], false;
    NoSteps(step, Usual(), t.model, ops[..0], views, refused);
    while |answers| < |ops| && !interrupted
      invariant |answers| == |refused| <= |ops| && |views| == |answers| + 1
      invariant Traced(step, Usual(), old(t.model), ops[..|answers|], views, refused)
      invariant AnswersAsMap(Usual(), old(t.model), ops[..|answers|], answers, refused)
      invariant if interrupted then |refused| > 0 && refused[|refused| - 1]
                else t.Valid() && t.model == MapAfter(Usual(), old(t.model), ops[..|answers|], refused)
      invariant views[0] == old(ViewOf(t)) && views[|answers|] == ViewOf(t)
      decreases |ops| - |answers|
    {
      var i := |answers|;
      var s, a := Do(t, ops[i]);
      TraceExtends(step, Usual(), old(t.model), ops, views, refused, i, !s.Done?, ViewOf(t));
      RunExtends(Usual(), old(t.model), ops, answers, refused, i, a, !s.Done?);
      answers, views, refused := answers + [a], views + [ViewOf(t)], refused + [!s.Done?];
      interrupted := s.Interrupted?;
    }
    assert ops[..|ops|] == ops;
  }

  // ---------- runs in which nothing is refused ----------

  lemma OneFits<K, V>(growthFactor: nat, maxBuckets: nat, v: View, m: map<K, V>, op: Op<K, V>, s: nat)
    requires growthFactor >= 2 && ViewOk(v)
    requires |m| < s && RoomForAll(growthFactor, s, maxBuckets) && OpFits(op, maxBuckets)
    ensures !MayRefuse(growthFactor, maxBuckets, v, m, op)
  {
    hide BucketsFor, TooMany, RoundUp, Least;
    MulMono(growthFactor, 10 * (|m| + 1) + 9, 10 * s + 10);
    MulMono(growthFactor, 10 * |m| + 9, 10 * s + 10);
    match op
    case Rehash(count) => LeastFits(growthFactor, count, |m|, v.maxLoad, s, maxBuckets);
    case Reserve(count) => ReserveFits(growthFactor, count, |m|, v.maxLoad, s, maxBuckets);
    case _ =>
  }

  lemma BoundedRunFits<K, V>(growthFactor: nat, maxBuckets: nat, m: map<K, V>, ops: seq<Op<K, V>>, views: seq<View>,
                             refused: seq<bool>, s: nat)
    requires |ops| == |refused| && |views| == |ops| + 1 && |m| + |ops| <= s
    requires Traced(Steps(growthFactor, maxBuckets), Usual(), m, ops, views, refused)
    requires growthFactor >= 2 && RoomForAll(growthFactor, s, maxBuckets)
    requires forall j :: 0 <= j < |ops| ==> OpFits(ops[j], maxBuckets)
    ensures forall j :: 0 <= j < |ops| ==> !refused[j]
  {
    hide MustRefuse, MayRefuse, MapAfter, ViewOk, RoomForAll, OpFits;
    forall j: nat | j < |ops| ensures !refused[j] {
      TracedAt(Steps(growthFactor, maxBuckets), Usual(), m, ops, views, refused, j);
      UsualSize(m, ops[..j], refused[..j]);
      var before := MapAfter(Usual(), m, ops[..j], refused[..j]);
      assert StepOk(growthFactor, maxBuckets, views[j], before, ops[j], refused[j], views[j + 1]);
      OneFits(growthFactor, maxBuckets, views[j], before, ops[j], s);
    }
  }

  /**
    With room for ten times the elements, growth included, nothing in a run is refused or interrupted
    and every answer is the one of the finite map, whatever displacement, overflow and nested rehashes
    the run goes through.
   */
  method RunBounded<K(==, !new), V>(t: HopscotchTable.Table<K, V>, ops: seq<Op<K, V>>) returns (answers: seq<Answer<V>>)
    requires t.Valid() && RoomForAll(t.growthFactor, |t.model| + |ops|, t.maxBuckets)
    requires forall i :: 0 <= i < |ops| ==> OpFits(ops[i], t.maxBuckets)
    modifies t
    ensures t.Valid() && |answers| == |ops|
    ensures AllAsExpected(Usual(), old(t.model), ops, answers) && t.model == MapOf(Usual(), old(t.model), ops)
  {
    hide Traced, RoomForAll, OpFits, AllAsExpected, AnswersAsMap, MapAfter, MapOf, Sound, t.GrowthFails;
    ghost var m := t.model;
    var a, interrupted;
    ghost var views, refused;
    a, interrupted, views, refused := Run(t, ops);
    BoundedRunFits(t.growthFactor, t.maxBuckets, m, ops[..|a|], views, refused, |m| + |ops|);
    assert !interrupted;
    assert ops[..|a|] == ops;
    NothingRefused(Usual(), m, ops, a, refused);
    answers := a;
  }

  /**
    What validity means bit by bit: neighbour bits, occupancy bits, overflow flags and the count.
   */
  lemma ValidMeans<K(!new), V>(t: HopscotchTable.Table<K, V>, h: nat, i: nat)
    requires t.Valid() && h < |t.buckets|
    ensures t.BucketCount() > 0
    ensures Neighbor(t.buckets[h], i) <==>
              i < t.cfg.hood && h + i < |t.buckets| && HomeOf(t.cfg, t.BucketCount(), t.buckets[h + i].slot) == h
    ensures IsEmpty(t.buckets[h]) <==> t.buckets[h].slot.Vacant?
    ensures HasOverflow(t.buckets[h]) <==>
              exists p :: 0 <= p < |t.overflow| && Home(t.cfg, t.overflow[p].key, t.BucketCount()) == h
    ensures t.nbElements == Occupied(t.buckets) + |t.overflow|
  {
    hide Home, HasOverflow, Neighbor, IsEmpty, HomeOf, Hood, Holds, Cells, Occupied, Sound;
    var b, n, o := t.buckets, t.BucketCount(), t.overflow;
    SizeIsSum(t.cfg, b, n, o, t.model);
    SoundFacts(t.cfg, b, n, o, t.model);
    SoundFlags(t.cfg, b, n, o, t.model, h);
    MarkedAt(t.cfg, b, n, h, i);
    HoodFacts(t.cfg, b, n);
  }
}
