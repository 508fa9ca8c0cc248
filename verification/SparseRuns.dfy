/**
  Whole runs of the sparse table.
 */
module SparseRuns {
  import opened Bits
  import opened GrowthPolicy
  import opened LoadFactor
  import opened Options
  import opened FiniteFacts
  import opened MapRuns
  import opened RunBounds
  import opened SparseLoops
  import SparseTable

  // What decides the bucket count of a table, besides the number of its elements.
  datatype View = View(n: nat, maxLoad: real)

  ghost predicate ViewOk(v: View) {
    0.1 <= v.maxLoad <= 0.8 && (v.n > 0 ==> IsPow2(v.n))
  }

  ghost function ViewOf<K(!new), V>(t: SparseTable.Table<K, V>): View
    reads t
  {
    View(t.bucketCount, t.maxLoad)
  }

  // The bucket count that an operation asks for, when it asks for one.
  ghost function Asked<K, V>(growthFactor: nat, v: View, m: map<K, V>, op: Op<K, V>): Option<nat>
    requires ViewOk(v)
  {
    match op
    case Insert(_, _) => Growth(growthFactor, v, |m|)
    case InsertOrAssign(_, _) => Growth(growthFactor, v, |m|)
    case Rehash(count) => Some(Least(count, |m|, v.maxLoad))
    case Reserve(count) => Some(Least(BucketsFor(count, v.maxLoad), |m|, v.maxLoad))
    case _ => None
  }

  // An insert grows the table whenever the threshold is reached, whether the key is present or not.
  ghost function Growth(growthFactor: nat, v: View, size: nat): Option<nat>
    requires ViewOk(v)
  {
    if size >= Threshold(v.n, v.maxLoad) then Some(NextCount(growthFactor, v.n)) else None
  }

  // The operation throws length_error.
  ghost predicate Refused<K, V>(growthFactor: nat, maxBuckets: nat, v: View, m: map<K, V>, op: Op<K, V>)
    requires ViewOk(v)
  {
    match Asked(growthFactor, v, m, op) case None => false case Some(count) => TooMany(count, maxBuckets)
  }

  // What the operation does to the view.
  ghost predicate Becomes<K, V>(growthFactor: nat, v: View, m: map<K, V>, op: Op<K, V>, refused: bool, v': View)
    requires ViewOk(v)
  {
    if refused then v' == v
    else if op.SetMaxLoad? then v' == v.(maxLoad := Clamp(op.factor, 0.1, 0.8))
    else
      match Asked(growthFactor, v, m, op)
      case None => v' == v
      case Some(count) => v' == v.(n := Rounded(count))
  }

  lemma Agree<K(!new), V>(t: SparseTable.Table<K, V>)
    requires t.Valid()
    ensures ViewOk(ViewOf(t))
    ensures t.nbElements == |t.model| && t.loadThresholdRehash == Threshold(t.bucketCount, t.maxLoad)
    ensures t.NextBucketCount() == NextCount(t.growthFactor, t.bucketCount) > 0
    ensures forall c: nat :: t.RehashCount(c) == Least(c, |t.model|, t.maxLoad)
  {
    hide SparseTable.Sound, Threshold, BucketsFor, SparseTable.WithDeleted;
    assert t.bucketCount > 0 ==> t.mask + 1 == t.bucketCount;
    MulMono(t.mask + 1, 2, t.growthFactor);
  }

  // erase(find(key)), when there is such an entry.
  method EraseFound<K(==, !new), V>(t: SparseTable.Table<K, V>, key: K) returns (n: nat)
    requires t.Valid()
    modifies t
    ensures t.Valid() && n == (if key in old(t.model) then 1 else 0) && t.model == old(t.model) - {key}
    ensures ViewOf(t) == old(ViewOf(t))
  {
    hide t.Valid, Slots, Fitted;
    RemoveKey(t.model, key);
    var found, ibucket := t.Find(key);
    if !found {
      return 0;
    }
    SlotsLength(t.arrays, t.bucketCount);
    t.EraseAt(ibucket);
    n := 1;
  }

  method Do<K(==, !new), V>(t: SparseTable.Table<K, V>, op: Op<K, V>) returns (a: Answer<V>, ghost refused: bool)
    requires t.Valid()
    modifies t
    ensures t.Valid() && ViewOk(old(ViewOf(t)))
    ensures refused == old(Refused(t.growthFactor, t.maxBuckets, ViewOf(t), t.model, op))
    ensures a == if refused then LengthError else Expected(old(t.model), op)
    ensures t.model == if refused then old(t.model) else After(old(t.model), op)
    ensures Becomes(t.growthFactor, old(ViewOf(t)), old(t.model), op, refused, ViewOf(t))
  {
    hide t.Valid, Slots, TooMany, RoundUp, Threshold, BucketsFor, Least, t.RehashCount, t.NextBucketCount, NextCount;
    Agree(t);
    refused := Refused(t.growthFactor, t.maxBuckets, ViewOf(t), t.model, op);
    match op
    case Insert(k, v) =>
      var r := t.Insert(k, v);
      a := match r case LengthError => LengthError case Present(_) => AlreadyThere case Inserted(_) => Added;
    case InsertOrAssign(k, v) =>
      var r := t.InsertOrAssign(k, v);
      a := match r case LengthError => LengthError case Present(_) => AlreadyThere case Inserted(_) => Added;
    case Erase(k) =>
      var n := t.EraseKey(k);
      a := NbErased(n);
    case EraseAt(k) =>
      var n := EraseFound(t, k);
      a := NbErased(n);
    case Find(k) =>
      var found, ibucket := t.Find(k);
      a := Found(if found then Some(t.ValueAt(ibucket).val) else None);
    case Clear =>
      t.Clear();
      a := Done;
    case Rehash(n) =>
      var ok := t.Rehash(n);
      a := if ok then Done else LengthError;
    case Reserve(n) =>
      var ok := t.Reserve(n);
      a := if ok then Done else LengthError;
    case SetMaxLoad(f) =>
      t.SetMaxLoad(f);
      a := Done;
  }

  // One step of a run: refused exactly as the view before it says, and leaving the view after it.
  ghost predicate StepOk<K, V>(growthFactor: nat, maxBuckets: nat, v: View, m: map<K, V>, op: Op<K, V>, refused: bool,
                               v': View)
  {
    ViewOk(v) && refused == Refused(growthFactor, maxBuckets, v, m, op) && Becomes(growthFactor, v, m, op, refused, v')
  }

  ghost function Steps<K, V>(growthFactor: nat, maxBuckets: nat): (View, map<K, V>, Op<K, V>, bool, View) -> bool {
    (v, m, op, refused, v') => StepOk(growthFactor, maxBuckets, v, m, op, refused, v')
  }

  /**
    Every run on a valid table answers as the finite map does, except that an operation ends in a length
    error exactly when it asks for too many buckets, which the trace of views says from the start of the
    run to its end.  The run ends in a valid table that stands for the finite map.
   */
  method Run<K(==, !new), V>(t: SparseTable.Table<K, V>, ops: seq<Op<K, V>>)
    returns (answers: seq<Answer<V>>, ghost views: seq<View>, ghost refused: seq<bool>)
    requires t.Valid()
    modifies t
    ensures |answers| == |refused| == |ops| && |views| == |ops| + 1 && t.Valid()
    ensures views[0] == old(ViewOf(t)) && views[|ops|] == ViewOf(t)
    ensures Traced(Steps(t.growthFactor, t.maxBuckets), Usual(), old(t.model), ops, views, refused)
    ensures AnswersAsMap(Usual(), old(t.model), ops, answers, refused)
    ensures t.model == MapAfter(Usual(), old(t.model), ops, refused)
  {
    hide t.Valid, Expected, After, Becomes, Refused, Traced, ViewOk;
    ghost var step := Steps<K, V>(t.growthFactor, t.maxBuckets);
    answers, views, refused := [], [ViewOf(t)], [];
    NoSteps(step, Usual(), t.model, ops[..0], views, refused);
    for i := 0 to |ops|
      invariant |answers| == |refused| == i && |views| == i + 1 && t.Valid()
      invariant views[0] == old(ViewOf(t)) && views[i] == ViewOf(t)
      invariant Traced(step, Usual(), old(t.model), ops[..i], views, refused)
      invariant AnswersAsMap(Usual(), old(t.model), ops[..i], answers, refused)
      invariant t.model == MapAfter(Usual(), old(t.model), ops[..i], refused)
    {
      var a;
      ghost var no;
      a, no := Do(t, ops[i]);
      TraceExtends(step, Usual(), old(t.model), ops, views, refused, i, no, ViewOf(t));
      RunExtends(Usual(), old(t.model), ops, answers, refused, i, a, no);
      answers, views, refused := answers + [a], views + [ViewOf(t)], refused + [no];
    }
    assert ops[..|ops|] == ops;
  }

  // ---------- runs in which nothing is refused ----------

  lemma StepIs<K, V>(growthFactor: nat, maxBuckets: nat, v: View, m: map<K, V>, op: Op<K, V>, refused: bool, v': View)
    requires Steps(growthFactor, maxBuckets)(v, m, op, refused, v')
    ensures ViewOk(v) && refused == Refused(growthFactor, maxBuckets, v, m, op)
    ensures Becomes(growthFactor, v, m, op, refused, v')
  {
    hide ViewOk, Refused, Becomes;
  }

  lemma OneFits<K, V>(growthFactor: nat, maxBuckets: nat, v: View, m: map<K, V>, op: Op<K, V>, s: nat)
    requires IsPow2(growthFactor) && growthFactor >= 2 && ViewOk(v)
    requires |m| <= s && RoomForAll(growthFactor, s, maxBuckets) && OpFits(op, maxBuckets)
    ensures !Refused(growthFactor, maxBuckets, v, m, op)
  {
    hide Threshold, BucketsFor, RoomForAll, TooMany, IsPow2, RoundUp, Least;
    match op
    case Insert(_, _) =>
      if |m| >= Threshold(v.n, v.maxLoad) { NextFits(growthFactor, v.n, v.maxLoad, |m|, s, maxBuckets); }
    case InsertOrAssign(_, _) =>
      if |m| >= Threshold(v.n, v.maxLoad) { NextFits(growthFactor, v.n, v.maxLoad, |m|, s, maxBuckets); }
    case Rehash(count) => LeastFits(growthFactor, count, |m|, v.maxLoad, s, maxBuckets);
    case Reserve(count) => ReserveFits(growthFactor, count, |m|, v.maxLoad, s, maxBuckets);
    case _ =>
  }

  lemma BoundedRunFits<K, V>(growthFactor: nat, maxBuckets: nat, m: map<K, V>, ops: seq<Op<K, V>>, views: seq<View>,
                             refused: seq<bool>)
    requires |ops| == |refused| && |views| == |ops| + 1
    requires Traced(Steps(growthFactor, maxBuckets), Usual(), m, ops, views, refused)
    requires IsPow2(growthFactor) && growthFactor >= 2 && RoomForAll(growthFactor, |m| + |ops|, maxBuckets)
    requires forall j :: 0 <= j < |ops| ==> OpFits(ops[j], maxBuckets)
    ensures forall j :: 0 <= j < |ops| ==> !refused[j]
  {
    hide Refused, Becomes, MapAfter, ViewOk, RoomForAll, OpFits, IsPow2;
    forall j: nat | j < |ops| ensures !refused[j] {
      TracedAt(Steps(growthFactor, maxBuckets), Usual(), m, ops, views, refused, j);
      var before := MapAfter(Usual(), m, ops[..j], refused[..j]);
      StepIs(growthFactor, maxBuckets, views[j], before, ops[j], refused[j], views[j + 1]);
      UsualSize(m, ops[..j], refused[..j]);
      OneFits(growthFactor, maxBuckets, views[j], before, ops[j], |m| + |ops|);
    }
  }

  /**
    With room for ten times the elements, growth included, nothing in a run is refused and every answer
    is the one of the finite map.
   */
  method RunBounded<K(==, !new), V>(t: SparseTable.Table<K, V>, ops: seq<Op<K, V>>) returns (answers: seq<Answer<V>>)
    requires t.Valid() && RoomForAll(t.growthFactor, |t.model| + |ops|, t.maxBuckets)
    requires forall i :: 0 <= i < |ops| ==> OpFits(ops[i], t.maxBuckets)
    modifies t
    ensures t.Valid() && |answers| == |ops|
    ensures AllAsExpected(Usual(), old(t.model), ops, answers) && t.model == MapOf(Usual(), old(t.model), ops)
  {
    hide Traced, RoomForAll, OpFits, AllAsExpected, AnswersAsMap, MapAfter, MapOf, SparseTable.Sound;
    ghost var m := t.model;
    var a;
    ghost var views, refused;
    a, views, refused := Run(t, ops);
    BoundedRunFits(t.growthFactor, t.maxBuckets, m, ops, views, refused);
    NothingRefused(Usual(), m, ops, a, refused);
    answers := a;
  }
}
