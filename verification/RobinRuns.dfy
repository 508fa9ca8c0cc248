/**
  Whole runs of the Robin Hood table, and the inputs on which an operation of it does not do what its
  caller would expect.
 */
module RobinRuns {
  import opened Bits
  import opened GrowthPolicy
  import opened LoadFactor
  import opened Options
  import opened FiniteFacts
  import opened MapRuns
  import opened RunBounds
  import opened RobinBuckets
  import opened RobinLoops
  import RobinErase
  import RobinGuaranteed
  import RobinTable

  // What decides the bucket count of a table, besides the number of its elements.
  datatype View = View(n: nat, minLoad: real, maxLoad: real, grow: bool, shrink: bool)

  ghost predicate ViewOk(v: View) {
    0.0 <= v.minLoad <= 0.15 && 0.2 <= v.maxLoad <= 0.95 && (v.n > 0 ==> IsPow2(v.n))
  }

  ghost function ViewOf<K(!new), V>(t: RobinTable.Table<K, V>): View
    reads t
  {
    View(|t.buckets|, t.minLoad, t.maxLoad, t.growOnNextInsert, t.tryShrinkOnNextInsert)
  }

  ghost predicate WantsGrowth(v: View, size: nat)
    requires ViewOk(v)
  {
    v.grow || size >= Threshold(v.n, v.maxLoad)
  }

  ghost predicate WantsShrink(v: View, size: nat) {
    v.shrink && v.minLoad != 0.0 && if v.n == 0 then 0.0 < v.minLoad else size as real / v.n as real < v.minLoad
  }

  // The bucket count that an operation asks for, when it asks for one.
  ghost function Asked<K, V>(growthFactor: nat, v: View, m: map<K, V>, op: Op<K, V>): Option<nat>
    requires ViewOk(v)
  {
    if StoresNew(m, op) then
      if WantsGrowth(v, |m|) then Some(NextCount(growthFactor, v.n))
      else if WantsShrink(v, |m|) then Some(Least(BucketsFor(|m| + 1, v.maxLoad), |m|, v.maxLoad))
      else None
    else if op.Rehash? then Some(Least(op.count, |m|, v.maxLoad))
    else if op.Reserve? then Some(Least(BucketsFor(op.count, v.maxLoad), |m|, v.maxLoad))
    else None
  }

  // The operation throws length_error.
  ghost predicate Refused<K, V>(growthFactor: nat, maxBuckets: nat, v: View, m: map<K, V>, op: Op<K, V>)
    requires ViewOk(v)
  {
    match Asked(growthFactor, v, m, op) case None => false case Some(count) => TooMany(count, maxBuckets)
  }

  // What the operation does to the view.
  ghost predicate Becomes<K, V>(growthFactor: nat, v: View, m: map<K, V>, op: Op<K, V>, refused: bool, v': View)
    requires ViewOk(v)
  {
    if refused then v' == v.(shrink := v'.shrink) && (v'.shrink ==> v.shrink)
    else
      var asked := Asked(growthFactor, v, m, op);
      match op
      case Insert(k, _) =>
        if k in m then v' == v else Inserts(v, |m|, asked, v')
      case InsertOrAssign(k, _) =>
        if k in m then v' == v else Inserts(v, |m|, asked, v')
      case Erase(k) => v' == v.(shrink := v.shrink || k in m)
      case EraseAt(k) => v' == v.(shrink := v.shrink || k in m)
      case Find(_) => v' == v
      case Clear =>
        v' == v.(n := if v.minLoad > 0.0 then 0 else v.n, grow := false, shrink := v.minLoad == 0.0 && v.shrink)
      case Rehash(_) => v' == v.(n := Rounded(asked.value), grow := false, shrink := false)
      case Reserve(_) => v' == v.(n := Rounded(asked.value), grow := false, shrink := false)
      case SetMaxLoad(f) => v' == v.(maxLoad := Clamp(f, 0.2, 0.95))
  }

  // A new key is stored: the buckets asked for, and growth on the next insert only in large tables.
  ghost predicate Inserts(v: View, size: nat, asked: Option<nat>, v': View) {
    && v' == v.(n := if asked.Some? then Rounded(asked.value) else v.n, grow := v'.grow, shrink := false)
    && (v'.grow ==> size + 1 > 4096)
  }

  lemma Agree<K(!new), V>(t: RobinTable.Table<K, V>)
    requires t.Valid()
    ensures ViewOk(ViewOf(t))
    ensures t.WantsGrowth() == WantsGrowth(ViewOf(t), |t.model|) && t.WantsShrink() == WantsShrink(ViewOf(t), |t.model|)
    ensures t.NextBucketCount() == NextCount(t.growthFactor, |t.buckets|) && t.nbElements == |t.model|
    ensures forall c: nat :: t.RehashCount(c) == Least(c, |t.model|, t.maxLoad)
    ensures forall c: nat :: t.ReserveCount(c) == Least(BucketsFor(c, t.maxLoad), |t.model|, t.maxLoad)
  {
    hide Sound, Threshold, BucketsFor;
    assert |t.buckets| > 0 ==> t.mask + 1 == |t.buckets|;
  }

  // When an insert is refused, and how many buckets there are after it.
  lemma InsertAgrees<K(!new), V>(t: RobinTable.Table<K, V>, op: Op<K, V>)
    requires t.Valid() && StoresNew(t.model, op)
    ensures ViewOk(ViewOf(t))
    ensures t.GrowthFails() == Refused(t.growthFactor, t.maxBuckets, ViewOf(t), t.model, op)
    ensures var asked := Asked(t.growthFactor, ViewOf(t), t.model, op);
            t.InsertBuckets() == if asked.Some? then Rounded(asked.value) else |t.buckets|
  {
    Agree(t);
    hide Sound, Threshold, RoundUp, WantsGrowth, WantsShrink, t.WantsGrowth, t.WantsShrink, t.Valid;
    BucketsForFacts(|t.model| + 1, t.maxLoad);
    hide BucketsFor;
    if t.WantsGrowth() { NextPositive(t); }
  }

  lemma NextPositive<K(!new), V>(t: RobinTable.Table<K, V>)
    requires t.Valid()
    ensures t.NextBucketCount() > 0
  {
    MulMono(t.mask + 1, 2, t.growthFactor);
  }

  // erase(find(key)), when there is such an entry.
  method EraseFound<K(==, !new), V>(t: RobinTable.Table<K, V>, key: K) returns (n: nat)
    requires t.Valid()
    modifies t
    ensures t.Valid() && n == (if key in old(t.model) then 1 else 0) && t.model == old(t.model) - {key}
    ensures ViewOf(t) == old(ViewOf(t)).(shrink := old(t.tryShrinkOnNextInsert) || n == 1)
  {
    hide t.Valid;
    RemoveKey(t.model, key);
    var pos := t.Find(key);
    if pos == |t.buckets| {
      return 0;
    }
    var _ := t.EraseAt(pos);
    n := 1;
  }

  // insert or insert_or_assign.
  method DoStore<K(==, !new), V>(t: RobinTable.Table<K, V>, op: Op<K, V>) returns (a: Answer<V>, ghost refused: bool)
    requires t.Valid() && (op.Insert? || op.InsertOrAssign?)
    modifies t
    ensures t.Valid() && ViewOk(old(ViewOf(t)))
    ensures refused == old(Refused(t.growthFactor, t.maxBuckets, ViewOf(t), t.model, op))
    ensures a == if refused then LengthError else Expected(old(t.model), op)
    ensures t.model == if refused then old(t.model) else After(old(t.model), op)
    ensures Becomes(t.growthFactor, old(ViewOf(t)), old(t.model), op, refused, ViewOf(t))
  {
    hide t.Valid, TooMany, RoundUp, WantsGrowth, WantsShrink, Threshold, BucketsFor, Least, t.GrowthFails,
      t.InsertBuckets;
    Agree(t);
    if StoresNew(t.model, op) { InsertAgrees(t, op); }
    refused := Refused(t.growthFactor, t.maxBuckets, ViewOf(t), t.model, op);
    var r;
    if op.Insert? {
      r := t.Insert(op.key, op.val);
    } else {
      r := t.InsertOrAssign(op.key, op.val);
    }
    a := match r case LengthError => LengthError case Present(_) => AlreadyThere case Inserted(_) => Added;
  }

  // One of the operations that all tables have.
  method DoOp<K(==, !new), V>(t: RobinTable.Table<K, V>, op: Op<K, V>) returns (a: Answer<V>, ghost refused: bool)
    requires t.Valid()
    modifies t
    ensures t.Valid() && ViewOk(old(ViewOf(t)))
    ensures refused == old(Refused(t.growthFactor, t.maxBuckets, ViewOf(t), t.model, op))
    ensures a == if refused then LengthError else Expected(old(t.model), op)
    ensures t.model == if refused then old(t.model) else After(old(t.model), op)
    ensures Becomes(t.growthFactor, old(ViewOf(t)), old(t.model), op, refused, ViewOf(t))
  {
    hide t.Valid, TooMany, RoundUp, WantsGrowth, WantsShrink, Threshold, BucketsFor, Least, t.ReserveCount,
      t.RehashCount;
    if op.Insert? || op.InsertOrAssign? {
      a, refused := DoStore(t, op);
      return;
    }
    Agree(t);
    refused := Refused(t.growthFactor, t.maxBuckets, ViewOf(t), t.model, op);
    match op
    case Erase(k) =>
      var n := t.EraseKey(k);
      a := NbErased(n);
    case EraseAt(k) =>
      var n := EraseFound(t, k);
      a := NbErased(n);
    case Find(k) =>
      var pos := t.Find(k);
      a := Found(if pos < |t.buckets| then Some(t.buckets[pos].val) else None);
    case Clear =>
      t.Clear();
      a := Done;
    case Rehash(n) =>
      var ok := t.Rehash(n);
      a := if ok then Done else LengthError;
    case Reserve(n) =>
      var ok := t.Reserve(n);
      a := if ok then Done else LengthError;
    case SetMaxLoad(f) =>
      t.SetMaxLoad(f);
      a := Done;
  }

  // ---------- all operations of this table ----------

  // Iterators are named by keys, as find gives them: an absent key names the end.
  datatype Cmd<K, V> =
    | Call(op: Op<K, V>)
    | EraseRange(first: K, last: K)
    | SetMinLoad(factor: real)
    | FindGuaranteed(key: K)

  // What a command comes to.  The keys of a range, and whether find_guaranteed answers as find does,
  // depend on the buckets.
  datatype Act<K, V> = Does(op: Op<K, V>) | Removes(keys: set<K>) | Tunes(minLoad: real) | Answers(a: Answer<V>)

  ghost function ActAnswer<K, V>(m: map<K, V>, act: Act<K, V>): Answer<V> {
    match act
    case Does(op) => Expected(m, op)
    case Answers(a) => a
    case _ => Done
  }

  ghost function ActAfter<K, V>(m: map<K, V>, act: Act<K, V>): map<K, V> {
    match act
    case Does(op) => After(m, op)
    case Removes(keys) => m - keys
    case _ => m
  }

  ghost function Robin<K, V>(): Meaning<K, V, Act<K, V>> {
    Meaning((m: map<K, V>, act: Act<K, V>) => ActAnswer(m, act), (m: map<K, V>, act: Act<K, V>) => ActAfter(m, act))
  }

  // A range that a careful user erases: its ends are in order, and it passes Restores.
  predicate CanErase<K, V>(b: seq<Bucket<K, V>>, first: nat, last: nat) {
    first <= last <= |b| && (first < last ==> RobinErase.Restores(b, first, last))
  }

  // What a command comes to in a table with these buckets.  A range that cannot be erased is not passed on;
  // of find_guaranteed nothing is said but that it changes nothing, when it does not answer as find does.
  ghost predicate ComesTo<K, V>(cfg: Config<K>, b: seq<Bucket<K, V>>, cmd: Cmd<K, V>, act: Act<K, V>) {
    match cmd
    case Call(op) => act == Does(op)
    case EraseRange(k, l) =>
      var first, last := RobinTable.PosIn(b, k), RobinTable.PosIn(b, l);
      act == Removes(if CanErase(b, first, last) then RobinErase.KeysIn(b, first, last) else {})
    case SetMinLoad(f) => act == Tunes(f)
    case FindGuaranteed(k) =>
      if cfg.lookupHash && RobinGuaranteed.AnswersAsFind(cfg, b, k) then act == Does(Find(k)) else act.Answers?
  }

  ghost predicate ActRefused<K, V>(growthFactor: nat, maxBuckets: nat, v: View, m: map<K, V>, act: Act<K, V>)
    requires ViewOk(v)
  {
    act.Does? && Refused(growthFactor, maxBuckets, v, m, act.op)
  }

  ghost predicate ActBecomes<K, V>(growthFactor: nat, v: View, m: map<K, V>, act: Act<K, V>, refused: bool, v': View)
    requires ViewOk(v)
  {
    match act
    case Does(op) => Becomes(growthFactor, v, m, op, refused, v')
    case Removes(keys) => v' == v.(shrink := v.shrink || keys != {})
    case Tunes(f) => v' == v.(minLoad := Clamp(f, 0.0, 0.15))
    case Answers(_) => v' == v
  }

  /**
    One operation of the table.  It answers and acts as the finite map does, or ends in a length error
    exactly when it asks for too many buckets.
   */
  method Do<K(==, !new), V>(t: RobinTable.Table<K, V>, cmd: Cmd<K, V>)
    returns (a: Answer<V>, ghost act: Act<K, V>, ghost refused: bool)
    requires t.Valid()
    modifies t
    ensures t.Valid() && ViewOk(old(ViewOf(t))) && ComesTo(t.cfg, old(t.buckets), cmd, act)
    ensures refused == ActRefused(t.growthFactor, t.maxBuckets, old(ViewOf(t)), old(t.model), act)
    ensures a == if refused then LengthError else ActAnswer(old(t.model), act)
    ensures t.model == if refused then old(t.model) else ActAfter(old(t.model), act)
    ensures ActBecomes(t.growthFactor, old(ViewOf(t)), old(t.model), act, refused, ViewOf(t))
  {
    hide t.Valid, Becomes, Refused, Expected, After, CanErase, RobinErase.KeysIn, RobinGuaranteed.AnswersAsFind;
    Agree(t);
    a, refused := Done, false;
    match cmd
    case Call(op) =>
      act := Does(op);
      a, refused := DoOp(t, op);
    case EraseRange(k, l) =>
      act := EraseBetween(t, k, l);
    case SetMinLoad(f) =>
      act := Tunes(f);
      t.SetMinLoad(f);
    case FindGuaranteed(k) =>
      FindIsQuiet(t.growthFactor, t.maxBuckets, ViewOf(t), t.model, k);
      a, act := Guarantee(t, k);
  }

  lemma FindIsQuiet<K, V>(growthFactor: nat, maxBuckets: nat, v: View, m: map<K, V>, k: K)
    requires ViewOk(v)
    ensures !Refused(growthFactor, maxBuckets, v, m, Find(k)) && After(m, Find(k)) == m
    ensures Becomes(growthFactor, v, m, Find(k), false, v)
  {
    hide ViewOk;
  }

  method EraseBetween<K(==, !new), V>(t: RobinTable.Table<K, V>, k: K, l: K) returns (ghost act: Act<K, V>)
    requires t.Valid()
    modifies t
    ensures t.Valid() && ComesTo(t.cfg, old(t.buckets), EraseRange(k, l), act) && act.Removes?
    ensures var b, first, last := old(t.buckets), old(t.PosOf(k)), old(t.PosOf(l));
            first == last || (first < last && RobinErase.Restores(b, first, last)) ==>
              act.keys == RobinErase.KeysIn(b, first, last)
    ensures t.model == old(t.model) - act.keys
    ensures ViewOf(t) == old(ViewOf(t)).(shrink := old(t.tryShrinkOnNextInsert) || act.keys != {})
  {
    hide t.Valid;
    var first := t.Find(k);
    var last := t.Find(l);
    act := Removes({});
    if CanErase(t.buckets, first, last) {
      act := Removes(RobinErase.KeysIn(t.buckets, first, last));
      RangeKeys(t.buckets, first, last);
      var _ := t.EraseRange(first, last);
    }
  }

  lemma RangeKeys<K, V>(b: seq<Bucket<K, V>>, first: nat, last: nat)
    requires first <= last <= |b| && (first < last ==> b[first].Full?)
    ensures RobinErase.KeysIn(b, first, last) != {} <==> first < last
  {
    if first < last { assert b[first].key in RobinErase.KeysIn(b, first, last); }
  }

  method Guarantee<K(==, !new), V>(t: RobinTable.Table<K, V>, k: K) returns (a: Answer<V>, ghost act: Act<K, V>)
    requires t.Valid()
    ensures ComesTo(t.cfg, t.buckets, FindGuaranteed(k), act) && a == ActAnswer(t.model, act)
    ensures act.Answers? || act == Does(Find(k))
  {
    hide t.Valid, RobinGuaranteed.AnswersAsFind;
    a, act := Done, Answers(Done);
    if t.cfg.lookupHash {
      var r := t.FindGuaranteed(k);
      a := Found(if r.Hit? && r.pos < |t.buckets| && t.buckets[r.pos].Full? then Some(t.buckets[r.pos].val) else None);
      act := if RobinGuaranteed.AnswersAsFind(t.cfg, t.buckets, k) then Does(Find(k)) else Answers(a);
      StoredValue(t, k);
    }
  }

  lemma StoredValue<K(!new), V>(t: RobinTable.Table<K, V>, k: K)
    requires t.Valid()
    ensures forall p :: 0 <= p < |t.buckets| && t.buckets[p].Full? && t.buckets[p].key == k ==>
              k in t.model && t.buckets[p].val == t.model[k]
    ensures HasKey(t.buckets, k) <==> k in t.model
  {
    RobinTable.SoundLookup(t.cfg, t.buckets, t.model, k);
  }

  // One step of a run: refused exactly as the view before it says, and leaving the view after it.
  ghost predicate StepOk<K, V>(growthFactor: nat, maxBuckets: nat, v: View, m: map<K, V>, act: Act<K, V>, refused: bool,
                               v': View)
  {
    && ViewOk(v) && refused == ActRefused(growthFactor, maxBuckets, v, m, act)
    && ActBecomes(growthFactor, v, m, act, refused, v')
  }

  ghost function Steps<K, V>(growthFactor: nat, maxBuckets: nat): (View, map<K, V>, Act<K, V>, bool, View) -> bool {
    (v, m, act, refused, v') => StepOk(growthFactor, maxBuckets, v, m, act, refused, v')
  }

  // What each command of a run came to, in the buckets that it found.
  ghost predicate AllComeTo<K, V>(cfg: Config<K>, layouts: seq<seq<Bucket<K, V>>>, cmds: seq<Cmd<K, V>>,
                                  acts: seq<Act<K, V>>)
  {
    |layouts| > |cmds| == |acts| && forall i :: 0 <= i < |cmds| ==> ComesTo(cfg, layouts[i], cmds[i], acts[i])
  }

  lemma OneMoreComesTo<K, V>(cfg: Config<K>, layouts: seq<seq<Bucket<K, V>>>, cmds: seq<Cmd<K, V>>,
                             acts: seq<Act<K, V>>, i: nat, act: Act<K, V>, layout: seq<Bucket<K, V>>)
    requires i < |cmds| && |layouts| == i + 1 && AllComeTo(cfg, layouts, cmds[..i], acts)
    requires ComesTo(cfg, layouts[i], cmds[i], act)
    ensures AllComeTo(cfg, layouts + [layout], cmds[..i + 1], acts + [act])
  {
    hide ComesTo;
  }

  /**
    What a run leaves behind, besides its answers: the buckets, what the commands came to, what the table
    says about itself between them, and which of them were refused.
   */
  datatype Trace<!K, !V> = Trace(layouts: seq<seq<Bucket<K, V>>>, acts: seq<Act<K, V>>, views: seq<View>,
                                 refused: seq<bool>)

  ghost predicate TraceOk<K, V>(cfg: Config<K>, growthFactor: nat, maxBuckets: nat, m: map<K, V>, cmds: seq<Cmd<K, V>>,
                                answers: seq<Answer<V>>, tr: Trace<K, V>)
  {
    && |tr.acts| == |tr.refused| == |answers| == |cmds| && |tr.layouts| == |tr.views| == |cmds| + 1
    && AllComeTo(cfg, tr.layouts, cmds, tr.acts)
    && Traced(Steps(growthFactor, maxBuckets), Robin(), m, tr.acts, tr.views, tr.refused)
    && AnswersAsMap(Robin(), m, tr.acts, answers, tr.refused)
  }

  lemma TraceNext<K, V>(cfg: Config<K>, growthFactor: nat, maxBuckets: nat, m: map<K, V>, cmds: seq<Cmd<K, V>>,
                        answers: seq<Answer<V>>, tr: Trace<K, V>, a: Answer<V>, act: Act<K, V>, no: bool, v: View,
                        b: seq<Bucket<K, V>>)
    requires |answers| < |cmds| && TraceOk(cfg, growthFactor, maxBuckets, m, cmds[..|answers|], answers, tr)
    requires var before := MapAfter(Robin(), m, tr.acts, tr.refused);
             && ComesTo(cfg, tr.layouts[|answers|], cmds[|answers|], act)
             && StepOk(growthFactor, maxBuckets, tr.views[|answers|], before, act, no, v)
             && a == if no then LengthError else ActAnswer(before, act)
    ensures var tr' := Trace(tr.layouts + [b], tr.acts + [act], tr.views + [v], tr.refused + [no]);
            && TraceOk(cfg, growthFactor, maxBuckets, m, cmds[..|answers| + 1], answers + [a], tr')
            && MapAfter(Robin(), m, tr'.acts, tr'.refused)
                 == if no then MapAfter(Robin(), m, tr.acts, tr.refused)
                    else ActAfter(MapAfter(Robin(), m, tr.acts, tr.refused), act)
  {
    hide ComesTo, StepOk, AllComeTo, Traced, AnswersAsMap, MapAfter, ActAnswer, ActAfter;
    var i := |answers|;
    var acts := tr.acts + [act];
    assert acts[..i] == tr.acts && acts[..i + 1] == acts;
    OneMoreComesTo(cfg, tr.layouts, cmds, tr.acts, i, act, b);
    TraceExtends(Steps(growthFactor, maxBuckets), Robin(), m, acts, tr.views, tr.refused, i, no, v);
    RunExtends(Robin(), m, acts, answers, tr.refused, i, a, no);
  }

  /**
    Every run on a valid table answers as the finite map does, except that an operation ends in a length
    error exactly when it asks for too many buckets, which the trace of views says from the start of the
    run to its end.  The run ends in a valid table that stands for the finite map.
   */
  method Run<K(==, !new), V>(t: RobinTable.Table<K, V>, cmds: seq<Cmd<K, V>>)
    returns (answers: seq<Answer<V>>, ghost tr: Trace<K, V>)
    requires t.Valid()
    modifies t
    ensures t.Valid() && TraceOk(t.cfg, t.growthFactor, t.maxBuckets, old(t.model), cmds, answers, tr)
    ensures tr.layouts[0] == old(t.buckets) && tr.layouts[|cmds|] == t.buckets
    ensures tr.views[0] == old(ViewOf(t)) && tr.views[|cmds|] == ViewOf(t)
    ensures t.model == MapAfter(Robin(), old(t.model), tr.acts, tr.refused)
  {
    hide t.Valid, ComesTo, StepOk, AllComeTo, Traced, AnswersAsMap, MapAfter, ActAnswer, ActAfter;
    answers, tr := [], Trace([t.buckets], [], [ViewOf(t)], []);
    TraceStart(t.cfg, t.growthFactor, t.maxBuckets, t.model, cmds, tr);
    for i := 0 to |cmds|
      invariant t.Valid() && |answers| == i
      invariant TraceOk(t.cfg, t.growthFactor, t.maxBuckets, old(t.model), cmds[..i], answers, tr)
      invariant tr.layouts[0] == old(t.buckets) && tr.layouts[i] == t.buckets
      invariant tr.views[0] == old(ViewOf(t)) && tr.views[i] == ViewOf(t)
      invariant t.model == MapAfter(Robin(), old(t.model), tr.acts, tr.refused)
    {
      ghost var m, v := t.model, ViewOf(t);
      var a;
      ghost var act, no;
      a, act, no := Do(t, cmds[i]);
      IsStep(t.growthFactor, t.maxBuckets, v, m, act, no, ViewOf(t));
      TraceNext(t.cfg, t.growthFactor, t.maxBuckets, old(t.model), cmds, answers, tr, a, act, no, ViewOf(t), t.buckets);
      answers := answers + [a];
      tr := Trace(tr.layouts + [t.buckets], tr.acts + [act], tr.views + [ViewOf(t)], tr.refused + [no]);
    }
    assert cmds[..|cmds|] == cmds;
  }

  lemma IsStep<K, V>(growthFactor: nat, maxBuckets: nat, v: View, m: map<K, V>, act: Act<K, V>, refused: bool, v': View)
    requires ViewOk(v) && refused == ActRefused(growthFactor, maxBuckets, v, m, act)
    requires ActBecomes(growthFactor, v, m, act, refused, v')
    ensures StepOk(growthFactor, maxBuckets, v, m, act, refused, v')
  {}

  lemma TraceStart<K, V>(cfg: Config<K>, growthFactor: nat, maxBuckets: nat, m: map<K, V>, cmds: seq<Cmd<K, V>>,
                         tr: Trace<K, V>)
    requires tr.acts == [] && tr.refused == [] && |tr.layouts| == |tr.views| == 1
    ensures TraceOk(cfg, growthFactor, maxBuckets, m, cmds[..0], [], tr)
    ensures MapAfter(Robin(), m, tr.acts, tr.refused) == m
  {
    NoSteps(Steps(growthFactor, maxBuckets), Robin(), m, tr.acts, tr.views, tr.refused);
  }

  // ---------- runs in which nothing is refused ----------

  lemma StepIs<K, V>(growthFactor: nat, maxBuckets: nat, v: View, m: map<K, V>, act: Act<K, V>, refused: bool, v': View)
    requires Steps(growthFactor, maxBuckets)(v, m, act, refused, v')
    ensures ViewOk(v) && refused == ActRefused(growthFactor, maxBuckets, v, m, act)
    ensures ActBecomes(growthFactor, v, m, act, refused, v')
  {
    hide ViewOk, ActRefused, ActBecomes;
  }

  lemma OneFits<K, V>(growthFactor: nat, maxBuckets: nat, v: View, m: map<K, V>, op: Op<K, V>, s: nat)
    requires IsPow2(growthFactor) && growthFactor >= 2 && ViewOk(v) && !v.grow
    requires |m| <= s && RoomForAll(growthFactor, s, maxBuckets) && OpFits(op, maxBuckets)
    ensures !Refused(growthFactor, maxBuckets, v, m, op)
  {
    hide Threshold, BucketsFor, RoomForAll, TooMany, IsPow2, RoundUp, Least;
    if StoresNew(m, op) {
      if WantsGrowth(v, |m|) {
        NextFits(growthFactor, v.n, v.maxLoad, |m|, s, maxBuckets);
      } else if WantsShrink(v, |m|) {
        ReserveFits(growthFactor, |m| + 1, |m|, v.maxLoad, s, maxBuckets);
      }
    } else if op.Rehash? {
      LeastFits(growthFactor, op.count, |m|, v.maxLoad, s, maxBuckets);
    } else if op.Reserve? {
      ReserveFits(growthFactor, op.count, |m|, v.maxLoad, s, maxBuckets);
    }
  }

  ghost predicate CmdFits<K, V>(cmd: Cmd<K, V>, maxBuckets: nat) {
    cmd.Call? ==> OpFits(cmd.op, maxBuckets)
  }

  lemma ActFits<K, V>(growthFactor: nat, maxBuckets: nat, cfg: Config<K>, b: seq<Bucket<K, V>>, cmd: Cmd<K, V>,
                      v: View, m: map<K, V>, act: Act<K, V>, s: nat)
    requires IsPow2(growthFactor) && growthFactor >= 2 && ViewOk(v) && !v.grow
    requires |m| <= s && RoomForAll(growthFactor, s, maxBuckets) && CmdFits(cmd, maxBuckets)
    requires ComesTo(cfg, b, cmd, act)
    ensures !ActRefused(growthFactor, maxBuckets, v, m, act)
  {
    hide ViewOk, RoomForAll, Refused, IsPow2;
    if act.Does? { OneFits(growthFactor, maxBuckets, v, m, act.op, s); }
  }

  lemma NoGrowth<K, V>(growthFactor: nat, v: View, m: map<K, V>, act: Act<K, V>, v': View)
    requires ViewOk(v) && !v.grow && ActBecomes(growthFactor, v, m, act, false, v')
    requires |m| < DIST_FROM_IDEAL_BUCKET_LIMIT
    ensures !v'.grow
  {
    hide ViewOk, Asked;
  }

  lemma ActSize<K, V>(m: map<K, V>, acts: seq<Act<K, V>>, refused: seq<bool>)
    requires |acts| == |refused|
    ensures |MapAfter(Robin(), m, acts, refused)| <= |m| + |acts|
  {
    hide After, MapAfter;
    forall i: nat | i < |acts| ensures OneMoreAt(Robin(), m, acts, refused, i) {
      var before := MapAfter(Robin(), m, acts[..i], refused[..i]);
      match acts[i] {
        case Does(op) => OneMoreKey(before, op);
        case Removes(keys) => FewerKeys(before, keys);
        case _ =>
      }
    }
    SizeGrows(Robin(), m, acts, refused);
  }

  lemma {:induction false} SmallRunFits<K, V>(cfg: Config<K>, growthFactor: nat, maxBuckets: nat, m: map<K, V>,
                                              cmds: seq<Cmd<K, V>>, answers: seq<Answer<V>>, tr: Trace<K, V>, i: nat)
    requires TraceOk(cfg, growthFactor, maxBuckets, m, cmds, answers, tr) && i <= |cmds|
    requires IsPow2(growthFactor) && growthFactor >= 2 && !tr.views[0].grow
    requires |m| + |cmds| <= DIST_FROM_IDEAL_BUCKET_LIMIT && RoomForAll(growthFactor, |m| + |cmds|, maxBuckets)
    requires forall j :: 0 <= j < |cmds| ==> CmdFits(cmds[j], maxBuckets)
    ensures !tr.views[i].grow && forall j :: 0 <= j < i ==> !tr.refused[j]
  {
    hide Traced, AnswersAsMap, ComesTo, CmdFits, RoomForAll, IsPow2, MapAfter, ViewOk, ActRefused, ActBecomes;
    if i > 0 {
      var j: nat := i - 1;
      SmallRunFits(cfg, growthFactor, maxBuckets, m, cmds, answers, tr, j);
      TracedAt(Steps(growthFactor, maxBuckets), Robin(), m, tr.acts, tr.views, tr.refused, j);
      var before := MapAfter(Robin(), m, tr.acts[..j], tr.refused[..j]);
      StepIs(growthFactor, maxBuckets, tr.views[j], before, tr.acts[j], tr.refused[j], tr.views[i]);
      ActSize(m, tr.acts[..j], tr.refused[..j]);
      ActFits(growthFactor, maxBuckets, cfg, tr.layouts[j], cmds[j], tr.views[j], before, tr.acts[j], |m| + |cmds|);
      NoGrowth(growthFactor, tr.views[j], before, tr.acts[j], tr.views[i]);
    }
  }

  /**
    A run that never has more than 4096 elements, on a table that was not about to grow: with room for ten
    times the elements, growth included, nothing is refused and every answer is the one of the finite map.
   */
  method RunSmall<K(==, !new), V>(t: RobinTable.Table<K, V>, cmds: seq<Cmd<K, V>>)
    returns (answers: seq<Answer<V>>, ghost layouts: seq<seq<Bucket<K, V>>>, ghost acts: seq<Act<K, V>>)
    requires t.Valid() && !t.growOnNextInsert
    requires |t.model| + |cmds| <= 4096
    requires RoomForAll(t.growthFactor, |t.model| + |cmds|, t.maxBuckets)
    requires forall i :: 0 <= i < |cmds| ==> CmdFits(cmds[i], t.maxBuckets)
    modifies t
    ensures t.Valid() && |answers| == |cmds| && AllComeTo(t.cfg, layouts, cmds, acts)
    ensures |layouts| == |cmds| + 1 && layouts[0] == old(t.buckets) && layouts[|cmds|] == t.buckets
    ensures AllAsExpected(Robin(), old(t.model), acts, answers) && t.model == MapOf(Robin(), old(t.model), acts)
  {
    hide Traced, RoomForAll, CmdFits, AllAsExpected, AnswersAsMap, MapAfter, MapOf, Sound, AllComeTo;
    ghost var m := t.model;
    var a;
    ghost var tr;
    a, tr := Run(t, cmds);
    SmallRunFits(t.cfg, t.growthFactor, t.maxBuckets, m, cmds, a, tr, |cmds|);
    NothingRefused(Robin(), m, tr.acts, a, tr.refused);
    answers, layouts, acts := a, tr.layouts, tr.acts;
  }

  // ---------- inputs to know about ----------

  // Four buckets, every hash 3: key 1 at home in bucket 3, key 2 one step further, around the end.
  const WRAPPED: seq<Bucket<int, int>> := [Full(1, 0, 2, 20), Empty, Empty, Full(0, 0, 1, 10)]

  lemma WrappedHolds()
    ensures Holds(WRAPPED, Empty, map[1 := 10, 2 := 20])
  {
    var b := WRAPPED;
    var b1, b2, b3 := [b[0]], [b[0], b[1]], [b[0], b[1], b[2]];
    assert b1[..0] == [] && b2[..1] == b1 && b3[..2] == b2 && b[..3] == b3;
    assert Count(b1) == 1 && Count(b2) == 1 && Count(b3) == 1 && Count(b) == 2;
    assert |map[1 := 10, 2 := 20]| == 2;
    assert b[0].key == 2 && b[3].key == 1;
  }

  /**
    A valid table on which erasing the range from bucket 3 to the end loses key 2: the range does
    not pass Restores.
   */
  lemma RangeEraseCanLoseKeys()
    ensures var cfg := Config((k: int) => 3, false, false);
            Sound(cfg, WRAPPED, map[1 := 10, 2 := 20]) && !RobinErase.Restores(WRAPPED, 3, 4)
  {
    hide Holds;
    WrappedHolds();
    var cfg := Config((k: int) => 3, false, false);
    assert forall i :: 0 <= i < 4 ==> OrderedAt(WRAPPED, i) && Placed(cfg, 4, WRAPPED[i], i);
  }

  /**
    A valid table, and an absent key for which find_guaranteed returns the entry of another key.
   */
  lemma GuaranteedCanMislead()
    ensures var cfg := Config((k: int) => 0, true, true);
            var b := [Full(0, 0, 1, 10), Empty];
            && Sound(cfg, b, map[1 := 10])
            && !HasKey(b, 2) && |RobinGuaranteed.Candidates(cfg, b, 2)| == 1
  {
    hide Holds, Count, RobinGuaranteed.Candidates;
    var cfg := Config((k: int) => 0, true, true);
    var b := [Full(0, 0, 1, 10), Empty];
    LoneHolds(b);
    LoneCandidate(cfg, b);
    assert forall i :: 0 <= i < 2 ==> OrderedAt(b, i) && Placed(cfg, 2, b[i], i);
  }

  lemma LoneHolds(b: seq<Bucket<int, int>>)
    requires b == [Full(0, 0, 1, 10), Empty]
    ensures Holds(b, Empty, map[1 := 10]) && !HasKey(b, 2)
  {
    assert b[..1][..0] == [] && b[..1] == [b[0]];
    assert Count(b) == 1;
    assert b[0].key == 1;
  }

  lemma LoneCandidate(cfg: Config<int>, b: seq<Bucket<int, int>>)
    requires cfg == Config((k: int) => 0, true, true) && b == [Full(0, 0, 1, 10), Empty]
    ensures |RobinGuaranteed.Candidates(cfg, b, 2)| == 1
  {
    assert RobinGuaranteed.ProbeLen(b, 0, 0) == 1;
    assert RobinGuaranteed.Matches(b, 0, 0, 0) == [];
    assert RobinGuaranteed.Matches(b, 0, 1, 0) == [0];
  }

  // 2^32 buckets, key 1 in its home 2^31 and no other.
  ghost function FarEntry(): (b: seq<Bucket<int, int>>)
    ensures |b| == 2 * INT_LIMIT && b[INT_LIMIT] == Full(0, INT_LIMIT, 1, 10)
    ensures forall i :: 0 <= i < |b| && i != INT_LIMIT ==> b[i] == Empty
  {
    seq(2 * INT_LIMIT, _ => Empty)[INT_LIMIT := Full(0, INT_LIMIT, 1, 10)]
  }

  /**
    A valid table of 2^32 buckets, and a present key that find_guaranteed does not find.
   */
  lemma GuaranteedCanStray()
    ensures var cfg := Config((k: int) => INT_LIMIT, true, true);
            && Sound(cfg, FarEntry(), map[1 := 10])
            && !RobinGuaranteed.AnswersAsFind(cfg, FarEntry(), 1)
  {
    hide Holds, FarEntry;
    var cfg := Config((k: int) => INT_LIMIT, true, true);
    var b := FarEntry();
    FarHolds();
    assert forall i :: 0 <= i < |b| ==> OrderedAt(b, i) && Placed(cfg, |b|, b[i], i);
    FarCandidate(cfg);
  }

  lemma FarHolds()
    ensures Holds(FarEntry(), Empty, map[1 := 10])
  {
    var blank: seq<Bucket<int, int>> := seq(2 * INT_LIMIT, _ => Empty);
    AllEmptyCount(blank);
    CountUpdate(blank, INT_LIMIT, Full(0, INT_LIMIT, 1, 10));
    hide Count;
    assert FarEntry()[INT_LIMIT].key == 1;
  }

  lemma FarCandidate(cfg: Config<int>)
    requires cfg == Config((k: int) => INT_LIMIT, true, true)
    ensures RobinGuaranteed.Candidates(cfg, FarEntry(), 1) == [INT_LIMIT]
  {
    hide FarEntry;
    var b := FarEntry();
    assert RobinGuaranteed.ProbeLen(b, INT_LIMIT, 1) == 1;
    assert RobinGuaranteed.ProbeLen(b, INT_LIMIT, 0) == 1;
    assert RobinGuaranteed.Matches(b, INT_LIMIT, 0, INT_LIMIT) == [];
    assert RobinGuaranteed.Matches(b, INT_LIMIT, 1, INT_LIMIT) == [INT_LIMIT];
  }
}
