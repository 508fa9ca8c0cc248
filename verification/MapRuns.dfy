/**
  What a user of a hash table sees: a run of operations and their answers, judged against a
  finite map.  What a run means is defined for operations of any type, since the tables do not all have
  the same.
 */
module MapRuns {
  import opened FiniteFacts
  import opened Options

  datatype Op<K, V> =
    | Insert(key: K, val: V)
    | InsertOrAssign(key: K, val: V)
    | Erase(key: K)
    | EraseAt(key: K)       // erase(find(key)), when there is such an entry
    | Find(key: K)
    | Clear
    | Rehash(count: nat)
    | Reserve(count: nat)
    | SetMaxLoad(factor: real)

  datatype Answer<V> = Added | AlreadyThere | NbErased(n: nat) | Found(val: Option<V>) | Done | LengthError

  // What the finite map answers.
  function Expected<K, V>(m: map<K, V>, op: Op<K, V>): Answer<V> {
    match op
    case Insert(k, _) => if k in m then AlreadyThere else Added
    case InsertOrAssign(k, _) => if k in m then AlreadyThere else Added
    case Erase(k) => NbErased(if k in m then 1 else 0)
    case EraseAt(k) => NbErased(if k in m then 1 else 0)
    case Find(k) => Found(if k in m then Some(m[k]) else None)
    case _ => Done
  }

  // What the finite map becomes.
  function After<K, V>(m: map<K, V>, op: Op<K, V>): map<K, V> {
    match op
    case Insert(k, v) => if k in m then m else m[k := v]
    case InsertOrAssign(k, v) => m[k := v]
    case Erase(k) => m - {k}
    case EraseAt(k) => m - {k}
    case Clear => map[]
    case _ => m
  }

  // What operations of type C mean to a finite map: the answer, and the map afterwards.
  datatype Meaning<!K, !V, !C> = Meaning(answer: (map<K, V>, C) -> Answer<V>, after: (map<K, V>, C) -> map<K, V>)

  ghost function Usual<K, V>(): Meaning<K, V, Op<K, V>> {
    Meaning((m: map<K, V>, op: Op<K, V>) => Expected(m, op), (m: map<K, V>, op: Op<K, V>) => After(m, op))
  }

  // The operation stores a key that the map does not have.
  predicate StoresNew<K, V>(m: map<K, V>, op: Op<K, V>) {
    (op.Insert? || op.InsertOrAssign?) && op.key !in m
  }

  // The finite map after a run in which some operations were refused with a length error, and changed
  // nothing.
  ghost function MapAfter<K, V, C>(sem: Meaning<K, V, C>, m: map<K, V>, ops: seq<C>, refused: seq<bool>): map<K, V>
    requires |ops| == |refused|
  {
    if |ops| == 0 then m
    else
      var l := |ops| - 1;
      var before := MapAfter(sem, m, ops[..l], refused[..l]);
      if refused[l] then before else sem.after(before, ops[l])
  }

  // Every answer of the run is a length error when the operation was refused, and the answer of the
  // finite map at that point when it was not.
  ghost predicate AnswersAsMap<K, V, C>(sem: Meaning<K, V, C>, m: map<K, V>, ops: seq<C>, answers: seq<Answer<V>>,
                                        refused: seq<bool>)
    requires |ops| == |answers| == |refused|
  {
    |ops| == 0 ||
    var l := |ops| - 1;
    && AnswersAsMap(sem, m, ops[..l], answers[..l], refused[..l])
    && answers[l] == if refused[l] then LengthError else sem.answer(MapAfter(sem, m, ops[..l], refused[..l]), ops[l])
  }

  lemma RunExtends<K, V, C>(sem: Meaning<K, V, C>, m: map<K, V>, ops: seq<C>, answers: seq<Answer<V>>,
                            refused: seq<bool>, i: nat, answer: Answer<V>, no: bool)
    requires i < |ops| && |answers| == |refused| == i
    requires AnswersAsMap(sem, m, ops[..i], answers, refused)
    requires answer == if no then LengthError else sem.answer(MapAfter(sem, m, ops[..i], refused), ops[i])
    ensures AnswersAsMap(sem, m, ops[..i + 1], answers + [answer], refused + [no])
    ensures MapAfter(sem, m, ops[..i + 1], refused + [no])
         == if no then MapAfter(sem, m, ops[..i], refused) else sem.after(MapAfter(sem, m, ops[..i], refused), ops[i])
  {
    assert ops[..i + 1][..i] == ops[..i];
    assert (answers + [answer])[..i] == answers;
    assert (refused + [no])[..i] == refused;
  }

  // The finite map after a run in which nothing was refused.
  ghost function MapOf<K, V, C>(sem: Meaning<K, V, C>, m: map<K, V>, ops: seq<C>): map<K, V> {
    if |ops| == 0 then m else sem.after(MapOf(sem, m, ops[..|ops| - 1]), ops[|ops| - 1])
  }

  // Every answer is the answer of the finite map.
  ghost predicate AllAsExpected<K, V, C>(sem: Meaning<K, V, C>, m: map<K, V>, ops: seq<C>, answers: seq<Answer<V>>)
    requires |ops| == |answers|
  {
    forall i :: 0 <= i < |ops| ==> answers[i] == sem.answer(MapOf(sem, m, ops[..i]), ops[i])
  }

  lemma {:induction false} NothingRefused<K, V, C>(sem: Meaning<K, V, C>, m: map<K, V>, ops: seq<C>,
                                                   answers: seq<Answer<V>>, refused: seq<bool>)
    requires |ops| == |answers| == |refused| && AnswersAsMap(sem, m, ops, answers, refused)
    requires forall i :: 0 <= i < |ops| ==> !refused[i]
    ensures AllAsExpected(sem, m, ops, answers) && MapAfter(sem, m, ops, refused) == MapOf(sem, m, ops)
  {
    if |ops| > 0 {
      var l := |ops| - 1;
      NothingRefused(sem, m, ops[..l], answers[..l], refused[..l]);
      forall i | 0 <= i < |ops| ensures answers[i] == sem.answer(MapOf(sem, m, ops[..i]), ops[i]) {
        if i < l { assert ops[..l][..i] == ops[..i]; }
      }
    }
  }

  lemma OneMoreKey<K, V>(m: map<K, V>, op: Op<K, V>)
    ensures |After(m, op)| <= |m| + 1
    ensures !StoresNew(m, op) ==> |After(m, op)| <= |m|
  {
    match op
    case Insert(k, v) => if k !in m { AddKey(m, k, v); }
    case InsertOrAssign(k, v) => if k in m { AssignKey(m, k, v); } else { AddKey(m, k, v); }
    case Erase(k) => RemoveKey(m, k);
    case EraseAt(k) => RemoveKey(m, k);
    case _ =>
  }

  // Operation i adds at most one key.
  ghost predicate OneMoreAt<K, V, C>(sem: Meaning<K, V, C>, m: map<K, V>, ops: seq<C>, refused: seq<bool>, i: nat)
    requires i < |ops| == |refused|
  {
    var before := MapAfter(sem, m, ops[..i], refused[..i]);
    |sem.after(before, ops[i])| <= |before| + 1
  }

  lemma {:induction false} SizeGrows<K, V, C>(sem: Meaning<K, V, C>, m: map<K, V>, ops: seq<C>, refused: seq<bool>)
    requires |ops| == |refused| && forall i: nat :: i < |ops| ==> OneMoreAt(sem, m, ops, refused, i)
    ensures |MapAfter(sem, m, ops, refused)| <= |m| + |ops|
  {
    if |ops| > 0 {
      var l: nat := |ops| - 1;
      forall i: nat | i < l ensures OneMoreAt(sem, m, ops[..l], refused[..l], i) {
        assert OneMoreAt(sem, m, ops, refused, i);
        assert ops[..l][..i] == ops[..i] && refused[..l][..i] == refused[..i];
      }
      SizeGrows(sem, m, ops[..l], refused[..l]);
      assert OneMoreAt(sem, m, ops, refused, l);
    }
  }

  lemma UsualSize<K, V>(m: map<K, V>, ops: seq<Op<K, V>>, refused: seq<bool>)
    requires |ops| == |refused|
    ensures |MapAfter(Usual(), m, ops, refused)| <= |m| + |ops|
  {
    hide After, MapAfter;
    forall i: nat | i < |ops| ensures OneMoreAt(Usual(), m, ops, refused, i) {
      OneMoreKey(MapAfter(Usual(), m, ops[..i], refused[..i]), ops[i]);
    }
    SizeGrows(Usual(), m, ops, refused);
  }

  // ---------- traces ----------

  // Step i of a run: what a table says about itself before and after it, and whether it refused, fit.
  ghost predicate StepAt<K, V, C, W>(step: (W, map<K, V>, C, bool, W) -> bool, sem: Meaning<K, V, C>, m: map<K, V>,
                                     ops: seq<C>, views: seq<W>, refused: seq<bool>, i: nat)
    requires i < |ops| == |refused| && |views| == |ops| + 1
  {
    step(views[i], MapAfter(sem, m, ops[..i], refused[..i]), ops[i], refused[i], views[i + 1])
  }

  ghost predicate Traced<K, V, C, W>(step: (W, map<K, V>, C, bool, W) -> bool, sem: Meaning<K, V, C>, m: map<K, V>,
                                     ops: seq<C>, views: seq<W>, refused: seq<bool>)
    requires |ops| == |refused| && |views| == |ops| + 1
  {
    forall i: nat :: i < |ops| ==> StepAt(step, sem, m, ops, views, refused, i)
  }

  lemma NoSteps<K, V, C, W>(step: (W, map<K, V>, C, bool, W) -> bool, sem: Meaning<K, V, C>, m: map<K, V>, ops: seq<C>,
                            views: seq<W>, refused: seq<bool>)
    requires ops == [] && refused == [] && |views| == 1
    ensures Traced(step, sem, m, ops, views, refused)
  {}

  lemma TraceExtends<K, V, C, W>(step: (W, map<K, V>, C, bool, W) -> bool, sem: Meaning<K, V, C>, m: map<K, V>,
                                 ops: seq<C>, views: seq<W>, refused: seq<bool>, i: nat, no: bool, view: W)
    requires i < |ops| && |refused| == i && |views| == i + 1 && Traced(step, sem, m, ops[..i], views, refused)
    requires step(views[i], MapAfter(sem, m, ops[..i], refused), ops[i], no, view)
    ensures Traced(step, sem, m, ops[..i + 1], views + [view], refused + [no])
  {
    hide MapAfter;
    var ops', views', refused' := ops[..i + 1], views + [view], refused + [no];
    forall j: nat | j < i + 1 ensures StepAt(step, sem, m, ops', views', refused', j) {
      assert ops'[..j] == ops[..i][..j] && refused'[..j] == (if j == i then refused else refused[..j]);
      if j == i {
        assert ops[..i][..i] == ops[..i];
      } else {
        assert StepAt(step, sem, m, ops[..i], views, refused, j);
      }
    }
  }

  lemma TracedAt<K, V, C, W>(step: (W, map<K, V>, C, bool, W) -> bool, sem: Meaning<K, V, C>, m: map<K, V>, ops: seq<C>,
                             views: seq<W>, refused: seq<bool>, j: nat)
    requires j < |ops| == |refused| && |views| == |ops| + 1 && Traced(step, sem, m, ops, views, refused)
    ensures step(views[j], MapAfter(sem, m, ops[..j], refused[..j]), ops[j], refused[j], views[j + 1])
  {
    assert StepAt(step, sem, m, ops, views, refused, j);
  }
}
