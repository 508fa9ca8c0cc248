/**
  The asynchronous reader: a worker thread and its caller, sharing a mutex and two condition
  variables.  Each step below is one critical section; a run is any interleaving of them, with
  spurious wake-ups and reads that throw.
 */
module CsvAsync {

  // The worker is about to test its wait condition, asleep in wait, or has left its function.
  datatype Worker = Ready | Asleep | Exited

  // The caller has no read outstanding, has started one, is about to test the condition of
  // finish_read, sleeps there, has set termination_requested, has notified, or has joined.
  datatype Caller = Idle | Started | Finishing | Sleeping | Closing | Joining | Closed

  // What finish_read gives back.
  datatype Outcome = Bytes(data: seq<char>) | Rethrown

  datatype State = State(
    worker: Worker,
    caller: Caller,
    desired: int,               // desired_byte_count
    readCount: int,             // read_byte_count
    readError: bool,            // read_error is set
    terminate: bool,            // termination_requested
    block: seq<char>,           // the bytes in the buffer handed to start_read
    source: seq<char>,          // what the byte source still has
    requests: seq<nat>,         // the counts start_read was called with
    outcomes: seq<Outcome>      // what the calls of finish_read have given back
  )

  datatype Step =
    | WorkerTest                // the worker tests its condition, and reads if asked to
    | WorkerFails               // the same, and the byte source throws
    | WorkerWakes               // spurious wake-up
    | StartRead(count: nat)
    | EnterFinish               // the caller calls finish_read
    | CallerTest                // the caller tests the condition of finish_read
    | CallerWakes               // spurious wake-up
    | RequestEnd                // the destructor sets the flag
    | NotifyEnd                 // and notifies the worker
    | Join

  function Init(source: seq<char>): State {
    State(Ready, Idle, -1, -1, false, false, [], source, [], [])
  }

  function Min(a: nat, b: nat): nat {
    if a < b then a else b
  }

  // notify_one on the condition the worker, or the caller, waits for.
  function WakeWorker(w: Worker): Worker {
    if w.Asleep? then Ready else w
  }

  function WakeCaller(c: Caller): Caller {
    if c.Sleeping? then Finishing else c
  }

  predicate Enabled(s: State, step: Step) {
    match step
    case WorkerTest => s.worker.Ready?
    case WorkerFails => s.worker.Ready? && !s.terminate && s.desired != -1
    case WorkerWakes => s.worker.Asleep?
    case StartRead(count) => s.caller.Idle? && count > 0
    case EnterFinish => s.caller.Started?
    case CallerTest => s.caller.Finishing?
    case CallerWakes => s.caller.Sleeping?
    case RequestEnd => s.caller.Idle? || s.caller.Started?
    case NotifyEnd => s.caller.Closing?
    case Join => s.caller.Joining? && s.worker.Exited?
  }

  function Do(s: State, step: Step): State
    requires Enabled(s, step)
  {
    match step
    case WorkerTest =>
      if s.terminate then s.(worker := Exited)
      else if s.desired == -1 then s.(worker := Asleep)
      else
        var r := if s.desired < 0 then 0 else Min(s.desired, |s.source|);
        s.(readCount := r, desired := -1, block := s.source[..r], source := s.source[r..],
           worker := if r == 0 then Exited else Ready, caller := WakeCaller(s.caller))
    case WorkerFails => s.(readError := true, worker := Exited, caller := WakeCaller(s.caller))
    case WorkerWakes => s.(worker := Ready)
    case StartRead(count) =>
      s.(desired := count, readCount := -1, worker := WakeWorker(s.worker), caller := Started,
         requests := s.requests + [count])
    case EnterFinish => s.(caller := Finishing)
    case CallerTest =>
      if s.readCount == -1 && !s.readError then s.(caller := Sleeping)
      else s.(caller := Idle, outcomes := s.outcomes + [if s.readError then Rethrown else Bytes(s.block)])
    case CallerWakes => s.(caller := Finishing)
    case RequestEnd => s.(terminate := true, caller := Closing)
    case NotifyEnd => s.(worker := WakeWorker(s.worker), caller := Joining)
    case Join => s.(caller := Closed)
  }

  // The last call of finish_read has reported the end of the input.
  predicate SawEnd(s: State) {
    |s.outcomes| > 0 && s.outcomes[|s.outcomes| - 1] == Bytes([])
  }

  // The last call of finish_read has thrown.
  predicate Failed(s: State) {
    |s.outcomes| > 0 && s.outcomes[|s.outcomes| - 1] == Rethrown
  }

  // ---------- what holds in every interleaving, whatever the caller does ----------

  // A read has been started and not yet collected.
  predicate Outstanding(s: State) {
    s.caller.Started? || s.caller.Finishing? || s.caller.Sleeping?
  }

  // finish_read waits for a read that nobody will do.
  predicate Stuck(s: State) {
    (s.caller.Finishing? || s.caller.Sleeping?) && s.worker.Exited? && s.readCount == -1 && !s.readError
  }

  ghost predicate Inv(s: State) {
    && s.desired >= -1 && s.desired != 0 && s.readCount >= -1
    && (s.worker.Asleep? ==> s.desired == -1 && (!s.terminate || s.caller.Closing?))
    && (s.terminate <==> s.caller.Closing? || s.caller.Joining? || s.caller.Closed?)
    && (s.worker.Exited? ==> s.terminate || s.readError || s.readCount == 0 || SawEnd(s))
    && (s.readError || s.readCount == 0 || SawEnd(s) ==> s.worker.Exited?)
    && (Outstanding(s) && !SawEnd(s) ==>
          s.readError || (s.readCount == -1 && s.desired > 0 && s.worker.Ready?)
            || (s.readCount == |s.block| && s.desired == -1))
    && (Outstanding(s) && SawEnd(s) ==> s.readCount == -1)
    && (SawEnd(s) ==> !s.readError)
    && (s.caller.Sleeping? ==> s.readCount == -1 && !s.readError)
    && (s.caller.Closed? ==> s.worker.Exited?)
    && (s.caller.Idle? && s.readCount == 0 ==> SawEnd(s) || Failed(s))
    && (s.caller.Idle? && !s.worker.Exited? ==> s.desired == -1)
    && (Failed(s) ==> s.readError)
  }

  lemma StepKeepsInv(s: State, step: Step)
    requires Inv(s) && Enabled(s, step)
    ensures Inv(Do(s, step))
  {}

  // ---------- the reads are those of the synchronous reader ----------

  // What the source has left after these reads.
  function SyncRest(source: seq<char>, requests: seq<nat>): seq<char> {
    if requests == [] then source
    else
      var rest := SyncRest(source, requests[..|requests| - 1]);
      rest[Min(requests[|requests| - 1], |rest|)..]
  }

  // What these reads give.
  function SyncReads(source: seq<char>, requests: seq<nat>): (r: seq<Outcome>)
    ensures |r| == |requests|
  {
    if requests == [] then []
    else
      var rest := SyncRest(source, requests[..|requests| - 1]);
      SyncReads(source, requests[..|requests| - 1]) + [Bytes(rest[..Min(requests[|requests| - 1], |rest|)])]
  }

  // The outcomes before the first exception.
  function Good(outcomes: seq<Outcome>): seq<Outcome> {
    if |outcomes| > 0 && outcomes[|outcomes| - 1] == Rethrown then Good(outcomes[..|outcomes| - 1]) else outcomes
  }

  // While nothing has failed: the outcomes are the synchronous reads, and a read that is
  // outstanding is the next of them, done or still to be done.
  ghost predicate Live(s: State, source: seq<char>) {
    && |s.requests| == |s.outcomes| + (if Outstanding(s) then 1 else 0)
    && var done := s.requests[..|s.outcomes|];
       && s.outcomes == SyncReads(source, done)
       && if Outstanding(s) && s.readCount != -1 then
            s.source == SyncRest(source, s.requests) && SyncReads(source, s.requests) == s.outcomes + [Bytes(s.block)]
          else
            s.source == SyncRest(source, done)
              && (Outstanding(s) && !SawEnd(s) ==> s.desired == s.requests[|s.outcomes|])
  }

  ghost predicate Synchronous(s: State, source: seq<char>) {
    && (!s.terminate && !s.readError ==> Live(s, source))
    && |Good(s.outcomes)| <= |s.requests| && Good(s.outcomes) == SyncReads(source, s.requests[..|Good(s.outcomes)|])
  }

  lemma OneMore(source: seq<char>, requests: seq<nat>, count: nat)
    ensures var rest, r := SyncRest(source, requests), Min(count, |SyncRest(source, requests)|);
            && SyncRest(source, requests + [count]) == rest[r..]
            && SyncReads(source, requests + [count]) == SyncReads(source, requests) + [Bytes(rest[..r])]
  {
    assert (requests + [count])[..|requests|] == requests;
  }

  lemma StartKeepsLive(s: State, count: nat, source: seq<char>)
    requires Inv(s) && Live(s, source) && Enabled(s, StartRead(count))
    ensures Live(Do(s, StartRead(count)), source)
  {
    hide Inv, SyncReads, SyncRest;
    assert (s.requests + [count])[..|s.outcomes|] == s.requests[..|s.outcomes|];
  }

  lemma ReadKeepsLive(s: State, source: seq<char>)
    requires Inv(s) && Live(s, source) && s.worker.Ready? && !s.terminate
    ensures Live(Do(s, WorkerTest), source)
  {
    hide SyncReads, SyncRest;
    if s.desired != -1 {
      var done := s.requests[..|s.outcomes|];
      assert Outstanding(s) && s.readCount == -1 && !SawEnd(s);
      assert s.requests == done + [s.desired];
      OneMore(source, done, s.desired);
    }
  }

  lemma CollectKeepsLive(s: State, source: seq<char>)
    requires Inv(s) && Live(s, source) && s.caller.Finishing? && !s.readError
    ensures Live(Do(s, CallerTest), source)
  {
    hide SyncReads, SyncRest;
    assert s.requests[..|s.requests|] == s.requests;
  }

  lemma StepKeepsSynchronous(s: State, step: Step, source: seq<char>)
    requires Inv(s) && Synchronous(s, source) && Enabled(s, step)
    ensures Synchronous(Do(s, step), source)
  {
    hide SyncReads, SyncRest, Good;
    var s' := Do(s, step);
    GoodKept(s, step);
    if !s'.terminate && !s'.readError {
      match step {
        case StartRead(count) => StartKeepsLive(s, count, source);
        case CallerTest => CollectKeepsLive(s, source);
        case WorkerTest => ReadKeepsLive(s, source);
        case _ =>
      }
      StepKeepsInv(s, step);
      LiveIsGood(s', source);
    } else {
      hide Live;
      var k := |Good(s.outcomes)|;
      assert |s'.requests| >= |s.requests| && s'.requests[..k] == s.requests[..k];
    }
  }

  // While nothing has failed, every outcome is good.
  lemma LiveIsGood(s: State, source: seq<char>)
    requires Inv(s) && Live(s, source) && !s.readError
    ensures Good(s.outcomes) == s.outcomes
  {}

  lemma GoodKept(s: State, step: Step)
    requires Inv(s) && Enabled(s, step)
    ensures var s' := Do(s, step); s'.terminate || s'.readError ==> Good(s'.outcomes) == Good(s.outcomes)
  {
    var s' := Do(s, step);
    if step.CallerTest? && s.readError {
      assert s'.outcomes[..|s.outcomes|] == s.outcomes;
    }
  }

  // ---------- runs ----------

  // Any interleaving of critical sections of the two threads.
  ghost predicate ValidRun(s: State, steps: seq<Step>)
    decreases |steps|
  {
    steps == [] || (Enabled(s, steps[0]) && ValidRun(Do(s, steps[0]), steps[1..]))
  }

  function After(s: State, steps: seq<Step>): State
    requires ValidRun(s, steps)
    decreases |steps|
  {
    if steps == [] then s else After(Do(s, steps[0]), steps[1..])
  }

  lemma {:induction false} RunKeeps(s: State, steps: seq<Step>, source: seq<char>)
    requires ValidRun(s, steps) && Inv(s) && Synchronous(s, source)
    ensures Inv(After(s, steps)) && Synchronous(After(s, steps), source)
    decreases |steps|
  {
    hide Inv, Synchronous;
    if steps != [] {
      StepKeepsInv(s, steps[0]);
      StepKeepsSynchronous(s, steps[0], source);
      RunKeeps(Do(s, steps[0]), steps[1..], source);
    }
  }

  /**
    In every interleaving, whatever the caller does: finish_read sleeps on a worker that has exited
    exactly when an earlier call has reported the end of the input; otherwise the worker's next step
    ends the wait; and what finish_read has returned is what synchronous reads return.
   */
  lemma EveryInterleaving(source: seq<char>, steps: seq<Step>)
    requires ValidRun(Init(source), steps)
    ensures var s := After(Init(source), steps);
            && (Stuck(s) <==> (s.caller.Finishing? || s.caller.Sleeping?) && SawEnd(s))
            && (s.caller.Sleeping? && s.worker.Exited? ==> SawEnd(s))
            && (s.caller.Sleeping? && !SawEnd(s) ==>
                  s.worker.Ready? && Do(s, WorkerTest).caller.Finishing? && Do(s, WorkerTest).readCount != -1)
            && |Good(s.outcomes)| <= |s.requests|
            && Good(s.outcomes) == SyncReads(source, s.requests[..|Good(s.outcomes)|])
  {
    RunKeeps(Init(source), steps, source);
  }

  // No interleaving deadlocks but that one: until the destructor has joined, some thread can take a step
  // that is not a spurious wake-up, and a worker that is being joined exits in its next step.
  lemma NoDeadlock(source: seq<char>, steps: seq<Step>) returns (step: Step)
    requires ValidRun(Init(source), steps)
    requires var s := After(Init(source), steps); !s.caller.Closed? && !Stuck(s)
    ensures var s := After(Init(source), steps);
            && Enabled(s, step) && !step.WorkerWakes? && !step.CallerWakes?
            && (s.caller.Joining? ==> Do(s, step).caller.Closed? || Do(s, step).worker.Exited?)
  {
    var s := After(Init(source), steps);
    RunKeeps(Init(source), steps, source);
    step := match s.caller
      case Idle => RequestEnd
      case Started => RequestEnd
      case Finishing => CallerTest
      case Sleeping => WorkerTest
      case Closing => NotifyEnd
      case Joining => if s.worker.Exited? then Join else WorkerTest
      case Closed => Join;
  }

  lemma {:induction false} StuckForever(s: State, steps: seq<Step>)
    requires Stuck(s) && ValidRun(s, steps)
    ensures Stuck(After(s, steps)) && After(s, steps).outcomes == s.outcomes
    decreases |steps|
  {
    if steps != [] { StuckForever(Do(s, steps[0]), steps[1..]); }
  }

  /**
    A call of finish_read can return exactly when no earlier call has reported the end of the input.
   */
  lemma ReturnsIff(source: seq<char>, steps: seq<Step>)
    requires ValidRun(Init(source), steps) && After(Init(source), steps).caller.Started?
    ensures var s := After(Init(source), steps);
            !SawEnd(s) <==>
                exists more :: ValidRun(Do(s, EnterFinish), more)
                  && |After(Do(s, EnterFinish), more).outcomes| > |s.outcomes|
  {
    var s := After(Init(source), steps);
    RunKeeps(Init(source), steps, source);
    var t := Do(s, EnterFinish);
    if SawEnd(s) {
      forall more | ValidRun(t, more) ensures |After(t, more).outcomes| == |s.outcomes| {
        StuckForever(t, more);
      }
    } else {
      var more := CanReturn(s);
    }
  }

  lemma CanReturn(s: State) returns (more: seq<Step>)
    requires Inv(s) && s.caller.Started? && !SawEnd(s)
    ensures ValidRun(Do(s, EnterFinish), more) && |After(Do(s, EnterFinish), more).outcomes| > |s.outcomes|
  {
    var t := Do(s, EnterFinish);
    if t.readCount != -1 || t.readError {
      more := [CallerTest];
      OneStep(t, CallerTest);
    } else {
      more := [WorkerTest, CallerTest];
      var t1 := Do(t, WorkerTest);
      OneStep(t1, CallerTest);
      assert more[1..] == [CallerTest];
    }
  }

  lemma OneStep(s: State, step: Step)
    requires Enabled(s, step)
    ensures ValidRun(s, [step]) && After(s, [step]) == Do(s, step)
  {
    assert [step][1..] == [];
  }

  // On an empty input: one read that reports the end, and one more that is started.
  const AFTER_THE_END: seq<Step> := [StartRead(1), WorkerTest, EnterFinish, CallerTest, StartRead(1)]

  /**
    A run after which finish_read never returns.
   */
  lemma CanWaitForever()
    ensures ValidRun(Init([]), AFTER_THE_END)
    ensures var s := After(Init([]), AFTER_THE_END);
            && s.caller.Started? && SawEnd(s) && !s.readError
            && Stuck(Do(s, EnterFinish))
  {
    var t := AFTER_THE_END;
    var s0 := Init([]);
    var s1 := Do(s0, t[0]);
    var s2 := Do(s1, t[1]);
    var s3 := Do(s2, t[2]);
    var s4 := Do(s3, t[3]);
    OneStep(s4, t[4]);
    assert t[1..][1..][1..][1..] == [t[4]];
    assert t[1..][1..][1..][0] == t[3] && t[1..][1..][0] == t[2] && t[1..][0] == t[1];
    assert ValidRun(s3, t[1..][1..][1..]) && ValidRun(s2, t[1..][1..]) && ValidRun(s1, t[1..]);
  }

  // ---------- one call of finish_read, in any interleaving ----------

  // The steps of the worker and of a caller inside finish_read; the byte source does not throw.
  predicate InCall(step: Step) {
    step.WorkerTest? || step.WorkerWakes? || step.EnterFinish? || step.CallerTest? || step.CallerWakes?
  }

  ghost predicate Call(s: State, steps: seq<Step>) {
    ValidRun(s, steps) && forall i :: 0 <= i < |steps| ==> InCall(steps[i])
  }

  // The call has returned.
  ghost predicate Returned(s: State, steps: seq<Step>) {
    Call(s, steps) && After(s, steps).caller.Idle?
  }

  // The same read is outstanding, or has been collected.
  predicate SameRead(s: State, t: State) {
    && t.requests == s.requests && t.readError == s.readError && t.terminate == s.terminate
    && if t.caller.Idle? then |t.outcomes| == |s.outcomes| + 1 && t.outcomes[..|s.outcomes|] == s.outcomes
       else Outstanding(t) && t.outcomes == s.outcomes
  }

  lemma {:induction false} CallKeepsRead(s0: State, s: State, steps: seq<Step>)
    requires SameRead(s0, s) && Call(s, steps) && !s0.terminate
    ensures SameRead(s0, After(s, steps))
    decreases |steps|
  {
    if steps != [] {
      var s1 := Do(s, steps[0]);
      assert InCall(steps[0]);
      OneStepKeepsRead(s0, s, steps[0]);
      forall i | 0 <= i < |steps[1..]| ensures InCall(steps[1..][i]) { assert steps[1..][i] == steps[i + 1]; }
      CallKeepsRead(s0, s1, steps[1..]);
    }
  }

  lemma OneStepKeepsRead(s0: State, s: State, step: Step)
    requires SameRead(s0, s) && Enabled(s, step) && InCall(step) && !s0.terminate
    ensures SameRead(s0, Do(s, step))
  {
    var t := Do(s, step);
    if step.CallerTest? && t.caller.Idle? { assert t.outcomes[..|s0.outcomes|] == s0.outcomes; }
  }

  // What has not been collected yet.
  function Uncollected(s: State, source: seq<char>): seq<char>
    requires |s.outcomes| <= |s.requests|
  {
    SyncRest(source, s.requests[..|s.outcomes|])
  }

  // A read is started and its finish_read will not be stuck.
  ghost predicate ReadyToFinish(s: State, source: seq<char>) {
    && Inv(s) && Synchronous(s, source) && s.caller.Started? && !SawEnd(s) && !s.readError
  }

  /**
    Every interleaving in which finish_read returns makes it return the next bytes of the source.
   */
  lemma FinishReturns(s: State, steps: seq<Step>, source: seq<char>)
    requires ReadyToFinish(s, source) && Returned(s, steps)
    ensures |s.requests| == |s.outcomes| + 1
    ensures var t := After(s, steps);
            var rest := Uncollected(s, source);
            var r := Min(s.requests[|s.outcomes|], |rest|);
            && Inv(t) && Synchronous(t, source) && t.caller.Idle? && !t.readError && !t.terminate
            && t.requests == s.requests && t.outcomes == s.outcomes + [Bytes(rest[..r])]
            && Uncollected(t, source) == rest[r..]
  {
    hide SyncReads, SyncRest, Good;
    RunKeeps(s, steps, source);
    CallKeepsRead(s, s, steps);
    var t := After(s, steps);
    var done := s.requests[..|s.outcomes|];
    assert s.requests == done + [s.requests[|s.outcomes|]];
    OneMore(source, done, s.requests[|s.outcomes|]);
    assert t.requests[..|t.outcomes|] == s.requests;
  }

  /**
    In no interleaving does that finish_read wait on a worker that has exited.
   */
  lemma CallNeverStuck(s: State, steps: seq<Step>, source: seq<char>)
    requires ReadyToFinish(s, source) && Call(s, steps) && !After(s, steps).caller.Idle?
    ensures var t := After(s, steps);
            && !Stuck(t)
            && (t.caller.Sleeping? ==>
                t.worker.Ready? && Do(t, WorkerTest).caller.Finishing? && Do(t, WorkerTest).readCount != -1)
  {
    hide Synchronous;
    RunKeeps(s, steps, source);
    CallKeepsRead(s, s, steps);
  }

  // A scheduler lets every call of finish_read return, by whatever interleaving.
  ghost predicate Fair(scheduler: State -> seq<Step>) {
    forall s: State :: Inv(s) && s.caller.Started? && !SawEnd(s) && !s.readError ==> Returned(s, scheduler(s))
  }

  // One such scheduler: the worker first, if it has not read yet.
  function Prompt(s: State): seq<Step> {
    if s.readCount != -1 then [EnterFinish, CallerTest] else [WorkerTest, EnterFinish, CallerTest]
  }

  lemma PromptIsFair()
    ensures Fair(Prompt)
  {
    forall s: State | Inv(s) && s.caller.Started? && !SawEnd(s) && !s.readError ensures Returned(s, Prompt(s)) {
      var s1 := if s.readCount != -1 then s else Do(s, WorkerTest);
      var s2 := Do(s1, EnterFinish);
      OneStep(s2, CallerTest);
      assert [EnterFinish, CallerTest][1..] == [CallerTest];
      assert ValidRun(s1, [EnterFinish, CallerTest]) && After(s1, [EnterFinish, CallerTest]) == Do(s2, CallerTest);
      assert [WorkerTest, EnterFinish, CallerTest][1..] == [EnterFinish, CallerTest];
    }
  }
}
