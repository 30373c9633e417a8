/**
 What the protocol of nnero/thread_pool.cpp gets done: how many workers it starts, that each accepted
 task is run without waiting for a shutdown, and that a shutdown can be called and comes to its end.
 */
module PoolProgress {
  import opened BlockingQueues
  import opened Tasks
  import opened ThreadPools
  import opened PoolResults

  // ---------- How many workers are started ----------

  function Least(a: nat, b: nat): nat {
    if a < b then a else b
  }

  /** A core size that is not positive allows no worker. */
  function Allowed(core: int): nat {
    if core < 0 then 0 else core
  }

  /** One worker for each call of `execute` that has come past its last line, up to the core size. */
  ghost predicate StartedUp(s: Pool) {
    var calls := |s.submitted| - if s.owner.Counting? then 1 else 0;
    && (s.owner.Counting? ==> s.submitted != [])
    && |s.workers| + (if s.owner.Spawning? then 1 else 0) == Least(Allowed(s.core), calls)
  }

  lemma StartedByOwner(s: Pool)
    requires CountExact(s) && ShutdownInOrder(s) && StartedUp(s)
    ensures StartedUp(OwnerStep(s))
  {
  }

  lemma StartedKept(s: Pool, step: Step)
    requires CountExact(s) && ShutdownInOrder(s) && StartedUp(s)
    ensures StartedUp(Next(s, step))
  {
    if step.OwnerMoves? {
      StartedByOwner(s);
    } else if step.WorkerMoves? && step.k < |s.workers| {
      WorkerChanges(s, step.k);
    }
  }

  /**
   In every reachable state in which no `execute` is under way, before, during and after shutdown,
   as many workers have been started as there were calls, up to the core size.
   */
  lemma {:induction false} WorkersStarted(max: nat, core: int, steps: seq<Step>)
    ensures var s := Exec(Start(max, core), steps);
            && StartedUp(s)
            && (!s.owner.Counting? && !s.owner.Spawning? ==>
                  |s.workers| == if core < 0 then 0 else if core < |s.submitted| then core else |s.submitted|)
  {
    ParametersStay(max, core, steps);
    if steps != [] {
      var before := steps[..|steps| - 1];
      WorkersStarted(max, core, before);
      Reachable(max, core, before);
      StartedKept(Exec(Start(max, core), before), steps[|steps| - 1]);
    }
  }

  /** A call of `execute` puts its task at the end of the queue, or is refused when the queue is full. */
  lemma ExecuteSubmits(s: Pool, t: Task)
    requires s.owner.Idle? && !s.shutdown
    ensures var s' := Next(Next(s, Submit(t)), OwnerMoves);
            && s'.submitted == s.submitted + [Submission(t, |s.queue| != s.max)]
            && s'.queue == (if |s.queue| == s.max then s.queue else s.queue + [t])
            && s'.workers == s.workers && s'.ran == s.ran && s'.dequeued == s.dequeued
  {
  }

  // ---------- Tasks are run while the pool is open ----------

  /** What the workers of an open pool have to do before the queue is empty and nothing is held. */
  function Load(pc: WorkerPc): nat {
    match pc
    case Running(_) => 2
    case LoopTest => 1
    case _ => 0
  }

  function Loads(ws: seq<Worker>): nat {
    if ws == [] then 0 else Loads(ws[..|ws| - 1]) + Load(ws[|ws| - 1].pc)
  }

  function OpenMeasure(s: Pool): nat {
    3 * |s.queue| + Loads(s.workers)
  }

  lemma {:induction false} LoadsUpdate(ws: seq<Worker>, k: nat, w: Worker)
    requires k < |ws|
    ensures Loads(ws[k := w]) == Loads(ws) - Load(ws[k].pc) + Load(w.pc)
  {
    var n := |ws| - 1;
    if k < n {
      LoadsUpdate(ws[..n], k, w);
      assert ws[k := w][..n] == ws[..n][k := w];
    } else {
      assert ws[k := w][..n] == ws[..n];
    }
  }

  /** Every accepted task has run exactly once, and none waits. */
  ghost predicate AllRan(s: Pool) {
    && s.queue == [] && s.dequeued == Accepted(s.submitted)
    && (forall i: nat :: RanTimes(s.ran, i) == if i < |s.dequeued| then 1 else 0)
  }

  lemma {:induction false} IdleHoldNothing(ws: seq<Worker>, i: nat)
    requires forall k :: 0 <= k < |ws| ==> !Busy(ws[k].pc)
    ensures HeldTimes(ws, i) == 0
  {
    if ws != [] { IdleHoldNothing(ws[..|ws| - 1], i); }
  }

  lemma NothingLeft(s: Pool)
    requires FirstInFirstOut(s) && HeldOrDone(s) && s.queue == []
    requires forall k :: 0 <= k < |s.workers| ==> !Busy(s.workers[k].pc)
    ensures AllRan(s)
  {
    forall i: nat {
      IdleHoldNothing(s.workers, i);
    }
    assert s.dequeued + [] == s.dequeued;
  }

  /** In an open pool a worker with something to do does it. */
  lemma OpenWorkerAdvances(s: Pool, k: nat)
    requires ShutdownInOrder(s) && !s.shutdown && k < |s.workers|
    requires Busy(s.workers[k].pc) || s.queue != []
    ensures OpenMeasure(WorkerStep(s, k)) < OpenMeasure(s)
    ensures WorkerStep(s, k).owner == s.owner && !WorkerStep(s, k).shutdown
    ensures WorkerStep(s, k).submitted == s.submitted && |WorkerStep(s, k).workers| == |s.workers|
  {
    var s' := WorkerStep(s, k);
    assert !PastLoop(s.workers[k].pc) && !s.workers[k].interrupted;
    LoadsUpdate(s.workers, k, s'.workers[k]);
    assert s'.workers == s.workers[k := s'.workers[k]];
  }

  predicate ByWorkers(steps: seq<Step>) {
    forall i :: 0 <= i < |steps| ==> steps[i].WorkerMoves?
  }

  lemma InvKept(s: Pool, step: Step)
    requires Inv(s)
    ensures Inv(Next(s, step))
  {
    NextKeepsQueue(s, step);
    NextKeepsHeld(s, step);
    NextKeepsOrder(s, step);
  }

  lemma {:induction false} OpenPoolRuns(s: Pool) returns (more: seq<Step>)
    requires Inv(s) && !s.shutdown && (s.queue != [] ==> s.workers != [])
    ensures ByWorkers(more)
    ensures var s' := Exec(s, more);
            AllRan(s') && s'.submitted == s.submitted && s'.owner == s.owner && !s'.shutdown && Inv(s')
    decreases OpenMeasure(s)
  {
    if k :| 0 <= k < |s.workers| && (Busy(s.workers[k].pc) || s.queue != []) {
      OpenWorkerAdvances(s, k);
      InvKept(s, WorkerMoves(k));
      WorkerTakesHead(s, k);
      var rest := OpenPoolRuns(WorkerStep(s, k));
      ExecCons(s, WorkerMoves(k), rest);
      more := [WorkerMoves(k)] + rest;
    } else {
      NothingLeft(s);
      more := [];
    }
  }

  /**
   While the pool is open, its workers can run every task accepted so far, without a shutdown and
   without any further call: from every reachable state between calls, if a worker is allowed.
   */
  lemma TasksGetRun(max: nat, core: int, steps: seq<Step>) returns (more: seq<Step>)
    requires core >= 1
    requires var s := Exec(Start(max, core), steps); s.owner.Idle? && !s.shutdown
    ensures ByWorkers(more)
    ensures var s, s' := Exec(Start(max, core), steps), Exec(Start(max, core), steps + more);
            AllRan(s') && s'.submitted == s.submitted
  {
    var s := Exec(Start(max, core), steps);
    Reachable(max, core, steps);
    ParametersStay(max, core, steps);
    if s.submitted == [] {
      assert s.queue == [];
    }
    more := OpenPoolRuns(s);
    ExecConcat(Start(max, core), steps, more);
  }

  /** What "has run so often" means: the multiplicity in the list of what has run. */
  lemma {:induction false} RanTimesIs(ran: seq<nat>, i: nat)
    ensures RanTimes(ran, i) == multiset(ran)[i]
  {
    if ran != [] {
      var init, x := ran[..|ran| - 1], ran[|ran| - 1];
      RanTimesIs(init, i);
      assert ran == init + [x];
    }
  }

  // ---------- A shutdown can be called and comes to its end ----------

  /** A call of `execute` that is under way can be finished. */
  lemma {:induction false} OwnerSettles(s: Pool) returns (more: seq<Step>)
    requires Inv(s) && !s.shutdown
    ensures Internal(more)
    ensures var s' := Exec(s, more); s'.owner.Idle? && !s'.shutdown && Inv(s') && s'.max == s.max && s'.core == s.core
    decreases match s.owner case Adding(_) => 3 case Counting => 2 case Spawning => 1 case _ => 0
  {
    if s.owner.Idle? {
      more := [];
    } else {
      InvKept(s, OwnerMoves);
      var rest := OwnerSettles(OwnerStep(s));
      ExecCons(s, OwnerMoves, rest);
      more := [OwnerMoves] + rest;
    }
  }

  lemma {:induction false} InterruptsGoOn(s: Pool) returns (more: seq<Step>)
    requires Inv(s) && s.owner.Interrupting?
    ensures Internal(more)
    ensures var s' := Exec(s, more); s'.owner.Awaiting? && Inv(s')
    decreases |s.workers| - s.owner.k
  {
    InvKept(s, OwnerMoves);
    if s.owner.k >= |s.workers| {
      ExecCons(s, OwnerMoves, []);
      more := [OwnerMoves] + [];
    } else {
      var rest := InterruptsGoOn(OwnerStep(s));
      ExecCons(s, OwnerMoves, rest);
      more := [OwnerMoves] + rest;
    }
  }

  lemma ShutdownReturns(s: Pool) returns (more: seq<Step>)
    requires Inv(s) && s.shutdown
    ensures Internal(more) && Exec(s, more).owner.Returned?
  {
    match s.owner
    case Interrupting(_) =>
      var first := InterruptsGoOn(s);
      var rest := WaitReturns(Exec(s, first));
      ExecConcat(s, first, rest);
      more := first + rest;
    case Awaiting =>
      more := WaitReturns(s);
    case Joining(_) =>
      AliveIsAll(s.workers);
      more := JoinsReturn(s);
    case _ =>
      more := [];
  }

  /**
   Every pool can be closed: from every reachable state, the call under way can be finished,
   `shutdown` called, and its end reached (given that a waiting worker can always check its
   predicate again).
   */
  lemma PoolCanClose(max: nat, core: int, steps: seq<Step>) returns (more: seq<Step>)
    ensures Exec(Start(max, core), steps + more).owner.Returned?
  {
    var s := Exec(Start(max, core), steps);
    Reachable(max, core, steps);
    if s.shutdown {
      more := ShutdownReturns(s);
    } else {
      var first := OwnerSettles(s);
      var s1 := Exec(s, first);
      InvKept(s1, ShutDown);
      var rest := ShutdownReturns(Next(s1, ShutDown));
      ExecCons(s1, ShutDown, rest);
      ExecConcat(s, first, [ShutDown] + rest);
      more := first + ([ShutDown] + rest);
    }
    ExecConcat(Start(max, core), steps, more);
  }
}
