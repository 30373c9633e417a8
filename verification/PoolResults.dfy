/**
 What the protocol of nnero/thread_pool.cpp guarantees, over every interleaving.
 */
module PoolResults {
  import opened BlockingQueues
  import opened ThreadPools

  // ---------- Shutdown drains the queue ----------

  lemma {:induction false} GoneHoldNothing(ws: seq<Worker>, i: nat)
    requires forall k :: 0 <= k < |ws| ==> ws[k].pc.Gone?
    ensures HeldTimes(ws, i) == 0
  {
    if ws != [] { GoneHoldNothing(ws[..|ws| - 1], i); }
  }

  /** No task waits, no worker lives, and every accepted task has run exactly once. */
  ghost predicate Drained(s: Pool) {
    && s.queue == [] && s.count == 0
    && (forall k :: 0 <= k < |s.workers| ==> s.workers[k].pc.Gone?)
    && s.dequeued == Accepted(s.submitted)
    && (forall i: nat :: RanTimes(s.ran, i) == if i < |s.dequeued| then 1 else 0)
  }

  lemma QueueIsEmptyAtReturn(s: Pool)
    requires FirstInFirstOut(s) && CountExact(s) && ShutdownInOrder(s) && s.owner.Returned?
    requires s.core >= 1 || s.max == 0
    ensures s.queue == [] && s.dequeued == Accepted(s.submitted)
    ensures forall k :: 0 <= k < |s.workers| ==> s.workers[k].pc.Gone?
  {
    AliveIsAll(s.workers);
    if s.submitted != [] && s.core >= 1 {
      assert SawEmpty(s.workers[0].pc);
    }
    assert s.queue == [];
    assert s.dequeued + [] == s.dequeued;
  }

  /** Whatever the interleaving, when `shutdown` has returned everything is drained. */
  lemma ShutdownDrains(max: nat, core: int, steps: seq<Step>)
    requires core >= 1 || max == 0
    ensures var s := Exec(Start(max, core), steps); s.owner.Returned? ==> Drained(s)
  {
    var s := Exec(Start(max, core), steps);
    Reachable(max, core, steps);
    ParametersStay(max, core, steps);
    if s.owner.Returned? {
      QueueIsEmptyAtReturn(s);
      forall i: nat {
        GoneHoldNothing(s.workers, i);
      }
    }
  }

  lemma {:induction false} ParametersStay(max: nat, core: int, steps: seq<Step>)
    ensures Exec(Start(max, core), steps).max == max && Exec(Start(max, core), steps).core == core
  {
    if steps != [] {
      ParametersStay(max, core, steps[..|steps| - 1]);
      NextKeepsParameters(Exec(Start(max, core), steps[..|steps| - 1]), steps[|steps| - 1]);
    }
  }

  lemma {:induction false} ExecConcat(s: Pool, a: seq<Step>, b: seq<Step>)
    ensures Exec(s, a + b) == Exec(Exec(s, a), b)
    decreases |b|
  {
    if b == [] {
      assert a + b == a;
    } else {
      assert (a + b)[..|a + b| - 1] == a + b[..|b| - 1];
      ExecConcat(s, a, b[..|b| - 1]);
    }
  }

  lemma ExecCons(s: Pool, step: Step, rest: seq<Step>)
    ensures Exec(s, [step] + rest) == Exec(Next(s, step), rest)
  {
    ExecConcat(s, [step], rest);
    assert [step][..0] == [];
  }

  /** With no worker thread allowed, an accepted task is left behind in the queue. */
  lemma WithoutWorkersTasksAreLost(max: nat, core: int) returns (steps: seq<Step>)
    requires core < 1 && max > 0
    ensures var s := Exec(Start(max, core), steps); s.owner.Returned? && s.queue != []
  {
    var s0 := Start(max, core);
    var s1 := Next(s0, Submit(7));
    var s2 := OwnerStep(s1);
    var s3 := Next(OwnerStep(s2), ShutDown);
    var m := OwnerMoves;
    steps := [Submit(7)] + ([m] + ([m] + ([ShutDown] + ([m] + ([m] + ([m] + []))))));
    ExecCons(s0, Submit(7), [m] + ([m] + ([ShutDown] + ([m] + ([m] + ([m] + []))))));
    ExecCons(s1, m, [m] + ([ShutDown] + ([m] + ([m] + ([m] + [])))));
    ExecCons(s2, m, [ShutDown] + ([m] + ([m] + ([m] + []))));
    ExecCons(OwnerStep(s2), ShutDown, [m] + ([m] + ([m] + [])));
    ExecCons(s3, m, [m] + ([m] + []));
    ExecCons(OwnerStep(s3), m, [m] + []);
    ExecCons(OwnerStep(OwnerStep(s3)), m, []);
  }

  /** A pool drains on every shutdown exactly when it may start a worker, or can hold no task. */
  lemma DrainsExactly(max: nat, core: int)
    ensures (core >= 1 || max == 0) <==>
            forall steps :: var s := Exec(Start(max, core), steps); s.owner.Returned? ==> Drained(s)
  {
    if core >= 1 || max == 0 {
      forall steps
        ensures var s := Exec(Start(max, core), steps); s.owner.Returned? ==> Drained(s)
      {
        ShutdownDrains(max, core, steps);
      }
    } else {
      var steps := WithoutWorkersTasksAreLost(max, core);
      assert !Drained(Exec(Start(max, core), steps));
    }
  }

  // ---------- Shutdown terminates ----------

  function Weight(pc: WorkerPc): nat {
    match pc
    case Running(_) => 5
    case LoopTest => 4
    case Waiting => 4
    case DrainRun(_) => 4
    case DrainTest => 3
    case DrainPoll => 2
    case Leaving => 1
    case Gone => 0
  }

  function Weights(ws: seq<Worker>): nat {
    if ws == [] then 0 else Weights(ws[..|ws| - 1]) + Weight(ws[|ws| - 1].pc)
  }

  /** How much the workers have left to do, once `shutdown` waits for them. */
  function Measure(s: Pool): nat {
    3 * |s.queue| + Weights(s.workers)
  }

  lemma {:induction false} WeightsUpdate(ws: seq<Worker>, k: nat, w: Worker)
    requires k < |ws|
    ensures Weights(ws[k := w]) == Weights(ws) - Weight(ws[k].pc) + Weight(w.pc)
  {
    var n := |ws| - 1;
    if k < n {
      WeightsUpdate(ws[..n], k, w);
      assert ws[k := w][..n] == ws[..n][k := w];
    } else {
      assert ws[k := w][..n] == ws[..n];
    }
  }

  /** `shutdown` is waiting, and has set its flag and every interrupt. */
  ghost predicate AwaitsAll(s: Pool) {
    s.owner.Awaiting? && s.shutdown && forall k :: 0 <= k < |s.workers| ==> s.workers[k].interrupted
  }

  /** No worker still alive is ever stuck, and whatever one does brings the end nearer. */
  lemma WorkersAdvance(s: Pool, k: nat)
    requires AwaitsAll(s) && k < |s.workers|
    ensures s.workers[k].pc.Gone? ==> WorkerStep(s, k) == s
    ensures !s.workers[k].pc.Gone? ==> Measure(WorkerStep(s, k)) < Measure(s)
    ensures AwaitsAll(WorkerStep(s, k))
  {
    var s' := WorkerStep(s, k);
    WeightsUpdate(s.workers, k, s'.workers[k]);
    assert s'.workers == s.workers[k := s'.workers[k]];
  }

  /** How many steps of a schedule change the state. */
  function Effective(s: Pool, steps: seq<Step>): nat
    decreases |steps|
  {
    if steps == [] then 0 else
    (if Next(s, steps[0]) != s then 1 else 0) + Effective(Next(s, steps[0]), steps[1..])
  }

  /** Once `shutdown` waits, the workers can take no more than `Measure` steps between them. */
  lemma {:induction false} WorkersAreBounded(s: Pool, steps: seq<Step>)
    requires AwaitsAll(s) && forall i :: 0 <= i < |steps| ==> steps[i].WorkerMoves?
    ensures Effective(s, steps) <= Measure(s)
    decreases |steps|
  {
    if steps != [] {
      var k := steps[0].k;
      if k < |s.workers| {
        WorkersAdvance(s, k);
      }
      WorkersAreBounded(Next(s, steps[0]), steps[1..]);
    }
  }

  /** The wait of `shutdown` ends: when no worker can move any more, the count is zero. */
  lemma NoWorkerLeftMeansCountZero(s: Pool)
    requires CountExact(s) && AwaitsAll(s)
    requires forall k :: 0 <= k < |s.workers| ==> WorkerStep(s, k) == s
    ensures s.count == 0 && OwnerStep(s).owner == Joining(0)
  {
    forall k | 0 <= k < |s.workers|
      ensures s.workers[k].pc.Gone?
    {
      WorkersAdvance(s, k);
    }
    AliveIsAll(s.workers);
  }

  /** An interrupt flag once set stays set, and its worker stays the same worker. */
  lemma {:induction false} InterruptsAreSticky(s: Pool, steps: seq<Step>, k: nat)
    requires k < |s.workers| && s.workers[k].interrupted
    ensures k < |Exec(s, steps).workers| && Exec(s, steps).workers[k].interrupted
  {
    if steps != [] {
      InterruptsAreSticky(s, steps[..|steps| - 1], k);
      FlagStays(Exec(s, steps[..|steps| - 1]), steps[|steps| - 1], k);
    }
  }

  lemma FlagStays(s: Pool, step: Step, k: nat)
    requires k < |s.workers| && s.workers[k].interrupted
    ensures k < |Next(s, step).workers| && Next(s, step).workers[k].interrupted
  {
    if step.WorkerMoves? && step.k < |s.workers| {
      WorkerChanges(s, step.k);
    }
  }

  ghost predicate NoneGone(ws: seq<Worker>) {
    forall k :: 0 <= k < |ws| ==> !ws[k].pc.Gone?
  }

  /** Until the main lock is released again, no worker can have left: `shutdown` holds it while it interrupts. */
  lemma NoneGoneKept(s: Pool, step: Step)
    requires ShutdownInOrder(s)
    requires !s.shutdown || s.owner.Interrupting? ==> NoneGone(s.workers)
    ensures var s' := Next(s, step); !s'.shutdown || s'.owner.Interrupting? ==> NoneGone(s'.workers)
  {
    if step.WorkerMoves? && step.k < |s.workers| {
      WorkerChanges(s, step.k);
      if !s.workers[step.k].pc.Gone? && WorkerStep(s, step.k).workers[step.k].pc.Gone? {
        LeavesUnlocked(s, step.k);
      }
    }
  }

  lemma LeavesUnlocked(s: Pool, k: nat)
    requires k < |s.workers| && !s.workers[k].pc.Gone? && WorkerStep(s, k).workers[k].pc.Gone?
    ensures s.workers[k].pc.Leaving? && !MainLockHeld(s)
  {
  }

  /**
   `shutdown` interrupts only threads that are still there: the interrupt flag belongs to its
   thread and goes with it, and no thread ends before the last interrupt has been set.
   */
  lemma {:induction false} InterruptsTheLiving(max: nat, core: int, steps: seq<Step>)
    ensures var s := Exec(Start(max, core), steps);
            !s.shutdown || s.owner.Interrupting? ==> NoneGone(s.workers)
  {
    if steps != [] {
      var before := steps[..|steps| - 1];
      InterruptsTheLiving(max, core, before);
      Reachable(max, core, before);
      NoneGoneKept(Exec(Start(max, core), before), steps[|steps| - 1]);
    }
  }

  lemma {:induction false} AllInterrupted(max: nat, core: int, steps: seq<Step>)
    ensures var s := Exec(Start(max, core), steps); s.owner.Awaiting? ==> AwaitsAll(s)
  {
    Reachable(max, core, steps);
  }

  /** Steps inside the pool: no further call of the owner. */
  predicate Internal(steps: seq<Step>) {
    forall i :: 0 <= i < |steps| ==> steps[i].OwnerMoves? || steps[i].WorkerMoves?
  }

  lemma {:induction false} JoinsReturn(s: Pool) returns (more: seq<Step>)
    requires s.owner.Joining? && forall k :: 0 <= k < |s.workers| ==> s.workers[k].pc.Gone?
    ensures Exec(s, more).owner.Returned? && Internal(more)
    decreases |s.workers| - s.owner.k
  {
    if s.owner.k >= |s.workers| {
      ExecCons(s, OwnerMoves, []);
      more := [OwnerMoves] + [];
    } else {
      var rest := JoinsReturn(OwnerStep(s));
      ExecCons(s, OwnerMoves, rest);
      more := [OwnerMoves] + rest;
    }
  }

  lemma {:induction false} WaitReturns(s: Pool) returns (more: seq<Step>)
    requires CountExact(s) && ShutdownInOrder(s) && AwaitsAll(s)
    ensures Exec(s, more).owner.Returned? && Internal(more)
    decreases Measure(s)
  {
    AliveIsAll(s.workers);
    if k :| 0 <= k < |s.workers| && !s.workers[k].pc.Gone? {
      WorkersAdvance(s, k);
      NextKeepsOrder(s, WorkerMoves(k));
      var rest := WaitReturns(WorkerStep(s, k));
      ExecCons(s, WorkerMoves(k), rest);
      more := [WorkerMoves(k)] + rest;
    } else {
      var rest := JoinsReturn(OwnerStep(s));
      ExecCons(s, OwnerMoves, rest);
      more := [OwnerMoves] + rest;
    }
  }

  /**
   From every state in which `shutdown` waits, some continuation returns from it. This rests on a
   waiting worker being able to check its predicate again at any time. The code does not ensure
   that: `wakeUpAll` notifies without holding the queue's lock, so a notification can fall between
   the predicate of `take` and its wait, and if both do for one worker `shutdown` hangs.
   */
  lemma ShutdownCanReturn(max: nat, core: int, steps: seq<Step>) returns (more: seq<Step>)
    requires Exec(Start(max, core), steps).owner.Awaiting?
    ensures Exec(Start(max, core), steps + more).owner.Returned?
  {
    var s := Exec(Start(max, core), steps);
    Reachable(max, core, steps);
    AllInterrupted(max, core, steps);
    more := WaitReturns(s);
    ExecConcat(Start(max, core), steps, more);
  }

  // ---------- The worker count ----------

  /** `m_worker_cnt` counts the started workers that have not left, plus one being started. */
  lemma CountIsLive(max: nat, core: int, steps: seq<Step>, step: Step)
    ensures var s := Exec(Start(max, core), steps);
            && s.count == Alive(s.workers) + (if s.owner.Spawning? then 1 else 0)
            && 0 <= s.count && (s.count <= core || s.count == 0)
            && (Next(s, step).count < s.count ==> s.shutdown)
  {
    var s := Exec(Start(max, core), steps);
    Reachable(max, core, steps);
    ParametersStay(max, core, steps);
    if step.WorkerMoves? && step.k < |s.workers| {
      WorkerChanges(s, step.k);
      assert s.workers[step.k].pc.Leaving? ==> s.shutdown;
    }
  }

  // ---------- One worker runs tasks in order ----------

  function Iota(n: nat): seq<nat> {
    if n == 0 then [] else Iota(n - 1) + [n - 1]
  }

  predicate HasTask(ws: seq<Worker>) {
    |ws| == 1 && Busy(ws[0].pc)
  }

  ghost predicate RunsInOrder(s: Pool) {
    && |s.workers| + (if s.owner.Spawning? then 1 else 0) <= 1
    && s.ran == Iota(|s.ran|)
    && |s.dequeued| == |s.ran| + (if HasTask(s.workers) then 1 else 0)
    && (HasTask(s.workers) ==> s.workers[0].pc.i == |s.ran|)
  }

  lemma NextRunsInOrder(s: Pool, step: Step)
    requires CountExact(s) && ShutdownInOrder(s) && s.core <= 1 && RunsInOrder(s)
    ensures RunsInOrder(Next(s, step))
  {
    if step.WorkerMoves? && step.k < |s.workers| {
      TaskMoves(s, step.k);
      WorkerChanges(s, step.k);
    } else if step.OwnerMoves? {
      OwnerMovesNoTask(s);
    }
  }

  /** With at most one worker, tasks finish in the order in which they were accepted. */
  lemma {:induction false} OneWorkerKeepsOrder(max: nat, core: int, steps: seq<Step>)
    requires core <= 1
    ensures RunsInOrder(Exec(Start(max, core), steps))
  {
    if steps != [] {
      var before := steps[..|steps| - 1];
      OneWorkerKeepsOrder(max, core, before);
      Reachable(max, core, before);
      ParametersStay(max, core, before);
      NextRunsInOrder(Exec(Start(max, core), before), steps[|steps| - 1]);
    }
  }
}
