/**
 nnero/thread_pool.cpp as a protocol: one owner thread that calls `execute` and `shutdown`, and
 the worker threads it starts, over the blocking queue of nnero/bqueue.hpp and the sticky
 interrupt flags of nnero/nthread.cpp. A step is one critical section, one access to a shared
 variable, or one task run to its end.
 */
module ThreadPools {
  import opened BlockingQueues
  import opened Tasks

  /**
   Where a worker stands: at the loop test (line 70), evaluating the wait predicate of `take`
   (line 85), running a task it took (line 72), at the test of the drain loop (line 89), about
   to poll (line 90), running a task it polled (line 91), about to leave (lines 80-82), gone.
   A number is the position of the held task among all tasks dequeued so far.
   */
  datatype WorkerPc =
    | LoopTest | Waiting | Running(i: nat)
    | DrainTest | DrainPoll | DrainRun(i: nat)
    | Leaving | Gone

  datatype Worker = Worker(pc: WorkerPc, interrupted: bool)

  /**
   Where the owner stands: between calls; in `execute` about to add (line 55), to compare the
   worker count (line 61), to start a thread (line 64); in `shutdown` about to interrupt the
   k-th worker with the main lock held (line 28), in the wait (line 32), about to join the k-th
   thread (line 42), or past it all.
   */
  datatype OwnerPc =
    | Idle | Adding(t: Task) | Counting | Spawning
    | Interrupting(k: nat) | Awaiting | Joining(k: nat) | Returned

  /** A task given to `execute`, and whether the queue took it. */
  datatype Submission = Submission(t: Task, taken: bool)

  datatype Pool = Pool(
    max: nat, core: int,
    queue: seq<Task>, shutdown: bool, count: int, workers: seq<Worker>, owner: OwnerPc,
    submitted: seq<Submission>, dequeued: seq<Task>, ran: seq<nat>)

  function Start(max: nat, core: int): Pool {
    Pool(max, core, [], false, 0, [], Idle, [], [], [])
  }

  /** The tasks whose `add` succeeded, in order. */
  function Accepted(ss: seq<Submission>): seq<Task> {
    if ss == [] then [] else
    Accepted(ss[..|ss| - 1]) + if ss[|ss| - 1].taken then [ss[|ss| - 1].t] else []
  }

  /** The main lock is held through the interrupts of `shutdown` and released by its wait. */
  predicate MainLockHeld(s: Pool) {
    s.owner.Interrupting?
  }

  // ---------- Steps ----------

  datatype Step = Submit(t: Task) | ShutDown | OwnerMoves | WorkerMoves(k: nat)

  function SetPc(s: Pool, k: nat, pc: WorkerPc): Pool
    requires k < |s.workers|
  {
    s.(workers := s.workers[k := s.workers[k].(pc := pc)])
  }

  /** What the k-th worker does next; the state itself when it is blocked. */
  function WorkerStep(s: Pool, k: nat): Pool
    requires k < |s.workers|
  {
    var w := s.workers[k];
    var n := |s.dequeued|;
    match w.pc
    case LoopTest => SetPc(s, k, if s.shutdown then DrainTest else Waiting)
    case Waiting =>
      var e := After(s.queue, s.max, CallTake(w.interrupted));
      if e.1.Interrupted? then SetPc(s, k, DrainTest)
      else if e.1.Got? then SetPc(s, k, Running(n)).(queue := e.0, dequeued := s.dequeued + [e.1.value])
      else s
    case Running(i) => SetPc(s, k, LoopTest).(ran := s.ran + [i])
    case DrainTest => SetPc(s, k, if s.queue == [] then Leaving else DrainPoll)
    case DrainPoll =>
      var e := After(s.queue, s.max, CallPoll);
      if e.1.Got? then SetPc(s, k, DrainRun(n)).(queue := e.0, dequeued := s.dequeued + [e.1.value])
      else SetPc(s, k, Leaving)
    case DrainRun(i) => SetPc(s, k, DrainTest).(ran := s.ran + [i])
    case Leaving => if MainLockHeld(s) then s else SetPc(s, k, Gone).(count := s.count - 1)
    case Gone => s
  }

  /** What the owner does next inside a call; the state itself between calls and while it waits. */
  function OwnerStep(s: Pool): Pool {
    match s.owner
    case Idle => s
    case Adding(t) =>
      var e := After(s.queue, s.max, CallAdd(t));
      s.(queue := e.0, submitted := s.submitted + [Submission(t, e.1.Placed?)], owner := Counting)
    case Counting =>
      if s.count < s.core then s.(count := s.count + 1, owner := Spawning) else s.(owner := Idle)
    case Spawning => s.(workers := s.workers + [Worker(LoopTest, false)], owner := Idle)
    case Interrupting(k) =>
      if k < |s.workers|
      then s.(workers := s.workers[k := s.workers[k].(interrupted := true)], owner := Interrupting(k + 1))
      else s.(owner := Awaiting)
    case Awaiting => if s.count == 0 then s.(owner := Joining(0)) else s
    case Joining(k) =>
      if k >= |s.workers| then s.(owner := Returned)
      else if s.workers[k].pc.Gone? then s.(owner := Joining(k + 1))
      else s
    case Returned => s
  }

  /** Calls after `shutdown` has returned find the flag set and change nothing. */
  function Next(s: Pool, step: Step): Pool {
    match step
    case Submit(t) => if s.owner.Idle? && !s.shutdown then s.(owner := Adding(t)) else s
    case ShutDown => if s.owner.Idle? && !s.shutdown then s.(shutdown := true, owner := Interrupting(0)) else s
    case OwnerMoves => OwnerStep(s)
    case WorkerMoves(k) => if k < |s.workers| then WorkerStep(s, k) else s
  }

  /** The state after the steps of one interleaving; steps that are not enabled change nothing. */
  function Exec(s: Pool, steps: seq<Step>): Pool {
    if steps == [] then s else Next(Exec(s, steps[..|steps| - 1]), steps[|steps| - 1])
  }

  lemma NextKeepsParameters(s: Pool, step: Step)
    ensures Next(s, step).max == s.max && Next(s, step).core == s.core
  {
  }

  // ---------- Who holds what ----------

  predicate Busy(pc: WorkerPc) {
    pc.Running? || pc.DrainRun?
  }

  function Holding(pc: WorkerPc, i: nat): nat {
    if Busy(pc) && pc.i == i then 1 else 0
  }

  /** How many workers hold the i-th dequeued task. */
  function HeldTimes(ws: seq<Worker>, i: nat): nat {
    if ws == [] then 0 else HeldTimes(ws[..|ws| - 1], i) + Holding(ws[|ws| - 1].pc, i)
  }

  /** How often the i-th dequeued task has been run. */
  function RanTimes(ran: seq<nat>, i: nat): nat {
    if ran == [] then 0 else RanTimes(ran[..|ran| - 1], i) + if ran[|ran| - 1] == i then 1 else 0
  }

  function Alive(ws: seq<Worker>): nat {
    if ws == [] then 0 else Alive(ws[..|ws| - 1]) + if ws[|ws| - 1].pc.Gone? then 0 else 1
  }

  lemma {:induction false} HeldUpdate(ws: seq<Worker>, k: nat, w: Worker, i: nat)
    requires k < |ws|
    ensures HeldTimes(ws[k := w], i) + Holding(ws[k].pc, i) == HeldTimes(ws, i) + Holding(w.pc, i)
  {
    var n := |ws| - 1;
    if k < n {
      HeldUpdate(ws[..n], k, w, i);
      assert ws[k := w][..n] == ws[..n][k := w];
    } else {
      assert ws[k := w][..n] == ws[..n];
    }
  }

  lemma {:induction false} AliveUpdate(ws: seq<Worker>, k: nat, w: Worker)
    requires k < |ws|
    ensures Alive(ws[k := w]) ==
            Alive(ws) - (if ws[k].pc.Gone? then 0 else 1) + (if w.pc.Gone? then 0 else 1)
  {
    var n := |ws| - 1;
    if k < n {
      AliveUpdate(ws[..n], k, w);
      assert ws[k := w][..n] == ws[..n][k := w];
    } else {
      assert ws[k := w][..n] == ws[..n];
    }
  }

  lemma {:induction false} AliveIsAll(ws: seq<Worker>)
    ensures Alive(ws) <= |ws|
    ensures Alive(ws) == 0 <==> forall k :: 0 <= k < |ws| ==> ws[k].pc.Gone?
    ensures (forall k :: 0 <= k < |ws| ==> !ws[k].pc.Gone?) ==> Alive(ws) == |ws|
  {
    if ws != [] {
      AliveIsAll(ws[..|ws| - 1]);
    }
  }

  // ---------- What every step keeps ----------

  predicate PastLoop(pc: WorkerPc) {
    pc.DrainTest? || pc.DrainPoll? || pc.DrainRun? || pc.Leaving? || pc.Gone?
  }

  predicate SawEmpty(pc: WorkerPc) {
    pc.Leaving? || pc.Gone?
  }

  /** How many workers have been interrupted so far, counting from the first. */
  function InterruptedUpTo(s: Pool): nat {
    match s.owner
    case Interrupting(k) => if k <= |s.workers| then k else |s.workers|
    case Awaiting => |s.workers|
    case Joining(_) => |s.workers|
    case Returned => |s.workers|
    case _ => 0
  }

  /** Accepted tasks, in order, are the dequeued ones followed by the queue, which respects its bound. */
  ghost predicate FirstInFirstOut(s: Pool) {
    s.dequeued + s.queue == Accepted(s.submitted) && |s.queue| <= s.max
  }

  /** Each dequeued task has run, or is held by one worker: never both, and neither twice. */
  ghost predicate HeldOrDone(s: Pool) {
    Balanced(s.ran, s.workers, |s.dequeued|)
  }

  ghost predicate Balanced(ran: seq<nat>, ws: seq<Worker>, n: nat) {
    forall i: nat :: RanTimes(ran, i) + HeldTimes(ws, i) == if i < n then 1 else 0
  }

  ghost predicate CountExact(s: Pool) {
    && s.count == Alive(s.workers) + (if s.owner.Spawning? then 1 else 0)
    && (s.count <= s.core || s.count == 0)
    && (!s.shutdown ==> s.count == |s.workers| + (if s.owner.Spawning? then 1 else 0))
    && (s.core >= 1 && s.submitted != [] && !s.owner.Counting? && !s.owner.Spawning? ==> |s.workers| >= 1)
  }

  ghost predicate ShutdownInOrder(s: Pool) {
    && (s.shutdown <==> s.owner.Interrupting? || s.owner.Awaiting? || s.owner.Joining? || s.owner.Returned?)
    && (forall k :: 0 <= k < |s.workers| && PastLoop(s.workers[k].pc) ==> s.shutdown)
    && (forall k :: 0 <= k < |s.workers| && s.workers[k].interrupted ==> s.shutdown)
    && (forall k :: 0 <= k < |s.workers| && SawEmpty(s.workers[k].pc) ==> s.queue == [])
    && (forall k :: 0 <= k < InterruptedUpTo(s) ==> s.workers[k].interrupted)
    && (s.owner.Joining? || s.owner.Returned? ==> s.count == 0)
  }

  ghost predicate Inv(s: Pool) {
    FirstInFirstOut(s) && HeldOrDone(s) && CountExact(s) && ShutdownInOrder(s)
  }

  /** A worker leaves the queue alone or takes its head. */
  lemma WorkerTakesHead(s: Pool, k: nat)
    requires k < |s.workers|
    ensures var s' := WorkerStep(s, k);
            && s'.submitted == s.submitted && s'.max == s.max
            && ((s'.queue == s.queue && s'.dequeued == s.dequeued) ||
                (s.queue != [] && s'.queue == s.queue[1..] && s'.dequeued == s.dequeued + [s.queue[0]]))
  {
  }

  lemma QueuedByWorker(s: Pool, k: nat)
    requires FirstInFirstOut(s) && k < |s.workers|
    ensures FirstInFirstOut(WorkerStep(s, k))
  {
    WorkerTakesHead(s, k);
    if s.queue != [] {
      assert s.dequeued + s.queue == s.dequeued + [s.queue[0]] + s.queue[1..];
    }
  }

  lemma BalancedByMove(ran: seq<nat>, ws: seq<Worker>, n: nat, k: nat, w: Worker)
    requires Balanced(ran, ws, n) && k < |ws|
    requires Busy(ws[k].pc) == Busy(w.pc) && (Busy(w.pc) ==> ws[k].pc.i == w.pc.i)
    ensures Balanced(ran, ws[k := w], n)
  {
    forall i: nat {
      HeldUpdate(ws, k, w, i);
    }
  }

  lemma BalancedByTaking(ran: seq<nat>, ws: seq<Worker>, n: nat, k: nat, w: Worker)
    requires Balanced(ran, ws, n) && k < |ws| && !Busy(ws[k].pc) && Busy(w.pc) && w.pc.i == n
    ensures Balanced(ran, ws[k := w], n + 1)
  {
    forall i: nat {
      HeldUpdate(ws, k, w, i);
    }
  }

  lemma BalancedByRunning(ran: seq<nat>, ws: seq<Worker>, n: nat, k: nat, w: Worker)
    requires Balanced(ran, ws, n) && k < |ws| && Busy(ws[k].pc) && !Busy(w.pc)
    ensures Balanced(ran + [ws[k].pc.i], ws[k := w], n)
  {
    var x := ws[k].pc.i;
    assert (ran + [x])[..|ran|] == ran;
    forall i: nat
      ensures RanTimes(ran + [x], i) + HeldTimes(ws[k := w], i) == if i < n then 1 else 0
    {
      HeldUpdate(ws, k, w, i);
      assert RanTimes(ran + [x], i) == RanTimes(ran, i) + if x == i then 1 else 0;
    }
  }

  /** A worker's step moves at most one task: into its hands as it is dequeued, out of them once it has run. */
  lemma TaskMoves(s: Pool, k: nat)
    requires k < |s.workers|
    ensures var s', pc, pc' := WorkerStep(s, k), s.workers[k].pc, WorkerStep(s, k).workers[k].pc;
            && s'.workers == s.workers[k := s'.workers[k]]
            && s'.ran == (if Busy(pc) then s.ran + [pc.i] else s.ran)
            && |s'.dequeued| == |s.dequeued| + (if Busy(pc') then 1 else 0)
            && (Busy(pc') ==> !Busy(pc) && pc'.i == |s.dequeued|)
  {
  }

  lemma HeldByWorker(s: Pool, k: nat)
    requires HeldOrDone(s) && k < |s.workers|
    ensures HeldOrDone(WorkerStep(s, k))
  {
    TaskMoves(s, k);
    var w, w' := s.workers[k], WorkerStep(s, k).workers[k];
    if Busy(w.pc) {
      BalancedByRunning(s.ran, s.workers, |s.dequeued|, k, w');
    } else if Busy(w'.pc) {
      BalancedByTaking(s.ran, s.workers, |s.dequeued|, k, w');
    } else {
      BalancedByMove(s.ran, s.workers, |s.dequeued|, k, w');
    }
  }

  /** What a worker's step can do to everything but the tasks. */
  ghost predicate WorkerChange(s: Pool, k: nat, s': Pool)
    requires k < |s.workers| == |s'.workers|
  {
    var w, w' := s.workers[k], s'.workers[k];
    && s'.workers == s.workers[k := w'] && w'.interrupted == w.interrupted
    && s'.owner == s.owner && s'.shutdown == s.shutdown && s'.core == s.core && s'.submitted == s.submitted
    && (PastLoop(w'.pc) ==> PastLoop(w.pc) || s.shutdown || w.interrupted)
    && (SawEmpty(w'.pc) ==> SawEmpty(w.pc) || s.queue == [])
    && (s.queue == [] ==> s'.queue == [])
    && (w.pc.Gone? ==> w'.pc.Gone?)
    && s'.count == s.count - (if w'.pc.Gone? && !w.pc.Gone? then 1 else 0)
    && (s'.count != s.count ==> w.pc.Leaving?)
  }

  lemma LoopChanges(s: Pool, k: nat)
    requires k < |s.workers| && !PastLoop(s.workers[k].pc)
    ensures WorkerChange(s, k, WorkerStep(s, k))
  {
  }

  lemma DrainChanges(s: Pool, k: nat)
    requires k < |s.workers| && PastLoop(s.workers[k].pc)
    ensures WorkerChange(s, k, WorkerStep(s, k))
  {
  }

  lemma WorkerChanges(s: Pool, k: nat)
    requires k < |s.workers|
    ensures WorkerChange(s, k, WorkerStep(s, k))
  {
    if PastLoop(s.workers[k].pc) {
      DrainChanges(s, k);
    } else {
      LoopChanges(s, k);
    }
  }

  lemma CountedByWorker(s: Pool, k: nat)
    requires CountExact(s) && ShutdownInOrder(s) && k < |s.workers|
    ensures CountExact(WorkerStep(s, k))
  {
    WorkerChanges(s, k);
    AliveUpdate(s.workers, k, WorkerStep(s, k).workers[k]);
    assert s.workers[k].pc.Leaving? ==> s.shutdown;
  }

  lemma OrderedByWorker(s: Pool, k: nat)
    requires ShutdownInOrder(s) && k < |s.workers|
    requires s.count == 0 ==> s.workers[k].pc.Gone?
    ensures ShutdownInOrder(WorkerStep(s, k))
  {
    WorkerChanges(s, k);
  }

  lemma QueuedByOwner(s: Pool)
    requires FirstInFirstOut(s)
    ensures FirstInFirstOut(OwnerStep(s))
  {
    if s.owner.Adding? {
      var s' := OwnerStep(s);
      assert s'.submitted[..|s'.submitted| - 1] == s.submitted;
    }
  }

  lemma BalancedByNewWorker(ran: seq<nat>, ws: seq<Worker>, n: nat, w: Worker)
    requires Balanced(ran, ws, n) && !Busy(w.pc)
    ensures Balanced(ran, ws + [w], n)
  {
    assert (ws + [w])[..|ws|] == ws;
  }

  lemma OwnerMovesNoTask(s: Pool)
    ensures OwnerStep(s).ran == s.ran && OwnerStep(s).dequeued == s.dequeued
    ensures !s.owner.Spawning? && !s.owner.Interrupting? ==> OwnerStep(s).workers == s.workers
  {
  }

  lemma HeldByOwner(s: Pool)
    requires HeldOrDone(s)
    ensures HeldOrDone(OwnerStep(s))
  {
    OwnerMovesNoTask(s);
    if s.owner.Spawning? {
      BalancedByNewWorker(s.ran, s.workers, |s.dequeued|, Worker(LoopTest, false));
    } else if s.owner.Interrupting? && s.owner.k < |s.workers| {
      var k := s.owner.k;
      BalancedByMove(s.ran, s.workers, |s.dequeued|, k, s.workers[k].(interrupted := true));
    }
  }

  lemma CountedByOwner(s: Pool)
    requires CountExact(s) && ShutdownInOrder(s)
    ensures CountExact(OwnerStep(s))
  {
    var s' := OwnerStep(s);
    match s.owner
    case Spawning =>
      assert s'.workers[..|s'.workers| - 1] == s.workers;
    case Interrupting(k) =>
      if k < |s.workers| {
        AliveUpdate(s.workers, k, s'.workers[k]);
      }
    case _ =>
  }

  lemma OrderedByOwner(s: Pool)
    requires ShutdownInOrder(s)
    ensures ShutdownInOrder(OwnerStep(s))
  {
  }

  lemma NextKeepsHeld(s: Pool, step: Step)
    requires HeldOrDone(s)
    ensures HeldOrDone(Next(s, step))
  {
    if step.OwnerMoves? {
      HeldByOwner(s);
    } else if step.WorkerMoves? && step.k < |s.workers| {
      HeldByWorker(s, step.k);
    }
  }

  lemma NextKeepsQueue(s: Pool, step: Step)
    requires FirstInFirstOut(s)
    ensures FirstInFirstOut(Next(s, step))
  {
    if step.OwnerMoves? {
      QueuedByOwner(s);
    } else if step.WorkerMoves? && step.k < |s.workers| {
      QueuedByWorker(s, step.k);
    }
  }

  lemma NextKeepsOrder(s: Pool, step: Step)
    requires CountExact(s) && ShutdownInOrder(s)
    ensures CountExact(Next(s, step)) && ShutdownInOrder(Next(s, step))
  {
    if step.OwnerMoves? {
      CountedByOwner(s);
      OrderedByOwner(s);
    } else if step.WorkerMoves? && step.k < |s.workers| {
      CountedByWorker(s, step.k);
      AliveIsAll(s.workers);
      OrderedByWorker(s, step.k);
    }
  }

  /** Every reachable state, under any interleaving, satisfies the invariant. */
  lemma {:induction false} Reachable(max: nat, core: int, steps: seq<Step>)
    ensures Inv(Exec(Start(max, core), steps))
  {
    if steps != [] {
      Reachable(max, core, steps[..|steps| - 1]);
      var s, step := Exec(Start(max, core), steps[..|steps| - 1]), steps[|steps| - 1];
      NextKeepsQueue(s, step);
      NextKeepsHeld(s, step);
      NextKeepsOrder(s, step);
    }
  }
}
