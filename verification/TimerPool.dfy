/**
 The timer of nnero/time_wheel.cpp together with the one-worker pool that runs its tasks: the
 wheel turns, each pass hands its tasks to the pool one by one, and the worker runs meanwhile.
 */
module TimerPools {
  import opened Tasks
  import opened TimeWheels
  import opened ThreadPools
  import PoolResults
  import TimerRuns

  type Boxes = b: seq<seq<TimeTask>> | |b| == SLOTS witness seq(SLOTS, _ => [])
  type Index = i: nat | i < SLOTS

  /** The wheel, what the current pass of `tick` has still to hand to the pool, and the pool. */
  datatype Timer = Timer(boxes: Boxes, index: Index, toSubmit: seq<Task>, pool: Pool)

  datatype TimerStep = Add(f: Task, delay: int) | BeginTick | HandOver | Close | PoolMoves(step: ThreadPools.Step)

  function TimerStart(max: nat): Timer {
    Timer(seq(SLOTS, _ => []), 0, [], Start(max, 1))
  }

  /** Where `addTask` puts a task and with how many rotations, when it does not index past the slots. */
  function Pushed(boxes: Boxes, index: Index, f: Task, delay: int): Boxes
    requires InBounds(delay, index)
  {
    var slot := if delay <= 10 then index + 1 else Slot(delay, index);
    var rotation := if delay <= 10 then 0 else Rotation(delay);
    boxes[slot := boxes[slot] + [TimeTask(rotation, f)]]
  }

  /** Adds fall between passes (and one that would index past the slots is not followed). */
  predicate CanAdd(t: Timer, delay: int) {
    t.toSubmit == [] && InBounds(delay, t.index)
  }

  predicate OwnerIsFree(t: Timer) {
    t.pool.owner.Idle? && !t.pool.shutdown
  }

  predicate CanTick(t: Timer) {
    t.toSubmit == [] && OwnerIsFree(t)
  }

  /**
   A pass hands its tasks over one by one, while the worker runs. The tick thread is joined before
   the pool is shut down (lines 51-52), so `Close` ends the ticks.
   */
  function TimerNext(t: Timer, step: TimerStep): Timer {
    match step
    case Add(f, delay) => if CanAdd(t, delay) then t.(boxes := Pushed(t.boxes, t.index, f, delay)) else t
    case BeginTick =>
      if CanTick(t)
      then Timer(t.boxes[t.index := Remains(t.boxes[t.index])], if t.index + 1 >= SLOTS then 0 else t.index + 1,
                 Runs(t.boxes[t.index]), t.pool)
      else t
    case HandOver =>
      if t.toSubmit != [] && OwnerIsFree(t)
      then t.(toSubmit := t.toSubmit[1..], pool := Next(t.pool, Submit(t.toSubmit[0]))) else t
    case Close => if CanTick(t) then t.(pool := Next(t.pool, ShutDown)) else t
    case PoolMoves(s) => if s.OwnerMoves? || s.WorkerMoves? then t.(pool := Next(t.pool, s)) else t
  }

  function TimerExec(t: Timer, steps: seq<TimerStep>): Timer {
    if steps == [] then t else TimerNext(TimerExec(t, steps[..|steps| - 1]), steps[|steps| - 1])
  }

  // ---------- What was asked of the timer ----------

  /** The deadlines set so far, and the number of ticks: a record of the calls, not of the wheel. */
  datatype History = History(adds: seq<Deadline>, now: nat)

  function Recorded(h: History, t: Timer, step: TimerStep): History {
    match step
    case Add(f, delay) =>
      if CanAdd(t, delay) then h.(adds := h.adds + [Deadline(f, h.now + DueIn(delay))]) else h
    case BeginTick => if CanTick(t) then h.(now := h.now + 1) else h
    case _ => h
  }

  function HistoryOf(max: nat, steps: seq<TimerStep>): History {
    if steps == [] then History([], 0) else
    var before := steps[..|steps| - 1];
    Recorded(HistoryOf(max, before), TimerExec(TimerStart(max), before), steps[|steps| - 1])
  }

  /** Every delay added is one that `addTask` places right at that moment. */
  ghost predicate AddsPlacedRight(max: nat, steps: seq<TimerStep>) {
    steps != [] ==>
      var before, step := steps[..|steps| - 1], steps[|steps| - 1];
      && AddsPlacedRight(max, before)
      && AddedRight(TimerExec(TimerStart(max), before), step)
  }

  predicate AddedRight(t: Timer, step: TimerStep) {
    step.Add? && t.toSubmit == [] ==> IsLong(step.delay) && PlacedRight(step.delay, t.index)
  }

  // ---------- The wheel hands over what is due ----------

  ghost predicate WheelRight(t: Timer, h: History) {
    t.index == h.now % SLOTS && Holds(t.boxes, h.adds, h.now)
  }

  lemma PushedRight(t: Timer, h: History, f: Task, delay: int)
    requires WheelRight(t, h) && IsLong(delay) && PlacedRight(delay, t.index)
    ensures InBounds(delay, t.index)
    ensures Holds(Pushed(t.boxes, t.index, f, delay), h.adds + [Deadline(f, h.now + DueIn(delay))], h.now)
  {
    var slot := if delay <= 10 then t.index + 1 else Slot(delay, t.index);
    var rotation := if delay <= 10 then 0 else Rotation(delay);
    PlacementMatchesDue(delay, h.now);
    PushKeeps(t.boxes, h.adds, h.now, slot, TimeTask(rotation, f), Deadline(f, h.now + DueIn(delay)));
  }

  lemma WheelStaysRight(t: Timer, h: History, step: TimerStep)
    requires WheelRight(t, h) && AddedRight(t, step)
    ensures WheelRight(TimerNext(t, step), Recorded(h, t, step))
    ensures step.BeginTick? && CanTick(t) ==> TimerNext(t, step).toSubmit == DueAt(h.adds, h.now)
  {
    match step
    case Add(f, delay) =>
      if t.toSubmit == [] {
        PushedRight(t, h, f, delay);
      }
    case BeginTick =>
      NextIndex(h.now);
      PassKeeps(t.boxes, h.adds, h.now);
    case _ =>
  }

  lemma {:induction false} WheelAlwaysRight(max: nat, steps: seq<TimerStep>)
    requires AddsPlacedRight(max, steps)
    ensures WheelRight(TimerExec(TimerStart(max), steps), HistoryOf(max, steps))
  {
    if steps != [] {
      var before := steps[..|steps| - 1];
      WheelAlwaysRight(max, before);
      WheelStaysRight(TimerExec(TimerStart(max), before), HistoryOf(max, before), steps[|steps| - 1]);
    }
  }

  // ---------- The pool is given what the wheel hands over ----------

  function Submitted(ss: seq<Submission>): seq<Task> {
    if ss == [] then [] else Submitted(ss[..|ss| - 1]) + [ss[|ss| - 1].t]
  }

  /** What the pool has been given, and is just being given. */
  function Given(p: Pool): seq<Task> {
    Submitted(p.submitted) + if p.owner.Adding? then [p.owner.t] else []
  }

  /** What fell due so far has been given to the pool, in order, but for what the pass still holds. */
  ghost predicate HandedOver(t: Timer, h: History) {
    Given(t.pool) + t.toSubmit == DueBefore(h.adds, h.now)
  }

  lemma GivenByPool(p: Pool, s: ThreadPools.Step)
    requires s.OwnerMoves? || s.WorkerMoves? || s.ShutDown?
    ensures Given(Next(p, s)) == Given(p)
  {
    if s.WorkerMoves? && s.k < |p.workers| {
      WorkerChanges(p, s.k);
    } else if s.OwnerMoves? && p.owner.Adding? {
      var p' := Next(p, s);
      assert p'.submitted[..|p'.submitted| - 1] == p.submitted;
    }
  }

  /** A new deadline lies ahead, so it does not change what has already been due. */
  lemma {:induction false} PastIsSettled(adds: seq<Deadline>, d: Deadline, n: nat)
    requires d.due >= n
    ensures DueBefore(adds + [d], n) == DueBefore(adds, n)
  {
    if n > 0 {
      PastIsSettled(adds, d, n - 1);
      TimerRuns.DueAtAppend(adds, d, n - 1);
    }
  }

  lemma HandedOverKept(t: Timer, h: History, step: TimerStep)
    requires HandedOver(t, h) && WheelRight(t, h) && AddedRight(t, step)
    ensures HandedOver(TimerNext(t, step), Recorded(h, t, step))
  {
    match step
    case Add(f, delay) => PastIsSettled(h.adds, Deadline(f, h.now + DueIn(delay)), h.now);
    case BeginTick => WheelStaysRight(t, h, step);
    case HandOver =>
      if t.toSubmit != [] {
        assert t.toSubmit == [t.toSubmit[0]] + t.toSubmit[1..];
      }
    case Close => GivenByPool(t.pool, ShutDown);
    case PoolMoves(s) =>
      if s.OwnerMoves? || s.WorkerMoves? {
        GivenByPool(t.pool, s);
      }
  }

  lemma {:induction false} HandedOverAlways(max: nat, steps: seq<TimerStep>)
    requires AddsPlacedRight(max, steps)
    ensures HandedOver(TimerExec(TimerStart(max), steps), HistoryOf(max, steps))
  {
    if steps != [] {
      var before := steps[..|steps| - 1];
      HandedOverAlways(max, before);
      WheelAlwaysRight(max, before);
      HandedOverKept(TimerExec(TimerStart(max), before), HistoryOf(max, before), steps[|steps| - 1]);
    }
  }

  /** What a step of the timer asks of the pool, when it asks anything. */
  function PoolStep(t: Timer, step: TimerStep): ThreadPools.Step {
    match step
    case HandOver => if t.toSubmit != [] then Submit(t.toSubmit[0]) else OwnerMoves
    case Close => ShutDown
    case PoolMoves(s) => s
    case _ => OwnerMoves
  }

  lemma PoolFollows(t: Timer, step: TimerStep)
    ensures TimerNext(t, step).pool == t.pool || TimerNext(t, step).pool == Next(t.pool, PoolStep(t, step))
  {
  }

  lemma ExecSnoc(s: Pool, steps: seq<ThreadPools.Step>, step: ThreadPools.Step)
    ensures Exec(s, steps + [step]) == Next(Exec(s, steps), step)
  {
    assert (steps + [step])[..|steps|] == steps;
  }

  /** The pool's own part of a timer run is one of the interleavings of the pool. */
  lemma {:induction false} PoolPart(max: nat, steps: seq<TimerStep>) returns (ps: seq<ThreadPools.Step>)
    ensures TimerExec(TimerStart(max), steps).pool == Exec(Start(max, 1), ps)
  {
    if steps == [] {
      ps := [];
    } else {
      var before := PoolPart(max, steps[..|steps| - 1]);
      ps := PoolPartStep(max, steps, before);
    }
  }

  lemma PoolPartStep(max: nat, steps: seq<TimerStep>, before: seq<ThreadPools.Step>) returns (ps: seq<ThreadPools.Step>)
    requires steps != []
    requires TimerExec(TimerStart(max), steps[..|steps| - 1]).pool == Exec(Start(max, 1), before)
    ensures TimerExec(TimerStart(max), steps).pool == Exec(Start(max, 1), ps)
  {
    var t, step := TimerExec(TimerStart(max), steps[..|steps| - 1]), steps[|steps| - 1];
    PoolFollows(t, step);
    if TimerNext(t, step).pool == t.pool {
      ps := before;
    } else {
      ps := before + [PoolStep(t, step)];
      ExecSnoc(Start(max, 1), before, PoolStep(t, step));
    }
  }

  /** The tasks that have run to their end, in the order in which they ended. */
  function RanTasks(p: Pool): seq<Task>
    requires forall j :: 0 <= j < |p.ran| ==> p.ran[j] < |p.dequeued|
  {
    seq(|p.ran|, j requires 0 <= j < |p.ran| => p.dequeued[p.ran[j]])
  }

  lemma {:induction false} IotaAt(n: nat)
    ensures |PoolResults.Iota(n)| == n && forall j :: 0 <= j < n ==> PoolResults.Iota(n)[j] == j
  {
    if n > 0 { IotaAt(n - 1); }
  }

  /**
   End to end: tasks run one after the other in the order of their due ticks, and among equals in
   the order added. Only those that a full queue refused are skipped, none runs before its tick
   has come, and once the timer is closed all the others have run. All that is asked of the run is
   that `addTask` places each delay right.
   */
  lemma TimerRunsInOrder(max: nat, steps: seq<TimerStep>)
    requires AddsPlacedRight(max, steps)
    ensures var p, h := TimerExec(TimerStart(max), steps).pool, HistoryOf(max, steps);
            && (forall j :: 0 <= j < |p.ran| ==> p.ran[j] < |p.dequeued|)
            && RanTasks(p) <= Accepted(p.submitted)
            && Submitted(p.submitted) <= DueBefore(h.adds, h.now)
            && (p.owner.Returned? ==>
                  RanTasks(p) == Accepted(p.submitted) && Submitted(p.submitted) == DueBefore(h.adds, h.now))
  {
    var t := TimerExec(TimerStart(max), steps);
    var p := t.pool;
    var ps := PoolPart(max, steps);
    Reachable(max, 1, ps);
    PoolResults.OneWorkerKeepsOrder(max, 1, ps);
    PoolResults.ShutdownDrains(max, 1, ps);
    HandedOverAlways(max, steps);
    ClosedMeansHandedOver(max, steps);
    IotaAt(|p.ran|);
    assert RanTasks(p) == p.dequeued[..|p.ran|];
  }

  lemma {:induction false} ClosedMeansHandedOver(max: nat, steps: seq<TimerStep>)
    ensures var t := TimerExec(TimerStart(max), steps);
            t.pool.shutdown ==> t.toSubmit == []
  {
    if steps != [] {
      var before := steps[..|steps| - 1];
      ClosedMeansHandedOver(max, before);
      var t, step := TimerExec(TimerStart(max), before), steps[|steps| - 1];
      if step.PoolMoves? && step.step.WorkerMoves? && step.step.k < |t.pool.workers| {
        WorkerChanges(t.pool, step.step.k);
      }
    }
  }
}
