/**
 What the timer of nnero/time_wheel.cpp and its pool get done together: an add sets its deadline, the
 next tick can always come and hand its tasks over, and the timer can be closed to its end.
 */
module TimerProgress {
  import opened Tasks
  import opened TimeWheels
  import opened ThreadPools
  import opened PoolResults
  import opened PoolProgress
  import opened TimerPools

  /** Between passes, an add that does not index past the slots sets the deadline it should. */
  lemma AddIsRecorded(max: nat, steps: seq<TimerStep>, f: Task, delay: int)
    requires var t := TimerExec(TimerStart(max), steps); t.toSubmit == [] && (delay > 10 || t.index < 9)
    ensures var h, h' := HistoryOf(max, steps), HistoryOf(max, steps + [Add(f, delay)]);
            && h'.now == h.now
            && h'.adds == h.adds + [Deadline(f, h.now + if delay <= 10 then 1 else delay / 10)]
  {
    assert (steps + [Add(f, delay)])[..|steps|] == steps;
  }

  // ---------- Runs of the timer, one after the other ----------

  lemma {:induction false} TimerExecConcat(t: Timer, a: seq<TimerStep>, b: seq<TimerStep>)
    ensures TimerExec(t, a + b) == TimerExec(TimerExec(t, a), b)
    decreases |b|
  {
    if b == [] {
      assert a + b == a;
    } else {
      assert (a + b)[..|a + b| - 1] == a + b[..|b| - 1];
      TimerExecConcat(t, a, b[..|b| - 1]);
    }
  }

  lemma TimerExecCons(t: Timer, step: TimerStep, rest: seq<TimerStep>)
    ensures TimerExec(t, [step] + rest) == TimerExec(TimerNext(t, step), rest)
  {
    TimerExecConcat(t, [step], rest);
    assert [step][..0] == [];
  }

  /** Steps that set no deadline and make no tick. */
  predicate Quiet(steps: seq<TimerStep>) {
    forall i :: 0 <= i < |steps| ==> steps[i].HandOver? || steps[i].Close? || steps[i].PoolMoves?
  }

  lemma {:induction false} QuietHistory(max: nat, steps: seq<TimerStep>, more: seq<TimerStep>)
    requires Quiet(more)
    ensures HistoryOf(max, steps + more) == HistoryOf(max, steps)
    decreases |more|
  {
    if more == [] {
      assert steps + more == steps;
    } else {
      assert (steps + more)[..|steps + more| - 1] == steps + more[..|more| - 1];
      QuietHistory(max, steps, more[..|more| - 1]);
    }
  }

  /** The pool moving by itself, seen as steps of the timer. */
  function Lifted(steps: seq<ThreadPools.Step>): seq<TimerStep> {
    seq(|steps|, i requires 0 <= i < |steps| => PoolMoves(steps[i]))
  }

  lemma {:induction false} LiftedMoves(t: Timer, steps: seq<ThreadPools.Step>)
    requires Internal(steps)
    ensures TimerExec(t, Lifted(steps)) == t.(pool := Exec(t.pool, steps))
  {
    if steps != [] {
      var n := |steps| - 1;
      LiftedMoves(t, steps[..n]);
      assert Lifted(steps)[..n] == Lifted(steps[..n]);
    }
  }

  // ---------- Handing over what a pass has found ----------

  /** With a pool that is open, what the pass holds can be handed over, task by task. */
  lemma {:induction false} HandsOver(t: Timer) returns (more: seq<TimerStep>)
    requires Inv(t.pool) && !t.pool.shutdown
    ensures Quiet(more)
    ensures var t' := TimerExec(t, more);
            && t'.toSubmit == [] && t'.pool.owner.Idle? && !t'.pool.shutdown && Inv(t'.pool)
            && t'.boxes == t.boxes && t'.index == t.index
    decreases |t.toSubmit|
  {
    var first := OwnerSettles(t.pool);
    LiftedMoves(t, first);
    var t1 := TimerExec(t, Lifted(first));
    if t.toSubmit == [] {
      more := Lifted(first);
    } else {
      InvKept(t1.pool, Submit(t1.toSubmit[0]));
      var rest := HandsOver(TimerNext(t1, HandOver));
      TimerExecCons(t1, HandOver, rest);
      TimerExecConcat(t, Lifted(first), [HandOver] + rest);
      more := Lifted(first) + ([HandOver] + rest);
    }
  }

  lemma PoolReached(max: nat, steps: seq<TimerStep>)
    ensures Inv(TimerExec(TimerStart(max), steps).pool)
  {
    var ps := PoolPart(max, steps);
    Reachable(max, 1, ps);
  }

  /** Nothing held by a pass, and the owner free: the next tick may come. */
  ghost predicate Ready(max: nat, steps: seq<TimerStep>) {
    CanTick(TimerExec(TimerStart(max), steps))
  }

  lemma ReachesReady(max: nat, steps: seq<TimerStep>) returns (more: seq<TimerStep>)
    requires !TimerExec(TimerStart(max), steps).pool.shutdown
    ensures Ready(max, steps + more) && HistoryOf(max, steps + more) == HistoryOf(max, steps)
  {
    PoolReached(max, steps);
    more := HandsOver(TimerExec(TimerStart(max), steps));
    TimerExecConcat(TimerStart(max), steps, more);
    QuietHistory(max, steps, more);
  }

  lemma TickCounts(max: nat, steps: seq<TimerStep>)
    requires Ready(max, steps)
    ensures HistoryOf(max, steps + [BeginTick]).now == HistoryOf(max, steps).now + 1
    ensures HistoryOf(max, steps + [BeginTick]).adds == HistoryOf(max, steps).adds
    ensures !TimerExec(TimerStart(max), steps + [BeginTick]).pool.shutdown
  {
    assert (steps + [BeginTick])[..|steps|] == steps;
  }

  /**
   As long as the timer is open the next tick can come: from every reachable state the pass under
   way can be ended, one more tick made, and all that it fires given to the pool.
   */
  lemma NextTickComes(max: nat, steps: seq<TimerStep>) returns (more: seq<TimerStep>)
    requires !TimerExec(TimerStart(max), steps).pool.shutdown
    ensures Ready(max, steps + more)
    ensures HistoryOf(max, steps + more).now == HistoryOf(max, steps).now + 1
    ensures HistoryOf(max, steps + more).adds == HistoryOf(max, steps).adds
  {
    var first := ReachesReady(max, steps);
    TickCounts(max, steps + first);
    var rest := ReachesReady(max, steps + first + [BeginTick]);
    more := first + [BeginTick] + rest;
    Regrouped(steps, first, [BeginTick], rest);
  }

  lemma Regrouped(a: seq<TimerStep>, b: seq<TimerStep>, c: seq<TimerStep>, d: seq<TimerStep>)
    ensures a + (b + c + d) == a + b + c + d
  {
  }

  /**
   The timer can be closed: from every reachable state what the pass holds can be handed over, `close`
   called, and its end reached (given that a waiting worker can always check its predicate again).
   */
  lemma TimerCanClose(max: nat, steps: seq<TimerStep>) returns (more: seq<TimerStep>)
    ensures TimerExec(TimerStart(max), steps + more).pool.owner.Returned?
    ensures HistoryOf(max, steps + more) == HistoryOf(max, steps)
  {
    var t := TimerExec(TimerStart(max), steps);
    PoolReached(max, steps);
    if t.pool.shutdown {
      var last := ShutdownReturns(t.pool);
      LiftedMoves(t, last);
      more := Lifted(last);
    } else {
      var first := HandsOver(t);
      var t1 := TimerExec(t, first);
      InvKept(t1.pool, ShutDown);
      var t2 := TimerNext(t1, Close);
      var last := ShutdownReturns(t2.pool);
      LiftedMoves(t2, last);
      TimerExecCons(t1, Close, Lifted(last));
      TimerExecConcat(t, first, [Close] + Lifted(last));
      more := first + ([Close] + Lifted(last));
    }
    TimerExecConcat(TimerStart(max), steps, more);
    QuietHistory(max, steps, more);
  }
}
