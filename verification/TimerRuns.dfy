/**
 Whole runs of the timer of nnero/time_wheel.cpp: the wheel against the plain list of deadlines,
 with a time for every call.
 */
module TimerRuns {
  import opened Tasks
  import opened TimeWheels

  datatype Call = AddTask(f: Task, delay: int) | Tick

  /** A call, and when it is made, in milliseconds. */
  datatype Timed = Timed(call: Call, at: real)

  /** A task, and when it is handed to the pool. */
  datatype Firing = Firing(task: Task, at: real)

  /** The deadline that one call sets, when tick `now` is next. */
  function Sets(c: Call, now: nat): seq<Deadline> {
    match c
    case AddTask(f, delay) => [Deadline(f, now + DueIn(delay))]
    case Tick => []
  }

  function TickOf(c: Timed): seq<real> {
    if c.call.Tick? then [c.at] else []
  }

  /** The deadlines a run sets, when tick `now` is next at its start. */
  function Deadlines(run: seq<Timed>, now: nat): seq<Deadline>
    decreases |run|
  {
    if run == [] then [] else Sets(run[0].call, now) + Deadlines(run[1..], now + |TickOf(run[0])|)
  }

  /** When the ticks of a run take place. */
  function TickTimes(run: seq<Timed>): seq<real>
    decreases |run|
  {
    if run == [] then [] else TickOf(run[0]) + TickTimes(run[1..])
  }

  /** The delay is one that `addTask` places right when tick `now` is next. */
  predicate CallPlacedRight(c: Call, now: nat) {
    c.AddTask? ==> IsLong(c.delay) && PlacedRight(c.delay, now % SLOTS)
  }

  /** Every delay of the run is one that `addTask` places right at the moment it is added. */
  predicate AllPlacedRight(run: seq<Timed>, now: nat)
    decreases |run|
  {
    run != [] ==>
      CallPlacedRight(run[0].call, now) && AllPlacedRight(run[1..], now + |TickOf(run[0])|)
  }

  // ---------- The wheel runs what the list of deadlines says ----------

  function Stamped(ts: seq<Task>, at: real): (fs: seq<Firing>)
    ensures |fs| == |ts| && forall i :: 0 <= i < |ts| ==> fs[i] == Firing(ts[i], at)
  {
    seq(|ts|, i requires 0 <= i < |ts| => Firing(ts[i], at))
  }

  /** What a plain list of deadlines makes of ticks at `times`: on each, what falls due on it, in the order added. */
  function Firings(adds: seq<Deadline>, times: seq<real>): seq<Firing> {
    if times == [] then [] else
    var n := |times| - 1;
    Firings(adds, times[..n]) + Stamped(DueAt(adds, n), times[n])
  }

  lemma DueAtAppend(adds: seq<Deadline>, d: Deadline, n: nat)
    ensures DueAt(adds + [d], n) == DueAt(adds, n) + if d.due == n then [d.task] else []
  {
    assert (adds + [d])[..|adds|] == adds;
  }

  /** What falls due on a tick is listed in the order added, whoever added it. */
  lemma {:induction false} DueAtConcat(a: seq<Deadline>, b: seq<Deadline>, n: nat)
    ensures DueAt(a + b, n) == DueAt(a, n) + DueAt(b, n)
    ensures forall d: Deadline :: DueAt([d], n) == if d.due == n then [d.task] else []
    decreases |b|
  {
    assert forall d: Deadline :: [d][..0] == [];
    if b == [] {
      assert a + b == a;
    } else {
      assert (a + b)[..|a + b| - 1] == a + b[..|b| - 1];
      DueAtConcat(a, b[..|b| - 1], n);
    }
  }

  /** A new deadline lies ahead, so it does not change what has already run. */
  lemma {:induction false} PastIsSettled(adds: seq<Deadline>, d: Deadline, times: seq<real>)
    requires d.due >= |times|
    ensures Firings(adds + [d], times) == Firings(adds, times)
  {
    if times != [] {
      PastIsSettled(adds, d, times[..|times| - 1]);
      DueAtAppend(adds, d, |times| - 1);
    }
  }

  /** What falls due on the tick after `times` is handed over at its time. */
  lemma TickLogged(adds: seq<Deadline>, times: seq<real>, at: real)
    ensures Firings(adds, times + [at]) == Firings(adds, times) + Stamped(DueAt(adds, |times|), at)
  {
    assert (times + [at])[..|times|] == times;
  }

  /** An add on the wheel: one more deadline, and nothing fired. */
  method StepAdd(wheel: TimeWheel, f: Task, delay: int, ghost times: seq<real>)
    requires wheel.Valid() && IsLong(delay) && PlacedRight(delay, wheel.now % SLOTS) && |times| == wheel.now
    modifies wheel, wheel.m_time_box
    ensures wheel.Valid() && wheel.now == old(wheel.now)
    ensures wheel.adds == old(wheel.adds) + [Deadline(f, old(wheel.now) + DueIn(delay))]
    ensures Firings(wheel.adds, times) == Firings(old(wheel.adds), times)
  {
    PastIsSettled(wheel.adds, Deadline(f, wheel.now + DueIn(delay)), times);
    var _ := wheel.AddTask(f, delay);
  }

  /** A tick of the wheel: what falls due is fired, at the time of the tick. */
  method StepTick(wheel: TimeWheel, at: real, ghost times: seq<real>) returns (fired: seq<Firing>)
    requires wheel.Valid() && |times| == wheel.now
    modifies wheel, wheel.m_time_box
    ensures wheel.Valid() && wheel.now == old(wheel.now) + 1 && wheel.adds == old(wheel.adds)
    ensures Firings(wheel.adds, times + [at]) == Firings(old(wheel.adds), times) + fired
  {
    TickLogged(wheel.adds, times, at);
    var due := wheel.Tick();
    fired := Stamped(due, at);
  }

  /** One call on the wheel, and what it adds to the log. */
  method Step(wheel: TimeWheel, c: Timed, ghost times: seq<real>) returns (fired: seq<Firing>)
    requires wheel.Valid() && CallPlacedRight(c.call, wheel.now) && |times| == wheel.now
    modifies wheel, wheel.m_time_box
    ensures wheel.Valid()
    ensures wheel.adds == old(wheel.adds) + Sets(c.call, old(wheel.now))
    ensures wheel.now == |times + TickOf(c)|
    ensures Firings(wheel.adds, times + TickOf(c)) == Firings(old(wheel.adds), times) + fired
  {
    match c.call
    case AddTask(f, delay) =>
      assert times + [] == times;
      StepAdd(wheel, f, delay, times);
      fired := [];
    case Tick =>
      assert wheel.adds + [] == wheel.adds;
      fired := StepTick(wheel, c.at, times);
  }

  /** All that will have run after `run`, when `adds` are set and the ticks so far were at `times`. */
  function Log(adds: seq<Deadline>, times: seq<real>, run: seq<Timed>): seq<Firing> {
    Firings(adds + Deadlines(run, |times|), times + TickTimes(run))
  }

  lemma LogSplits(adds: seq<Deadline>, times: seq<real>, run: seq<Timed>)
    requires run != []
    ensures Log(adds, times, run) == Log(adds + Sets(run[0].call, |times|), times + TickOf(run[0]), run[1..])
  {
    var c, rest := run[0], run[1..];
    Regrouped(adds, Sets(c.call, |times|), Deadlines(rest, |times| + |TickOf(c)|), times, TickOf(c), TickTimes(rest));
  }

  lemma Regrouped(adds: seq<Deadline>, a: seq<Deadline>, b: seq<Deadline>, times: seq<real>, u: seq<real>, v: seq<real>)
    ensures Firings(adds + (a + b), times + (u + v)) == Firings(adds + a + b, times + u + v)
  {
    assert adds + (a + b) == adds + a + b && times + (u + v) == times + u + v;
  }

  method RunFrom(wheel: TimeWheel, run: seq<Timed>, ghost times: seq<real>, log: seq<Firing>)
    returns (whole: seq<Firing>)
    requires wheel.Valid() && AllPlacedRight(run, wheel.now)
    requires |times| == wheel.now && log == Firings(wheel.adds, times)
    modifies wheel, wheel.m_time_box
    ensures whole == Log(old(wheel.adds), times, run)
    decreases |run|
  {
    if run == [] {
      assert wheel.adds + [] == wheel.adds && times + [] == times;
      return log;
    }
    LogSplits(wheel.adds, times, run);
    var fired := Step(wheel, run[0], times);
    whole := RunFrom(wheel, run[1..], times + TickOf(run[0]), log + fired);
  }

  // ---------- Each deadline is met once ----------

  /** The tasks with a deadline before tick `n`, in the order added. */
  function Below(adds: seq<Deadline>, n: nat): seq<Task> {
    if adds == [] then [] else
    var d := adds[|adds| - 1];
    Below(adds[..|adds| - 1], n) + if d.due < n then [d.task] else []
  }

  function Times(ts: seq<Task>, t: Task): nat {
    if ts == [] then 0 else Times(ts[..|ts| - 1], t) + if ts[|ts| - 1] == t then 1 else 0
  }

  /** The multiplicity of a task in a list. */
  lemma {:induction false} TimesIs(ts: seq<Task>, t: Task)
    ensures Times(ts, t) == multiset(ts)[t]
  {
    if ts != [] {
      var init, x := ts[..|ts| - 1], ts[|ts| - 1];
      TimesIs(init, t);
      assert ts == init + [x];
    }
  }

  lemma {:induction false} TimesConcat(a: seq<Task>, b: seq<Task>, t: Task)
    ensures Times(a + b, t) == Times(a, t) + Times(b, t)
    decreases |b|
  {
    if b == [] {
      assert a + b == a;
    } else {
      assert (a + b)[..|a + b| - 1] == a + b[..|b| - 1];
      TimesConcat(a, b[..|b| - 1], t);
    }
  }

  lemma TimesOneMore(ts: seq<Task>, more: bool, x: Task, t: Task)
    ensures Times(ts + (if more then [x] else []), t) == Times(ts, t) + if more && x == t then 1 else 0
  {
    assert (ts + [x])[..|ts|] == ts && ts + [] == ts;
  }

  /** One tick more lets through what falls due on it. */
  lemma {:induction false} BelowNext(adds: seq<Deadline>, n: nat, t: Task)
    ensures Times(Below(adds, n), t) + Times(DueAt(adds, n), t) == Times(Below(adds, n + 1), t)
  {
    if adds != [] {
      var init, d := adds[..|adds| - 1], adds[|adds| - 1];
      BelowNext(init, n, t);
      TimesOneMore(Below(init, n), d.due < n, d.task, t);
      TimesOneMore(DueAt(init, n), d.due == n, d.task, t);
      TimesOneMore(Below(init, n + 1), d.due < n + 1, d.task, t);
    }
  }

  lemma {:induction false} NothingBelow(adds: seq<Deadline>)
    ensures Below(adds, 0) == []
  {
    if adds != [] { NothingBelow(adds[..|adds| - 1]); }
  }

  lemma OneTickOn(adds: seq<Deadline>, n: nat, t: Task)
    requires Times(DueBefore(adds, n), t) == Times(Below(adds, n), t)
    ensures Times(DueBefore(adds, n + 1), t) == Times(Below(adds, n + 1), t)
  {
    var before, due := DueBefore(adds, n), DueAt(adds, n);
    assert DueBefore(adds, n + 1) == before + due;
    TimesConcat(before, due, t);
    BelowNext(adds, n, t);
  }

  /** Nothing runs twice and nothing is forgotten: each task has run as often as it fell due. */
  lemma {:induction false} EachRunsOnce(adds: seq<Deadline>, n: nat, t: Task)
    ensures Times(DueBefore(adds, n), t) == Times(Below(adds, n), t)
    decreases n
  {
    if n == 0 {
      NothingBelow(adds);
    } else {
      EachRunsOnce(adds, n - 1, t);
      OneTickOn(adds, n - 1, t);
    }
  }

  function TasksOf(fs: seq<Firing>): seq<Task> {
    seq(|fs|, i requires 0 <= i < |fs| => fs[i].task)
  }

  /** Without the times, the log lists the tasks by due tick and, within a tick, in the order added. */
  lemma {:induction false} FiringsAreDue(adds: seq<Deadline>, times: seq<real>)
    ensures TasksOf(Firings(adds, times)) == DueBefore(adds, |times|)
  {
    if times != [] {
      var n := |times| - 1;
      FiringsAreDue(adds, times[..n]);
      var a, b := Firings(adds, times[..n]), Stamped(DueAt(adds, n), times[n]);
      assert TasksOf(a + b) == TasksOf(a) + TasksOf(b);
      assert TasksOf(b) == DueAt(adds, n);
    }
  }

  // ---------- Real time ----------

  /** How long after its own call each task was to run, and when that call was made. */
  datatype Wish = Wish(delay: int, at: real)

  function Wishes(run: seq<Timed>): seq<Wish>
    decreases |run|
  {
    if run == [] then [] else
    (if run[0].call.AddTask? then [Wish(run[0].call.delay, run[0].at)] else []) + Wishes(run[1..])
  }

  /** When tick `k` takes place, ideally. */
  function TickAt(start: real, k: int): real {
    start + 10.0 * k as real
  }

  predicate Between(start: real, at: real, now: int) {
    TickAt(start, now - 1) < at <= TickAt(start, now)
  }

  /** Ticks take place when they should, and a call between two of them after the one and not after the other. */
  predicate OnTime(run: seq<Timed>, start: real, now: nat)
    decreases |run|
  {
    run != [] ==>
      match run[0].call
      case AddTask(_, _) => Between(start, run[0].at, now) && OnTime(run[1..], start, now)
      case Tick => run[0].at == TickAt(start, now) && OnTime(run[1..], start, now + 1)
  }

  /**
   A short delay, of at most ten milliseconds, takes from ten to twenty. Any other is rounded down to
   a multiple of ten, and then up to the next tick: never early by more than its last digit.
   */
  predicate Prompt(w: Wish, firedAt: real) {
    if w.delay <= 10 then 10.0 <= firedAt - w.at < 20.0
    else -((w.delay % 10) as real) <= firedAt - w.at - w.delay as real < 10.0 - (w.delay % 10) as real
  }

  /** So a delay of at least ten is met within ten milliseconds, and a multiple of ten never early. */
  lemma PromptMeans(w: Wish, firedAt: real)
    requires Prompt(w, firedAt) && w.delay >= 10
    ensures -10.0 < firedAt - w.at - w.delay as real < 10.0
    ensures w.delay % 10 == 0 ==> firedAt >= w.at + w.delay as real
  {
    assert 0 <= w.delay % 10 < 10;
  }

  lemma PromptTick(start: real, now: nat, w: Wish)
    requires Between(start, w.at, now)
    ensures Prompt(w, TickAt(start, now + DueIn(w.delay)))
  {
    if w.delay > 10 {
      assert w.delay == 10 * DueIn(w.delay) + w.delay % 10;
    }
  }

  lemma {:induction false} IdealTicks(run: seq<Timed>, start: real, now: nat)
    requires OnTime(run, start, now)
    ensures forall k :: 0 <= k < |TickTimes(run)| ==> TickTimes(run)[k] == TickAt(start, now + k)
    decreases |run|
  {
    if run != [] {
      IdealTicks(run[1..], start, if run[0].call.Tick? then now + 1 else now);
    }
  }

  ghost predicate AllPrompt(ws: seq<Wish>, ds: seq<Deadline>, start: real) {
    |ws| == |ds| && forall i :: 0 <= i < |ws| ==> Prompt(ws[i], TickAt(start, ds[i].due))
  }

  lemma PromptCons(w: Wish, ws: seq<Wish>, d: Deadline, ds: seq<Deadline>, start: real)
    requires AllPrompt(ws, ds, start) && Prompt(w, TickAt(start, d.due))
    ensures AllPrompt([w] + ws, [d] + ds, start)
  {
  }

  /** What the first call adds to the wishes and to the deadlines. */
  lemma FirstCall(run: seq<Timed>, now: nat)
    requires run != []
    ensures run[0].call.AddTask? ==>
              var delay := run[0].call.delay;
              && Wishes(run) == [Wish(delay, run[0].at)] + Wishes(run[1..])
              && Deadlines(run, now) == [Deadline(run[0].call.f, now + DueIn(delay))] + Deadlines(run[1..], now)
    ensures run[0].call.Tick? ==>
              Wishes(run) == Wishes(run[1..]) && Deadlines(run, now) == Deadlines(run[1..], now + 1)
  {
  }

  lemma {:induction false} DeadlinesArePrompt(run: seq<Timed>, start: real, now: nat)
    requires OnTime(run, start, now)
    ensures AllPrompt(Wishes(run), Deadlines(run, now), start)
    decreases |run|
  {
    if run != [] {
      FirstCall(run, now);
      match run[0].call
      case AddTask(f, delay) =>
        var w := Wish(delay, run[0].at);
        PromptTick(start, now, w);
        DeadlinesArePrompt(run[1..], start, now);
        PromptCons(w, Wishes(run[1..]), Deadline(f, now + DueIn(delay)), Deadlines(run[1..], now), start);
      case Tick =>
        DeadlinesArePrompt(run[1..], start, now + 1);
    }
  }

  /** What is fired, and when: each deadline whose tick has come, at the time of that tick. */
  lemma {:induction false} FiredExactly(adds: seq<Deadline>, times: seq<real>, f: Firing)
    ensures f in Firings(adds, times) <==>
            exists i :: 0 <= i < |adds| && adds[i].due < |times| && f == Firing(adds[i].task, times[adds[i].due])
  {
    if times != [] {
      var n := |times| - 1;
      FiredExactly(adds, times[..n], f);
      FiredOnTick(adds, n, f.task);
      var before, last := Firings(adds, times[..n]), Stamped(DueAt(adds, n), times[n]);
      assert f in Firings(adds, times) <==> f in before || f in last;
      assert f in last <==> f.at == times[n] && f.task in DueAt(adds, n);
    }
  }

  lemma {:induction false} FiredOnTick(adds: seq<Deadline>, n: nat, t: Task)
    ensures t in DueAt(adds, n) <==> exists i :: 0 <= i < |adds| && adds[i].due == n && adds[i].task == t
  {
    if adds != [] {
      FiredOnTick(adds[..|adds| - 1], n, t);
    }
  }

  /** Each call of a run on time has its task fired, once its tick has come, and promptly. */
  lemma FiringError(run: seq<Timed>, start: real, i: nat)
    requires OnTime(run, start, 0) && i < |Wishes(run)|
    ensures |Wishes(run)| == |Deadlines(run, 0)|
    ensures var d, times := Deadlines(run, 0)[i], TickTimes(run);
            d.due < |times| ==>
              && Firing(d.task, times[d.due]) in Firings(Deadlines(run, 0), times)
              && Prompt(Wishes(run)[i], times[d.due])
  {
    IdealTicks(run, start, 0);
    DeadlinesArePrompt(run, start, 0);
    var d, times := Deadlines(run, 0)[i], TickTimes(run);
    if d.due < |times| {
      FiredExactly(Deadlines(run, 0), times, Firing(d.task, times[d.due]));
    }
  }

  // ---------- Runs of the wheel ----------

  /**
   Through any mix of adds, ticks and rotations, at any times, the wheel hands over what a plain
   list of deadlines would: on each tick the tasks due on it, in the order added; and so each task
   as often as it fell due.
   */
  method Run(run: seq<Timed>) returns (log: seq<Firing>)
    requires AllPlacedRight(run, 0)
    ensures log == Firings(Deadlines(run, 0), TickTimes(run))
    ensures forall t :: Times(TasksOf(log), t) == Times(Below(Deadlines(run, 0), |TickTimes(run)|), t)
  {
    var wheel := new TimeWheel();
    log := RunFrom(wheel, run, [], []);
    assert [] + Deadlines(run, 0) == Deadlines(run, 0) && [] + TickTimes(run) == TickTimes(run);
    forall t
      ensures Times(TasksOf(log), t) == Times(Below(Deadlines(run, 0), |TickTimes(run)|), t)
    {
      FiringsAreDue(Deadlines(run, 0), TickTimes(run));
      EachRunsOnce(Deadlines(run, 0), |TickTimes(run)|, t);
    }
  }

  /** A firing of the log answers a call of the run, promptly. */
  ghost predicate Answers(run: seq<Timed>, i: nat, f: Firing)
    requires i < |Wishes(run)| == |Deadlines(run, 0)|
  {
    Deadlines(run, 0)[i].task == f.task && Prompt(Wishes(run)[i], f.at)
  }

  /**
   With ticks every ten milliseconds the wheel fires the task of every call whose tick has come,
   promptly after the call, and nothing that no call asked for.
   */
  method RunOnTime(run: seq<Timed>, start: real) returns (log: seq<Firing>)
    requires AllPlacedRight(run, 0) && OnTime(run, start, 0)
    ensures |Wishes(run)| == |Deadlines(run, 0)|
    ensures forall i: nat :: i < |Wishes(run)| && Deadlines(run, 0)[i].due < |TickTimes(run)| ==>
              exists f :: f in log && Answers(run, i, f)
    ensures forall f :: f in log ==> exists i: nat :: i < |Wishes(run)| && Answers(run, i, f)
  {
    log := Run(run);
    var adds, times := Deadlines(run, 0), TickTimes(run);
    IdealTicks(run, start, 0);
    DeadlinesArePrompt(run, start, 0);
    forall i: nat | i < |Wishes(run)| && adds[i].due < |times|
      ensures exists f :: f in log && Answers(run, i, f)
    {
      FiringError(run, start, i);
      assert Answers(run, i, Firing(adds[i].task, times[adds[i].due]));
    }
    forall f | f in log
      ensures exists i: nat :: i < |Wishes(run)| && Answers(run, i, f)
    {
      FiredExactly(adds, times, f);
      var i: nat :| i < |adds| && adds[i].due < |times| && f == Firing(adds[i].task, times[adds[i].due]);
      assert Answers(run, i, f);
    }
  }

  // ---------- One delay, counted in passes ----------

  /** The task is on the wheel and still to be fired. */
  ghost predicate Pending(wheel: TimeWheel, f: Task)
    reads wheel
  {
    exists d :: d in wheel.adds && d.task == f && d.due >= wheel.now
  }

  /**
   A task that is not yet on the wheel, added with any delay that is placed right: not a word here
   of deadlines, only passes of `tick` counted until one of them fires it. A short delay is fired
   by the second pass, any other by the pass numbered one above the tenth of its delay.
   */
  method DelayFires(wheel: TimeWheel, f: Task, delay: int) returns (passes: nat)
    requires wheel.Valid() && IsLong(delay) && !Pending(wheel, f)
    requires if delay <= 10 then wheel.m_curr_index != 9 else delay / 10 + wheel.m_curr_index < 0x1_0000_0000
    modifies wheel, wheel.m_time_box
    ensures passes == if delay <= 10 then 2 else delay / 10 + 1
  {
    ghost var start, before := wheel.now, wheel.adds;
    var inBounds := wheel.AddTask(f, delay);
    ghost var due := start + DueIn(delay);
    passes := 0;
    var fired := [];
    while f !in fired
      invariant wheel.Valid() && wheel.adds == before + [Deadline(f, due)] && wheel.now == start + passes
      invariant f in fired <==> passes == due - start + 1
      invariant passes <= due - start + 1
      decreases due - start + 1 - passes
    {
      ghost var n := wheel.now;
      fired := wheel.Tick();
      passes := passes + 1;
      FiredOnTick(wheel.adds, n, f);
      assert n == due ==> wheel.adds[|before|] == Deadline(f, due);
      assert forall d :: d in before && d.task == f ==> d.due < start;
    }
  }

  // ---------- Delays that are not placed right ----------

  /** After nine ticks the index is 9, and a short delay indexes past the slots. */
  method ShortDelayExample(f: Task, delay: int) returns (inBounds: bool)
    requires IsLong(delay)
    ensures inBounds <==> delay > 10
  {
    var wheel := new TimeWheel();
    for k := 0 to 9
      invariant wheel.Valid() && wheel.now == k && fresh(wheel) && fresh(wheel.m_time_box)
    {
      var _ := wheel.Tick();
    }
    inBounds := wheel.AddTask(f, delay);
  }

  /** A delay of 2^32 ticks: on a new wheel it is put six ticks early, into slot 0 and not slot 6. */
  lemma LongDelayExample()
    ensures var delay := MIN_UNIT * TWO_32;
            && delay == 42949672960 && IsLong(delay) && !PlacedRight(delay, 0)
            && Slot(delay, 0) == 0 && DueIn(delay) % SLOTS == 6
            && SLOTS * Rotation(delay) + Slot(delay, 0) == DueIn(delay) - 6
  {
  }
}
