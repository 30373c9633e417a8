/**
 nnero/bqueue.hpp: a bounded first-in first-out queue. Every operation is one critical section
 under `m_mutex`; for the two that block, `take` and `offer`, the section modelled is one
 evaluation of the wait predicate and, when it holds, the transfer that follows.
 */
module BlockingQueues {

  /** What one critical section comes to. `Thrown` is a runtime_error, `Interrupted` the exception of interruptPoint. */
  datatype Outcome<+T> = Got(value: T) | Placed | Refused | Thrown | Blocked | Interrupted

  datatype Operation<+T> =
    | CallPoll | CallTake(interrupted: bool)
    | CallAdd(t: T) | CallPut(t: T) | CallOffer(t: T, interrupted: bool)

  /** The state of the queue and the outcome after one operation on contents `q`. */
  function After<T>(q: seq<T>, max: nat, op: Operation<T>): (seq<T>, Outcome<T>) {
    match op
    case CallPoll => if q == [] then (q, Thrown) else (q[1..], Got(q[0]))
    case CallTake(interrupted) =>
      if interrupted then (q, Interrupted) else if q == [] then (q, Blocked) else (q[1..], Got(q[0]))
    case CallAdd(t) => if |q| == max then (q, Refused) else (q + [t], Placed)
    case CallPut(t) => if |q| == max then (q, Thrown) else (q + [t], Placed)
    case CallOffer(t, interrupted) =>
      if interrupted then (q, Interrupted) else if |q| < max then (q + [t], Placed) else (q, Blocked)
  }

  class BlockingQueue<T> {
    const m_max: nat
    var m_inner_queue: seq<T>

    ghost predicate Valid()
      reads this
    {
      |m_inner_queue| <= m_max
    }

    constructor (max: nat)
      ensures Valid() && m_max == max && m_inner_queue == []
    {
      m_max, m_inner_queue := max, [];
    }

    method IsEmpty() returns (b: bool)
      ensures b <==> m_inner_queue == []
    {
      b := |m_inner_queue| == 0;
    }

    method Poll() returns (r: Outcome<T>)
      requires Valid()
      modifies this
      ensures Valid() && (m_inner_queue, r) == After(old(m_inner_queue), m_max, CallPoll)
      ensures if old(m_inner_queue) == [] then r == Thrown && m_inner_queue == []
              else r.Got? && [r.value] + m_inner_queue == old(m_inner_queue)
    {
      if |m_inner_queue| == 0 {
        return Thrown;
      }
      r := Got(m_inner_queue[0]);
      m_inner_queue := m_inner_queue[1..];
    }

    method Take(interrupted: bool) returns (r: Outcome<T>)
      requires Valid()
      modifies this
      ensures Valid() && (m_inner_queue, r) == After(old(m_inner_queue), m_max, CallTake(interrupted))
      ensures r.Interrupted? <==> interrupted
      ensures r.Blocked? <==> !interrupted && old(m_inner_queue) == []
      ensures r.Got? ==> [r.value] + m_inner_queue == old(m_inner_queue)
      ensures !r.Got? ==> m_inner_queue == old(m_inner_queue)
    {
      if interrupted {
        return Interrupted;
      }
      if |m_inner_queue| == 0 {
        return Blocked;
      }
      r := Got(m_inner_queue[0]);
      m_inner_queue := m_inner_queue[1..];
    }

    method Add(t: T) returns (r: Outcome<T>)
      requires Valid()
      modifies this
      ensures Valid() && (m_inner_queue, r) == After(old(m_inner_queue), m_max, CallAdd(t))
      ensures if |old(m_inner_queue)| == m_max then r == Refused && m_inner_queue == old(m_inner_queue)
              else r == Placed && m_inner_queue == old(m_inner_queue) + [t]
    {
      if |m_inner_queue| == m_max {
        return Refused;
      }
      m_inner_queue := m_inner_queue + [t];
      r := Placed;
    }

    method Put(t: T) returns (r: Outcome<T>)
      requires Valid()
      modifies this
      ensures Valid() && (m_inner_queue, r) == After(old(m_inner_queue), m_max, CallPut(t))
      ensures if |old(m_inner_queue)| == m_max then r == Thrown && m_inner_queue == old(m_inner_queue)
              else r == Placed && m_inner_queue == old(m_inner_queue) + [t]
    {
      if |m_inner_queue| == m_max {
        return Thrown;
      }
      m_inner_queue := m_inner_queue + [t];
      r := Placed;
    }

    method Offer(t: T, interrupted: bool) returns (r: Outcome<T>)
      requires Valid()
      modifies this
      ensures Valid() && (m_inner_queue, r) == After(old(m_inner_queue), m_max, CallOffer(t, interrupted))
      ensures r.Interrupted? <==> interrupted
      ensures r.Blocked? <==> !interrupted && |old(m_inner_queue)| == m_max
      ensures m_inner_queue == if r.Placed? then old(m_inner_queue) + [t] else old(m_inner_queue)
    {
      if interrupted {
        return Interrupted;
      }
      if |m_inner_queue| >= m_max {
        return Blocked;
      }
      m_inner_queue := m_inner_queue + [t];
      r := Placed;
    }
  }

  predicate Puts<T>(op: Operation<T>) {
    op.CallAdd? || op.CallPut? || op.CallOffer?
  }

  predicate InterruptedCall<T>(op: Operation<T>) {
    (op.CallTake? || op.CallOffer?) && op.interrupted
  }

  /**
   Within its bound, an operation succeeds exactly when there is room, or an element, for it and
   no interrupt; otherwise it changes nothing. `add` says so, `poll` and `put` throw, the other
   two wait, and an interrupt comes before everything else.
   */
  lemma OutcomeExact<T>(q: seq<T>, max: nat, op: Operation<T>)
    requires |q| <= max
    ensures var (q', r) := After(q, max, op);
            && (r.Placed? <==> Puts(op) && |q| < max && !InterruptedCall(op))
            && (r.Got? <==> !Puts(op) && q != [] && !InterruptedCall(op))
            && (!r.Placed? && !r.Got? ==> q' == q)
            && (r.Interrupted? <==> InterruptedCall(op))
            && (r.Thrown? ==> op.CallPoll? || op.CallPut?) && (r.Refused? ==> op.CallAdd?)
            && (r.Blocked? ==> op.CallTake? || op.CallOffer?)
  {
  }

  // ---------- Any number of operations, by any threads ----------

  function Contents<T>(q: seq<T>, max: nat, ops: seq<Operation<T>>): seq<T>
    decreases |ops|
  {
    if ops == [] then q else Contents(After(q, max, ops[0]).0, max, ops[1..])
  }

  function Argument<T>(op: Operation<T>): seq<T> {
    match op
    case CallAdd(t) => [t]
    case CallPut(t) => [t]
    case CallOffer(t, _) => [t]
    case _ => []
  }

  /** Everything the operations put in, in order. */
  function PutIn<T>(q: seq<T>, max: nat, ops: seq<Operation<T>>): seq<T>
    decreases |ops|
  {
    if ops == [] then [] else
    var (q', r) := After(q, max, ops[0]);
    (if r.Placed? then Argument(ops[0]) else []) + PutIn(q', max, ops[1..])
  }

  /** Everything the operations took out, in order. */
  function TakenOut<T>(q: seq<T>, max: nat, ops: seq<Operation<T>>): seq<T>
    decreases |ops|
  {
    if ops == [] then [] else
    var (q', r) := After(q, max, ops[0]);
    (if r.Got? then [r.value] else []) + TakenOut(q', max, ops[1..])
  }

  /** One operation takes from the front what it takes and puts at the back what it puts. */
  lemma OneIsFifo<T>(q: seq<T>, max: nat, op: Operation<T>)
    requires |q| <= max
    ensures var (q', r) := After(q, max, op);
            && q + (if r.Placed? then Argument(op) else []) == (if r.Got? then [r.value] else []) + q'
            && |q'| <= max
  {
  }

  lemma Regroup<T>(q: seq<T>, placed: seq<T>, got: seq<T>, q': seq<T>, a: seq<T>, b: seq<T>, c: seq<T>)
    requires q + placed == got + q' && q' + a == b + c
    ensures q + (placed + a) == (got + b) + c
  {
    assert q + (placed + a) == (q + placed) + a;
    assert (got + q') + a == got + (q' + a);
    assert (got + b) + c == got + (b + c);
  }

  /** First in, first out, nothing lost, nothing made up, and the bound is never passed. */
  lemma {:induction false} QueueIsFifo<T>(q: seq<T>, max: nat, ops: seq<Operation<T>>)
    requires |q| <= max
    ensures q + PutIn(q, max, ops) == TakenOut(q, max, ops) + Contents(q, max, ops)
    ensures |Contents(q, max, ops)| <= max
    decreases |ops|
  {
    if ops != [] {
      var e := After(q, max, ops[0]);
      OneIsFifo(q, max, ops[0]);
      QueueIsFifo(e.0, max, ops[1..]);
      Regroup(q, if e.1.Placed? then Argument(ops[0]) else [], if e.1.Got? then [e.1.value] else [],
              e.0, PutIn(e.0, max, ops[1..]), TakenOut(e.0, max, ops[1..]), Contents(e.0, max, ops[1..]));
    }
  }

  // ---------- Filling and draining ----------

  function AddAll<T>(ts: seq<T>): seq<Operation<T>> {
    seq(|ts|, i requires 0 <= i < |ts| => CallAdd(ts[i]))
  }

  function PollTimes<T>(n: nat): seq<Operation<T>> {
    seq(n, _ => CallPoll)
  }

  function Least(a: nat, b: nat): nat {
    if a < b then a else b
  }

  /** Adding one after the other takes what there is room for, from the front, and refuses the rest. */
  lemma {:induction false} AddsFill<T>(q: seq<T>, max: nat, ts: seq<T>)
    requires |q| <= max
    ensures Contents(q, max, AddAll(ts)) == q + ts[..Least(|ts|, max - |q|)]
    decreases |ts|
  {
    if ts == [] {
      assert q + ts == q;
    } else {
      assert AddAll(ts)[1..] == AddAll(ts[1..]);
      var q' := After(q, max, CallAdd(ts[0])).0;
      AddsFill(q', max, ts[1..]);
      assert |q| < max ==> q' + ts[1..][..Least(|ts| - 1, max - |q'|)] == q + ts[..Least(|ts|, max - |q|)];
    }
  }

  /** Polling one after the other gives the contents from the front, until nothing is left. */
  lemma {:induction false} PollsDrain<T>(q: seq<T>, max: nat, n: nat)
    requires |q| <= max
    ensures TakenOut(q, max, PollTimes(n)) == q[..Least(n, |q|)]
    ensures Contents(q, max, PollTimes(n)) == q[Least(n, |q|)..]
    decreases n
  {
    if n > 0 {
      assert PollTimes<T>(n)[1..] == PollTimes<T>(n - 1);
      PollsDrain(After(q, max, CallPoll).0, max, n - 1);
    }
  }
}
