/**
 nnero/time_wheel.cpp: a wheel of ten slots with a rotation counter per task, against a plain
 list of deadlines. `addTask` and one pass of the loop of `tick` are atomic here.
 */
module TimeWheels {
  import opened Tasks

  const SLOTS := 10
  const MIN_UNIT := 10

  // ---------- Machine integers ----------

  const TWO_31: int := 0x8000_0000
  const TWO_32: int := 0x1_0000_0000
  const TWO_63: int := 0x8000_0000_0000_0000
  const TWO_64: int := 0x1_0000_0000_0000_0000

  /** Conversion to a 32-bit `int`. */
  function Int32(x: int): int {
    (x + TWO_31) % TWO_32 - TWO_31
  }

  /** Conversion to a 64-bit `size_t`. */
  function SizeT(x: int): int {
    x % TWO_64
  }

  predicate IsLong(x: int) {
    -TWO_63 <= x < TWO_63
  }

  /** Lines 39-40: the slot of a delay above ten milliseconds, when `index` is current. */
  function Slot(delay: int, index: nat): nat
    requires delay > 10
  {
    SizeT(Int32(delay / MIN_UNIT + index)) % SLOTS
  }

  /** Line 41. */
  function Rotation(delay: int): int
    requires delay > 10
  {
    Int32(SizeT(delay / MIN_UNIT) / SLOTS)
  }

  // ---------- The plain list of deadlines ----------

  datatype Deadline = Deadline(task: Task, due: nat)

  /** In how many ticks a delay falls due: one for anything up to ten milliseconds. */
  function DueIn(delay: int): nat {
    if delay <= 10 then 1 else delay / MIN_UNIT
  }

  /** The tasks due on tick `n`, in the order in which they were added. */
  function DueAt(adds: seq<Deadline>, n: nat): seq<Task> {
    if adds == [] then [] else
    var d := adds[|adds| - 1];
    DueAt(adds[..|adds| - 1], n) + if d.due == n then [d.task] else []
  }

  /** The tasks due before tick `n`: by due tick, and within a tick in the order added. */
  function DueBefore(adds: seq<Deadline>, n: nat): seq<Task> {
    if n == 0 then [] else DueBefore(adds, n - 1) + DueAt(adds, n - 1)
  }

  // ---------- The wheel ----------

  datatype TimeTask = TimeTask(m_rotation: int, m_func: Task) {
    /** `checkCanRun`: whether the task may run, and the task afterwards. */
    function CheckCanRun(): (bool, TimeTask) {
      if m_rotation == 0 then (true, this) else (false, this.(m_rotation := m_rotation - 1))
    }
  }

  /** What slot `j` must hold when tick `now` is next: the deadlines not yet due that end in `j`. */
  function Slotted(adds: seq<Deadline>, j: nat, now: nat): seq<TimeTask> {
    if adds == [] then [] else
    Slotted(adds[..|adds| - 1], j, now) + Entry(adds[|adds| - 1], j, now)
  }

  /** What slot `j` holds for one deadline: a task with as many rotations as full rounds remain. */
  function Entry(d: Deadline, j: nat, now: nat): seq<TimeTask> {
    if d.due >= now && d.due % SLOTS == j then [TimeTask((d.due - now) / SLOTS, d.task)] else []
  }

  /** What one pass of the loop runs, and what it puts back. */
  function Runs(ts: seq<TimeTask>): seq<Task> {
    if ts == [] then [] else
    Runs(ts[..|ts| - 1]) + if ts[|ts| - 1].CheckCanRun().0 then [ts[|ts| - 1].m_func] else []
  }

  function Remains(ts: seq<TimeTask>): seq<TimeTask> {
    if ts == [] then [] else
    Remains(ts[..|ts| - 1]) + if ts[|ts| - 1].CheckCanRun().0 then [] else [ts[|ts| - 1].CheckCanRun().1]
  }

  lemma {:induction false} RunsConcat(a: seq<TimeTask>, b: seq<TimeTask>)
    ensures Runs(a + b) == Runs(a) + Runs(b) && Remains(a + b) == Remains(a) + Remains(b)
    decreases |b|
  {
    if b == [] {
      assert a + b == a;
    } else {
      assert (a + b)[..|a + b| - 1] == a + b[..|b| - 1];
      RunsConcat(a, b[..|b| - 1]);
    }
  }

  lemma RotationCountsDown(due: nat, now: nat)
    requires due >= now && due % SLOTS == now % SLOTS
    ensures (due - now) / SLOTS == 0 <==> due == now
    ensures due > now ==> (due - now) / SLOTS - 1 == (due - (now + 1)) / SLOTS
  {
  }

  lemma EntryRuns(d: Deadline, now: nat)
    ensures Runs(Entry(d, now % SLOTS, now)) == if d.due == now then [d.task] else []
    ensures Remains(Entry(d, now % SLOTS, now)) == Entry(d, now % SLOTS, now + 1)
  {
    if d.due >= now && d.due % SLOTS == now % SLOTS {
      RotationCountsDown(d.due, now);
      var t := TimeTask((d.due - now) / SLOTS, d.task);
      assert Entry(d, now % SLOTS, now) == [t] && [t][..0] == [];
    }
  }

  /** In the slot of the current tick, rotation zero means due, and the others come round once more. */
  lemma {:induction false} CurrentSlot(adds: seq<Deadline>, now: nat)
    ensures Runs(Slotted(adds, now % SLOTS, now)) == DueAt(adds, now)
    ensures Remains(Slotted(adds, now % SLOTS, now)) == Slotted(adds, now % SLOTS, now + 1)
  {
    if adds != [] {
      var init, d, j := adds[..|adds| - 1], adds[|adds| - 1], now % SLOTS;
      CurrentSlot(init, now);
      RunsConcat(Slotted(init, j, now), Entry(d, j, now));
      EntryRuns(d, now);
    }
  }

  lemma RotationStays(due: nat, now: nat)
    requires due >= now && due % SLOTS != now % SLOTS
    ensures due > now && (due - now) / SLOTS == (due - (now + 1)) / SLOTS
  {
  }

  /** The other slots do not notice a tick. */
  lemma {:induction false} OtherSlots(adds: seq<Deadline>, j: nat, now: nat)
    requires j < SLOTS && j != now % SLOTS
    ensures Slotted(adds, j, now) == Slotted(adds, j, now + 1)
  {
    if adds != [] {
      OtherSlots(adds[..|adds| - 1], j, now);
      var d := adds[|adds| - 1];
      if d.due >= now && d.due % SLOTS == j {
        RotationStays(d.due, now);
      }
    }
  }

  lemma SlottedAppend(adds: seq<Deadline>, d: Deadline, j: nat, now: nat)
    requires d.due >= now
    ensures Slotted(adds + [d], j, now) ==
            Slotted(adds, j, now) +
            if d.due % SLOTS == j then [TimeTask((d.due - now) / SLOTS, d.task)] else []
  {
    assert (adds + [d])[..|adds|] == adds;
  }

  // ---------- Where `addTask` puts a task ----------

  /** Line 36 indexes `m_curr_index + 1`, which is past the ten slots when the index is 9. */
  predicate InBounds(delay: int, index: nat) {
    delay <= 10 ==> index + 1 < SLOTS
  }

  /**
   The delays that are placed right: short ones unless the index is 9; long ones as long as the
   tick number does not reach 2^32 (or, by luck, when only the index carries it to 5 * 2^32).
   */
  predicate PlacedRight(delay: int, index: nat) {
    if delay <= 10 then index + 1 < SLOTS
    else
      || delay / MIN_UNIT + index < TWO_32
      || delay / MIN_UNIT < 5 * TWO_32 <= delay / MIN_UNIT + index
  }

  lemma WrapKeepsLastDigit(x: int)
    requires 0 <= x
    ensures SizeT(Int32(x)) % 10 == x % TWO_32 % 10
  {
    var r := x % TWO_32;
    assert Int32(x) == if r < TWO_31 then r else r - TWO_32;
    if r >= TWO_31 {
      assert SizeT(Int32(x)) == r + 10 * 0x1999_9999_8000_0000;
    }
  }

  lemma LastDigit(p: int, r: int)
    ensures (p * TWO_32 + r) % 10 == r % 10 <==> p % 5 == 0
  {
    assert p * TWO_32 + r == 10 * (429496729 * p) + (6 * p + r);
    assert (p * TWO_32 + r) % 10 == (6 * p + r) % 10;
    var q, d := p / 5, p % 5;
    assert 6 * p + r == 10 * (3 * q) + (6 * d + r);
    assert (6 * p + r) % 10 == (6 * d + r) % 10;
  }

  lemma SlotIsRight(delay: int, index: nat)
    requires 10 < delay < TWO_63 && index < SLOTS
    ensures Slot(delay, index) == (delay / MIN_UNIT + index) % SLOTS <==>
            (delay / MIN_UNIT + index) / TWO_32 % 5 == 0
  {
    var x := delay / MIN_UNIT + index;
    WrapKeepsLastDigit(x);
    LastDigit(x / TWO_32, x % TWO_32);
  }

  /** The slot and the rotation of a long delay are right exactly when `PlacedRight` says so. */
  lemma PlacementExact(delay: int, index: nat)
    requires 10 < delay < TWO_63 && index < SLOTS
    ensures PlacedRight(delay, index) <==>
            Slot(delay, index) == (delay / MIN_UNIT + index) % SLOTS && Rotation(delay) == delay / MIN_UNIT / SLOTS
  {
    SlotIsRight(delay, index);
    var u := delay / MIN_UNIT;
    assert SizeT(u) == u;
    assert Rotation(delay) == u / SLOTS <==> u / SLOTS < TWO_31;
  }

  lemma IndexPlusUnits(now: nat, units: nat)
    ensures (now % SLOTS + units) % SLOTS == (now + units) % SLOTS
  {
    assert now + units == SLOTS * (now / SLOTS) + (now % SLOTS + units);
  }

  /** The same against the tick on which the delay falls due. */
  lemma PlacementMatchesDue(delay: int, now: nat)
    requires delay < TWO_63
    ensures delay > 10 ==>
              (PlacedRight(delay, now % SLOTS) <==>
               Slot(delay, now % SLOTS) == (now + DueIn(delay)) % SLOTS && Rotation(delay) == DueIn(delay) / SLOTS)
    ensures delay <= 10 && PlacedRight(delay, now % SLOTS) ==> now % SLOTS + 1 == (now + DueIn(delay)) % SLOTS
  {
    IndexPlusUnits(now, DueIn(delay));
    if delay > 10 {
      PlacementExact(delay, now % SLOTS);
    }
  }

  // ---------- The ten slots together ----------

  /** The wheel holds exactly the deadlines still to come, each slot in the order added. */
  ghost predicate Holds(boxes: seq<seq<TimeTask>>, adds: seq<Deadline>, now: nat) {
    |boxes| == SLOTS && forall j :: 0 <= j < SLOTS ==> boxes[j] == Slotted(adds, j, now)
  }

  /** Pushing a task back keeps the wheel right exactly when slot and rotation are the deadline's. */
  lemma PushKeeps(boxes: seq<seq<TimeTask>>, adds: seq<Deadline>, now: nat, slot: nat, t: TimeTask, d: Deadline)
    requires Holds(boxes, adds, now) && slot < SLOTS && d.due >= now && t.m_func == d.task
    ensures Holds(boxes[slot := boxes[slot] + [t]], adds + [d], now) <==>
            slot == d.due % SLOTS && t.m_rotation == (d.due - now) / SLOTS
  {
    var due := d.due % SLOTS;
    var boxes' := boxes[slot := boxes[slot] + [t]];
    forall j: nat | j < SLOTS
      ensures Slotted(adds + [d], j, now) ==
              boxes[j] + if due == j then [TimeTask((d.due - now) / SLOTS, d.task)] else []
    {
      SlottedAppend(adds, d, j, now);
    }
    assert boxes'[slot][|boxes[slot]|] == t;
    assert slot != due ==> |boxes'[due]| < |Slotted(adds + [d], due, now)|;
  }

  lemma NextIndex(now: nat)
    ensures (now + 1) % SLOTS == if now % SLOTS + 1 >= SLOTS then 0 else now % SLOTS + 1
  {
  }

  /** One pass over the current slot fires what is due and keeps the wheel right for the next tick. */
  lemma PassKeeps(boxes: seq<seq<TimeTask>>, adds: seq<Deadline>, now: nat)
    requires Holds(boxes, adds, now)
    ensures Runs(boxes[now % SLOTS]) == DueAt(adds, now)
    ensures Holds(boxes[now % SLOTS := Remains(boxes[now % SLOTS])], adds, now + 1)
  {
    CurrentSlot(adds, now);
    forall j: nat | j < SLOTS && j != now % SLOTS
      ensures Slotted(adds, j, now) == Slotted(adds, j, now + 1)
    {
      OtherSlots(adds, j, now);
    }
  }

  // ---------- The class ----------

  class TimeWheel {
    const m_time_box: array<seq<TimeTask>>
    var m_curr_index: nat
    ghost var now: nat
    ghost var adds: seq<Deadline>

    ghost predicate Valid()
      reads this, m_time_box
    {
      m_time_box.Length == SLOTS && m_curr_index == now % SLOTS && Holds(m_time_box[..], adds, now)
    }

    constructor ()
      ensures Valid() && fresh(m_time_box) && now == 0 && adds == []
    {
      m_time_box, m_curr_index := new seq<TimeTask>[SLOTS](_ => []), 0;
      now, adds := 0, [];
    }

    /**
     `addTask`. Nothing happens, and `inBounds` is false, when the code would index past the
     slots. Otherwise the wheel gains the deadline it ought to gain exactly if the delay is one
     of those placed right.
     */
    method AddTask(f: Task, delay: int) returns (inBounds: bool)
      requires Valid() && IsLong(delay)
      modifies m_time_box, `adds
      ensures inBounds <==> InBounds(delay, m_curr_index)
      ensures !inBounds ==> Valid() && adds == old(adds)
      ensures inBounds ==> adds == old(adds) + [Deadline(f, now + DueIn(delay))]
      ensures inBounds ==> (Valid() <==> PlacedRight(delay, m_curr_index))
    {
      var slot: nat, rotation: int;
      if delay <= 10 {
        if m_curr_index + 1 >= SLOTS {
          return false;
        }
        slot, rotation := m_curr_index + 1, 0;
      } else {
        slot, rotation := Slot(delay, m_curr_index), Rotation(delay);
      }
      PlacementMatchesDue(delay, now);
      ghost var d := Deadline(f, now + DueIn(delay));
      ghost var boxes := m_time_box[..];
      PushKeeps(boxes, adds, now, slot, TimeTask(rotation, f), d);
      m_time_box[slot] := m_time_box[slot] + [TimeTask(rotation, f)];
      assert m_time_box[..] == boxes[slot := boxes[slot] + [TimeTask(rotation, f)]];
      adds := adds + [d];
      inBounds := true;
    }

    /** Lines 69-78: empties the list from the front and keeps what may not run yet. */
    static method Pass(box: seq<TimeTask>) returns (fired: seq<Task>, remain_list: seq<TimeTask>)
      ensures fired == Runs(box) && remain_list == Remains(box)
    {
      var list := box;
      fired, remain_list := [], [];
      while |list| > 0
        invariant fired + Runs(list) == Runs(box) && remain_list + Remains(list) == Remains(box)
        decreases |list|
      {
        var t, rest := list[0], list[1..];
        assert [t] + rest == list && [t][..0] == [];
        RunsConcat([t], rest);
        var (runs, t') := t.CheckCanRun();
        if runs {
          fired := fired + [t'.m_func];
        } else {
          remain_list := remain_list + [t'];
        }
        list := rest;
      }
    }

    /** One pass of the loop of `tick`: `fired` is what it hands to the pool, in order. */
    method Tick() returns (fired: seq<Task>)
      requires Valid()
      modifies this, m_time_box
      ensures Valid() && now == old(now) + 1 && adds == old(adds)
      ensures fired == DueAt(adds, old(now))
    {
      NextIndex(now);
      var current := m_curr_index;
      m_curr_index := m_curr_index + 1;
      if m_curr_index >= SLOTS {
        m_curr_index := 0;
      }
      ghost var boxes := m_time_box[..];
      PassKeeps(boxes, adds, now);
      var remain_list;
      fired, remain_list := Pass(m_time_box[current]);
      m_time_box[current] := remain_list;
      assert m_time_box[..] == boxes[current := remain_list];
      now := now + 1;
    }
  }
}
