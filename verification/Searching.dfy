/**
 algorithm/search.hpp: linear search, and binary search on input in descending order.
 */
module Searching {
  import opened Sorting

  /** `OutOfRange` is a read past the array after `mid - 1` has wrapped around at zero. */
  datatype Answer = Found(index: nat) | Absent | OutOfRange

  method SimpleSearch(a: seq<int>, target: int) returns (r: Answer, counter: nat)
    ensures r.Found? ==> r.index < |a| && a[r.index] == target && target !in a[..r.index]
    ensures r.Absent? <==> target !in a
    ensures !r.OutOfRange? && counter == if r.Found? then r.index + 1 else |a|
  {
    counter := 0;
    while counter < |a|
      invariant counter <= |a| && target !in a[..counter]
    {
      if a[counter] == target {
        return Found(counter), counter + 1;
      }
      counter := counter + 1;
    }
    r := Absent;
  }

  /** How often `n` can be halved before nothing is left: one more than floor(log2 n). */
  function Halvings(n: nat): nat {
    if n == 0 then 0 else 1 + Halvings(n / 2)
  }

  lemma {:induction false} HalvingsExact(n: nat)
    requires n > 0
    ensures Pow2(Halvings(n) - 1) <= n < Pow2(Halvings(n))
  {
    if n > 1 { HalvingsExact(n / 2); }
  }

  lemma {:induction false} HalvingsGrow(m: nat, n: nat)
    requires m <= n
    ensures Halvings(m) <= Halvings(n)
    decreases n
  {
    if m > 0 { HalvingsGrow(m / 2, n / 2); }
  }

  lemma HalvesShrink(low: nat, high: nat)
    requires low <= high
    ensures var mid := (high + low) / 2;
            && Halvings(high - mid) < Halvings(high + 1 - low) && Halvings(mid - low) < Halvings(high + 1 - low)
  {
    var mid := (high + low) / 2;
    HalvingsGrow(high - mid, (high + 1 - low) / 2);
    HalvingsGrow(mid - low, (high + 1 - low) / 2);
  }

  // ---------- How many turns, exactly ----------

  /** The turn in which index `r` is looked at, as the range from `low` to `high` is halved toward it. */
  function TurnOf(r: nat, low: nat, high: nat): (turn: nat)
    requires low <= r <= high
    ensures turn >= 1
    decreases high - low
  {
    var mid := (high + low) / 2;
    if r == mid then 1
    else if r < mid then 1 + TurnOf(r, low, mid - 1)
    else 1 + TurnOf(r, mid + 1, high)
  }

  lemma HalfLogs(m: nat)
    requires m > 0
    ensures FloorLog2((m - 1) / 2 + 1) == FloorLog2(m + 1) - 1
    ensures FloorLog2(m + 1) - 1 <= FloorLog2(m / 2 + 1)
  {
    FloorLog2Grows((m + 1) / 2, m / 2 + 1);
  }

  /** The search from `low` to `high` after `counter` turns: its answer, and the turns in all. */
  function Searched(a: seq<int>, target: int, guarded: bool, low: int, high: int, counter: nat): (Answer, nat)
    requires 0 <= low <= high + 1 <= |a|
    decreases high + 1 - low
  {
    if low > high then (Absent, counter) else
    var mid := (high + low) / 2;
    if target == a[mid] then (Found(mid), counter + 1)
    else if target < a[mid] then Searched(a, target, guarded, mid + 1, high, counter + 1)
    else if mid > 0 then Searched(a, target, guarded, low, mid - 1, counter + 1)
    else (if guarded then Absent else OutOfRange, counter + 1)
  }

  /** The target, if it is there at all, stands between `low` and `high`. */
  ghost predicate Narrowed(a: seq<int>, target: int, low: int, high: int) {
    && 0 <= low <= high + 1 <= |a| && 0 <= high
    && (forall i :: 0 <= i < |a| && a[i] == target ==> low <= i <= high)
    && (low == 0 || a[0] >= target)
  }

  lemma NarrowLeft(a: seq<int>, target: int, low: int, high: int, mid: int)
    requires Descending(a) && Narrowed(a, target, low, high) && low <= mid <= high && target > a[mid]
    ensures mid > 0 ==> Narrowed(a, target, low, mid - 1)
    ensures mid == 0 ==> target !in a && target > a[0]
  {
  }

  lemma NarrowRight(a: seq<int>, target: int, low: int, high: int, mid: int)
    requires Descending(a) && Narrowed(a, target, low, high) && low <= mid <= high && target < a[mid]
    ensures Narrowed(a, target, mid + 1, high)
  {
    assert a[0] >= a[mid];
  }

  lemma NarrowedAway(a: seq<int>, target: int, low: int, high: int)
    requires Narrowed(a, target, low, high) && low > high
    ensures target !in a && target <= a[0]
  {
  }

  /** The answer is the right one. */
  ghost predicate RightAnswer(a: seq<int>, target: int, guarded: bool, r: Answer)
    requires a != []
  {
    match r
    case Found(i) => i < |a| && a[i] == target && target <= a[0]
    case Absent => target !in a && (guarded || target <= a[0])
    case OutOfRange => target !in a && !guarded && target > a[0]
  }

  lemma {:induction false} SearchedFinds(a: seq<int>, target: int, guarded: bool, low: int, high: int, counter: nat)
    requires Descending(a) && Narrowed(a, target, low, high)
    ensures RightAnswer(a, target, guarded, Searched(a, target, guarded, low, high, counter).0)
    decreases high + 1 - low
  {
    if low > high {
      NarrowedAway(a, target, low, high);
    } else {
      var mid := (high + low) / 2;
      if target == a[mid] {
        assert a[0] >= a[mid];
      } else if target < a[mid] {
        NarrowRight(a, target, low, high, mid);
        SearchedFinds(a, target, guarded, mid + 1, high, counter + 1);
      } else {
        NarrowLeft(a, target, low, high, mid);
        if mid > 0 {
          SearchedFinds(a, target, guarded, low, mid - 1, counter + 1);
        }
      }
    }
  }

  /** What is found is found in the turn of its index. */
  lemma {:induction false} FoundInTurn(a: seq<int>, target: int, guarded: bool, low: int, high: int, counter: nat)
    requires 0 <= low <= high + 1 <= |a|
    ensures var (r, turns) := Searched(a, target, guarded, low, high, counter);
            r.Found? ==> low <= r.index <= high && turns == counter + TurnOf(r.index, low, high)
    decreases high + 1 - low
  {
    if low <= high {
      var mid := (high + low) / 2;
      if target < a[mid] {
        FoundInTurn(a, target, guarded, mid + 1, high, counter + 1);
      } else if target > a[mid] && mid > 0 {
        FoundInTurn(a, target, guarded, low, mid - 1, counter + 1);
      }
    }
  }

  lemma {:induction false} AtMostHalvings(a: seq<int>, target: int, guarded: bool, low: int, high: int, counter: nat)
    requires 0 <= low <= high + 1 <= |a|
    ensures Searched(a, target, guarded, low, high, counter).1 <= counter + Halvings(high + 1 - low)
    decreases high + 1 - low
  {
    if low <= high {
      var mid := (high + low) / 2;
      HalvesShrink(low, high);
      if target < a[mid] {
        AtMostHalvings(a, target, guarded, mid + 1, high, counter + 1);
      } else if target > a[mid] && mid > 0 {
        AtMostHalvings(a, target, guarded, low, mid - 1, counter + 1);
      }
    }
  }

  /** The sizes of the two halves around the middle, and what their logarithms lose. */
  lemma LogsShrink(low: int, high: int)
    requires 0 <= low <= high
    ensures var mid := (high + low) / 2;
            && FloorLog2(mid - low + 1) == FloorLog2(high + 2 - low) - 1
            && FloorLog2(high + 2 - low) - 1 <= FloorLog2(high - mid + 1)
  {
    var mid, m := (high + low) / 2, high + 1 - low;
    assert mid - low == (m - 1) / 2 && high - mid == m / 2;
    HalfLogs(m);
  }

  /** What is not found takes about as many turns as can be; running out of range takes just so many. */
  lemma {:induction false} AtLeastLog(a: seq<int>, target: int, guarded: bool, low: int, high: int, counter: nat)
    requires 0 <= low <= high + 1 <= |a|
    ensures var (r, turns) := Searched(a, target, guarded, low, high, counter);
            && (!r.Found? ==> counter + FloorLog2(high + 2 - low) <= turns)
            && (r.OutOfRange? ==> low == 0 && turns == counter + FloorLog2(high + 2 - low))
    decreases high + 1 - low
  {
    if low <= high {
      LogsShrink(low, high);
      var mid := (high + low) / 2;
      if target < a[mid] {
        AtLeastLog(a, target, guarded, mid + 1, high, counter + 1);
      } else if target > a[mid] && mid > 0 {
        AtLeastLog(a, target, guarded, low, mid - 1, counter + 1);
      }
    }
  }

  /** What each outcome has cost, for `n` elements. */
  ghost predicate CostIs(n: nat, r: Answer, counter: nat) {
    match r
    case Found(i) => i < n && counter == TurnOf(i, 0, n - 1)
    case Absent => FloorLog2(n + 1) <= counter
    case OutOfRange => counter == FloorLog2(n + 1)
  }

  lemma SearchedFromStart(a: seq<int>, target: int, guarded: bool)
    requires Descending(a) && a != []
    ensures var (r, turns) := Searched(a, target, guarded, 0, |a| - 1, 0);
            && RightAnswer(a, target, guarded, r)
            && CostIs(|a|, r, turns) && turns <= Halvings(|a|)
  {
    SearchedFinds(a, target, guarded, 0, |a| - 1, 0);
    FoundInTurn(a, target, guarded, 0, |a| - 1, 0);
    AtMostHalvings(a, target, guarded, 0, |a| - 1, 0);
    AtLeastLog(a, target, guarded, 0, |a| - 1, 0);
  }

  /** The loop (lines 49-61), on an array that is not empty. */
  method SearchLoop(a: seq<int>, target: int, guarded: bool) returns (r: Answer, counter: nat)
    requires a != []
    ensures (r, counter) == Searched(a, target, guarded, 0, |a| - 1, 0)
  {
    var high, low := |a| - 1, 0;
    counter := 0;
    while low <= high
      invariant 0 <= low <= high + 1 <= |a|
      invariant Searched(a, target, guarded, low, high, counter) == Searched(a, target, guarded, 0, |a| - 1, 0)
      decreases high + 1 - low
    {
      var mid := (high + low) / 2;
      if target == a[mid] {
        return Found(mid), counter + 1;
      } else if target > a[mid] {
        if mid == 0 {
          return if guarded then Absent else OutOfRange, counter + 1;
        }
        high := mid - 1;
      } else {
        low := mid + 1;
      }
      counter := counter + 1;
    }
    r := Absent;
  }

  /**
   `binarySearch`. As it stands, with `guarded` false, it runs out of range exactly for targets
   above the first element; with `guarded` the wrap is replaced by an empty range. An element is
   found in the turn of its index, whatever the values; an absent target costs floor(log2 (n + 1))
   turns or one more; and the read out of range comes after just so many.
   */
  method BinarySearch(a: seq<int>, target: int, guarded: bool) returns (r: Answer, counter: nat)
    requires Descending(a)
    ensures r.Found? ==> r.index < |a| && a[r.index] == target
    ensures r.Found? <==> target in a
    ensures r.OutOfRange? <==> !guarded && a != [] && target > a[0]
    ensures CostIs(|a|, r, counter) && counter <= Halvings(|a|)
  {
    if |a| == 0 {
      return Absent, 0;
    }
    SearchedFromStart(a, target, guarded);
    r, counter := SearchLoop(a, target, guarded);
  }

  /** Sorting first, as the tests do: presence is what `simpleSearch` says of the unsorted array. */
  method SortAndSearch(a: seq<int>, target: int) returns (r: Answer, simple: Answer)
    ensures r.Found? <==> simple.Found?
    ensures simple.Found? <==> target in a
    ensures r.OutOfRange? <==> a != [] && forall x <- a :: target > x
  {
    var sorted, _ := QuickSort(a);
    var counter;
    r, counter := BinarySearch(sorted, target, false);
    simple, counter := SimpleSearch(a, target);
    assert forall x :: x in multiset(sorted) <==> x in sorted;
    assert forall x :: x in multiset(a) <==> x in a;
    assert |sorted| == |multiset(sorted)| == |multiset(a)| == |a|;
    assert sorted != [] ==> sorted[0] in sorted;
  }
}
