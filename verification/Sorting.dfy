/**
 algorithm/sort.hpp: three sorts into descending order, with the counters they keep. The
 fourth, `mergeSort`, has a file of its own.
 */
module Sorting {

  ghost predicate Descending(s: seq<int>) {
    forall i, j :: 0 <= i < j < |s| ==> s[i] >= s[j]
  }

  /** `result` is the input put into descending order. */
  ghost predicate Sorts(input: seq<int>, result: seq<int>) {
    Descending(result) && multiset(result) == multiset(input)
  }

  /** Hence any two sorts agree on every input. */
  lemma {:induction false} SortedOnce(a: seq<int>, b: seq<int>)
    requires Descending(a) && Descending(b) && multiset(a) == multiset(b)
    ensures a == b
    decreases |a|
  {
    assert |a| == |multiset(a)| == |multiset(b)| == |b|;
    if a != [] {
      SameHead(a, b);
      SortedOnce(a[1..], b[1..]);
    }
  }

  lemma SameHead(a: seq<int>, b: seq<int>)
    requires Descending(a) && Descending(b) && multiset(a) == multiset(b) && a != [] && b != []
    ensures a[0] == b[0] && multiset(a[1..]) == multiset(b[1..])
  {
    HeadIsLargest(a, b[0]);
    HeadIsLargest(b, a[0]);
    DropHead(a);
    DropHead(b);
  }

  lemma HeadIsLargest(a: seq<int>, x: int)
    requires a != [] && Descending(a)
    ensures x in multiset(a) ==> x <= a[0]
    ensures a[0] in multiset(a)
  {
    assert x in multiset(a) <==> x in a;
  }

  lemma DropHead(a: seq<int>)
    requires a != []
    ensures multiset(a[1..]) == multiset(a) - multiset{a[0]}
  {
    assert a == [a[0]] + a[1..];
  }

  function Pow2(k: nat): (p: nat)
    ensures p >= 1
  {
    if k == 0 then 1 else 2 * Pow2(k - 1)
  }

  /** floor(log2 n). */
  function FloorLog2(n: nat): nat
    requires n > 0
  {
    if n == 1 then 0 else 1 + FloorLog2(n / 2)
  }

  lemma {:induction false} FloorLog2Exact(n: nat)
    requires n > 0
    ensures Pow2(FloorLog2(n)) <= n < Pow2(FloorLog2(n) + 1)
  {
    if n > 1 { FloorLog2Exact(n / 2); }
  }

  lemma {:induction false} FloorLog2Grows(m: nat, n: nat)
    requires 0 < m <= n
    ensures FloorLog2(m) <= FloorLog2(n)
    decreases n
  {
    if m > 1 { FloorLog2Grows(m / 2, n / 2); }
  }

  // ---------- selectSort and bubbleSort ----------

  /** 0 + 1 + .. + (n - 1). */
  function Pairs(n: nat): nat {
    if n == 0 then 0 else Pairs(n - 1) + (n - 1)
  }

  lemma {:induction false} PairsClosed(n: nat)
    ensures 2 * Pairs(n) == n * (n - 1)
  {
    if n > 0 { PairsClosed(n - 1); }
  }

  method Swap(a: array<int>, i: nat, j: nat)
    requires i < a.Length && j < a.Length
    modifies a
    ensures a[..] == old(a[..])[i := old(a[j])][j := old(a[i])]
    ensures multiset(a[..]) == multiset(old(a[..]))
  {
    var temp := a[i];
    a[i] := a[j];
    a[j] := temp;
  }

  /** The first `i` places hold the largest values, in order. */
  ghost predicate FrontDone(s: seq<int>, i: nat) {
    forall p, q :: 0 <= p < i && p < q < |s| ==> s[p] >= s[q]
  }

  /** The places from `i` on hold the smallest values, in order. */
  ghost predicate BackDone(s: seq<int>, i: nat) {
    forall p, q :: 0 <= p < q < |s| && i <= q ==> s[p] >= s[q]
  }

  /** The inner loop of `selectSort` (lines 35-42). */
  method SelectPass(a: array<int>, i: nat) returns (compared: nat)
    requires i < a.Length && FrontDone(a[..], i)
    modifies a
    ensures FrontDone(a[..], i + 1) && multiset(a[..]) == multiset(old(a[..]))
    ensures compared == a.Length - 1 - i
  {
    compared := 0;
    for j := i + 1 to a.Length
      invariant multiset(a[..]) == multiset(old(a[..]))
      invariant FrontDone(a[..], i) && LargestSoFar(a[..], i, j)
      invariant compared == j - i - 1
    {
      if a[i] < a[j] {
        SwapKeepsFront(a[..], i, j);
        Swap(a, i, j);
      }
      compared := compared + 1;
    }
  }

  ghost predicate LargestSoFar(s: seq<int>, i: nat, j: nat) {
    i < |s| && j <= |s| && forall q :: i < q < j ==> s[i] >= s[q]
  }

  /** Exchanging two later elements keeps the front, and the larger one goes ahead. */
  lemma SwapKeepsFront(s: seq<int>, i: nat, j: nat)
    requires i < j < |s| && FrontDone(s, i) && LargestSoFar(s, i, j) && s[i] < s[j]
    ensures FrontDone(s[i := s[j]][j := s[i]], i) && LargestSoFar(s[i := s[j]][j := s[i]], i, j + 1)
  {
  }

  method SelectSort(input: seq<int>) returns (output: seq<int>, counter: nat)
    ensures Sorts(input, output)
    ensures if |input| >= 2 then 2 * counter == |input| * (|input| - 1) else counter == 1
  {
    if |input| <= 1 {
      return input, 1;
    }
    var n := |input|;
    var result := new int[n](k requires 0 <= k < n => input[k]);
    assert result[..] == input;
    counter := 0;
    for i := 0 to n
      invariant multiset(result[..]) == multiset(input) && FrontDone(result[..], i)
      invariant counter == Pairs(n) - Pairs(n - i)
    {
      var compared := SelectPass(result, i);
      counter := counter + compared;
    }
    output := result[..];
    PairsClosed(n);
  }

  ghost predicate SmallestSoFar(s: seq<int>, j: nat) {
    j < |s| && forall p :: 0 <= p < j ==> s[p] >= s[j]
  }

  /** Exchanging two neighbours ahead keeps the back, and the smaller one moves on. */
  lemma SwapKeepsBack(s: seq<int>, j: nat, m: nat)
    requires j + 1 < m <= |s| && BackDone(s, m) && SmallestSoFar(s, j) && s[j] < s[j + 1]
    ensures var s' := s[j + 1 := s[j]][j := s[j + 1]];
            BackDone(s', m) && SmallestSoFar(s', j + 1)
  {
  }

  /** Two neighbours in order: the second is now the smallest so far. */
  lemma NeighboursInOrder(s: seq<int>, j: nat)
    requires j + 1 < |s| && SmallestSoFar(s, j) && s[j] >= s[j + 1]
    ensures SmallestSoFar(s, j + 1)
  {
  }

  /** The smallest of the first `m` places, standing last of them, belongs to the back. */
  lemma BackGrows(s: seq<int>, m: nat)
    requires 0 < m <= |s| && BackDone(s, m) && SmallestSoFar(s, m - 1)
    ensures BackDone(s, m - 1)
  {
  }

  /** One comparison of `bubbleSort` (lines 63-68), on two neighbours. */
  method BubbleTurn(a: array<int>, j: nat, m: nat)
    requires j + 1 < m <= a.Length && BackDone(a[..], m) && SmallestSoFar(a[..], j)
    modifies a
    ensures BackDone(a[..], m) && SmallestSoFar(a[..], j + 1)
    ensures multiset(a[..]) == multiset(old(a[..]))
  {
    ghost var s := a[..];
    if a[j] < a[j + 1] {
      SwapKeepsBack(s, j, m);
      Swap(a, j + 1, j);
    } else {
      NeighboursInOrder(s, j);
    }
  }

  /** The inner loop of `bubbleSort` (lines 62-69), on the first `m` places. */
  method BubblePass(a: array<int>, m: nat) returns (compared: nat)
    requires 0 < m <= a.Length && BackDone(a[..], m)
    modifies a
    ensures BackDone(a[..], m - 1) && multiset(a[..]) == multiset(old(a[..]))
    ensures compared == m - 1
  {
    var j := 0;
    compared := 0;
    while j + 1 < m
      invariant 0 <= j < m && compared == j
      invariant multiset(a[..]) == multiset(old(a[..]))
      invariant BackDone(a[..], m) && SmallestSoFar(a[..], j)
    {
      BubbleTurn(a, j, m);
      compared := compared + 1;
      j := j + 1;
    }
    BackGrows(a[..], m);
  }

  method BubbleSort(input: seq<int>) returns (output: seq<int>, counter: nat)
    ensures Sorts(input, output)
    ensures if |input| >= 2 then 2 * counter == |input| * (|input| - 1) else counter == 1
  {
    if |input| <= 1 {
      return input, 1;
    }
    var n := |input|;
    var result := new int[n](k requires 0 <= k < n => input[k]);
    assert result[..] == input;
    counter := 0;
    for i := 0 to n
      invariant multiset(result[..]) == multiset(input) && BackDone(result[..], n - i)
      invariant counter == Pairs(n) - Pairs(n - i)
    {
      var compared := BubblePass(result, n - i);
      counter := counter + compared;
    }
    output := result[..];
    PairsClosed(n);
  }

  // ---------- quickSort ----------

  /** The elements below `p`, and the others, in order. */
  function Low(s: seq<int>, p: int): (low: seq<int>)
    ensures |low| <= |s|
  {
    if s == [] then [] else Low(s[..|s| - 1], p) + if s[|s| - 1] < p then [s[|s| - 1]] else []
  }

  function High(s: seq<int>, p: int): (high: seq<int>)
    ensures |high| <= |s|
  {
    if s == [] then [] else High(s[..|s| - 1], p) + if s[|s| - 1] < p then [] else [s[|s| - 1]]
  }

  lemma {:induction false} LowIsBelow(s: seq<int>, p: int)
    ensures forall i :: 0 <= i < |Low(s, p)| ==> Low(s, p)[i] < p
    ensures forall i :: 0 <= i < |High(s, p)| ==> High(s, p)[i] >= p
  {
    if s != [] { LowIsBelow(s[..|s| - 1], p); }
  }

  /** One more element on either side is one more element of the sum. */
  lemma SnocConserves(a: seq<int>, b: seq<int>, s: seq<int>, x: int)
    requires multiset(a) + multiset(b) == multiset(s)
    ensures multiset(a + [x]) + multiset(b) == multiset(s + [x])
    ensures multiset(a) + multiset(b + [x]) == multiset(s + [x])
  {
    assert multiset(a + [x]) == multiset(a) + multiset{x};
    assert multiset(b + [x]) == multiset(b) + multiset{x};
    assert multiset(s + [x]) == multiset(s) + multiset{x};
  }

  lemma LastSide(init: seq<int>, x: int, p: int)
    ensures x < p ==> Low(init + [x], p) == Low(init, p) + [x] && High(init + [x], p) == High(init, p)
    ensures x >= p ==> Low(init + [x], p) == Low(init, p) && High(init + [x], p) == High(init, p) + [x]
  {
    assert (init + [x])[..|init|] == init;
  }

  lemma {:induction false} LowAndHigh(s: seq<int>, p: int)
    ensures multiset(Low(s, p)) + multiset(High(s, p)) == multiset(s)
  {
    if s != [] {
      var init, x := s[..|s| - 1], s[|s| - 1];
      assert init + [x] == s;
      LowAndHigh(init, p);
      LastSide(init, x, p);
      SnocConserves(Low(init, p), High(init, p), init, x);
    }
  }

  /** One loop of the partition (lines 87-94 and 95-102): appends to both, counting the turns. */
  method Partition(s: seq<int>, p: int, low0: seq<int>, high0: seq<int>)
    returns (low: seq<int>, high: seq<int>, count: nat)
    ensures low == low0 + Low(s, p) && high == high0 + High(s, p) && count == |s|
  {
    low, high, count := low0, high0, 0;
    for i := 0 to |s|
      invariant low == low0 + Low(s[..i], p) && high == high0 + High(s[..i], p) && count == i
    {
      assert s[..i + 1][..i] == s[..i];
      if s[i] < p {
        low := low + [s[i]];
      } else {
        high := high + [s[i]];
      }
      count := count + 1;
    }
    assert s[..|s|] == s;
  }

  /** The two sides of the pivot from the middle. */
  function LowSide(s: seq<int>): (low: seq<int>)
    requires s != []
    ensures |low| < |s|
  {
    Low(s[..|s| / 2], s[|s| / 2]) + Low(s[|s| / 2 + 1..], s[|s| / 2])
  }

  function HighSide(s: seq<int>): (high: seq<int>)
    requires s != []
    ensures |high| < |s|
  {
    High(s[..|s| / 2], s[|s| / 2]) + High(s[|s| / 2 + 1..], s[|s| / 2])
  }

  lemma JoinIsSorted(high: seq<int>, p: int, low: seq<int>, high': seq<int>, low': seq<int>)
    requires Sorts(high, high') && Sorts(low, low')
    requires forall i :: 0 <= i < |high| ==> high[i] >= p
    requires forall i :: 0 <= i < |low| ==> low[i] < p
    ensures Sorts(high + [p] + low, high' + [p] + low')
  {
    forall i | 0 <= i < |high'|
      ensures high'[i] >= p
    {
      assert high'[i] in multiset(high);
    }
    forall i | 0 <= i < |low'|
      ensures low'[i] < p
    {
      assert low'[i] in multiset(low);
    }
  }

  /** The pivot splits off, and the two rests cost no more than all pairs together. */
  lemma {:induction false} PairsSplit(a: nat, b: nat)
    ensures Pairs(a) + Pairs(b) + a + b <= Pairs(a + b + 1)
    decreases b
  {
    if b > 0 {
      PairsSplit(a, b - 1);
    }
  }

  /** What the two stretches around the pivot come to together. */
  lemma PivotSplits(a: seq<int>, p: int, b: seq<int>)
    ensures var low, high := Low(a, p) + Low(b, p), High(a, p) + High(b, p);
            && multiset(high + [p] + low) == multiset(a + [p] + b)
            && |low| + |high| == |a| + |b|
  {
    LowAndHigh(a, p);
    LowAndHigh(b, p);
    var low, high := Low(a, p) + Low(b, p), High(a, p) + High(b, p);
    assert multiset(low) == multiset(Low(a, p)) + multiset(Low(b, p));
    assert multiset(high) == multiset(High(a, p)) + multiset(High(b, p));
    assert multiset(high + [p] + low) == multiset(high) + multiset{p} + multiset(low);
    assert |high + [p] + low| == |multiset(high + [p] + low)| == |multiset(a + [p] + b)| == |a + [p] + b|;
  }

  lemma Resort(input: seq<int>, middle: seq<int>, output: seq<int>)
    requires Sorts(middle, output) && multiset(middle) == multiset(input)
    ensures Sorts(input, output)
  {
  }

  lemma SplitIsRight(input: seq<int>, a: seq<int>, p: int, b: seq<int>, low: seq<int>, high: seq<int>)
    requires input == a + [p] + b
    requires low == Low(a, p) + Low(b, p) && high == High(a, p) + High(b, p)
    ensures multiset(high + [p] + low) == multiset(input) && |low| + |high| == |input| - 1
    ensures (forall i :: 0 <= i < |low| ==> low[i] < p) && (forall i :: 0 <= i < |high| ==> high[i] >= p)
  {
    LowIsBelow(a, p);
    LowIsBelow(b, p);
    PivotSplits(a, p, b);
  }

  /** Lines 84-102: the pivot from the middle, and the others on either side of it. */
  method Split(input: seq<int>) returns (low: seq<int>, p: int, high: seq<int>, count: nat)
    requires |input| > 0
    ensures low == LowSide(input) && high == HighSide(input)
    ensures multiset(high + [p] + low) == multiset(input) && count == |low| + |high| == |input| - 1
    ensures (forall i :: 0 <= i < |low| ==> low[i] < p) && (forall i :: 0 <= i < |high| ==> high[i] >= p)
  {
    var pivot := |input| / 2;
    p := input[pivot];
    var count';
    low, high, count := Partition(input[..pivot], p, [], []);
    low, high, count' := Partition(input[pivot + 1..], p, low, high);
    count := count + count';
    ghost var a, b := input[..pivot], input[pivot + 1..];
    assert low == Low(a, p) + Low(b, p) && high == High(a, p) + High(b, p);
    assert input == a + [p] + b;
    SplitIsRight(input, a, p, b, low, high);
  }

  /** Every element but the pivot is compared once in each call it takes part in. */
  function QuickCost(s: seq<int>): nat
    decreases |s|
  {
    if |s| <= 1 then 0 else |s| - 1 + QuickCost(HighSide(s)) + QuickCost(LowSide(s))
  }

  lemma CostOfSides(s: seq<int>)
    requires |s| > 1
    ensures QuickCost(s) == |s| - 1 + QuickCost(HighSide(s)) + QuickCost(LowSide(s))
  {
  }

  // ---------- How much quickSort compares, at least and at most ----------

  /** floor(log2 1) + .. + floor(log2 n). */
  function SumOfLogs(n: nat): nat {
    if n == 0 then 0 else SumOfLogs(n - 1) + FloorLog2(n)
  }

  lemma {:induction false} LogsOfHalves(n: nat)
    requires n > 0
    ensures SumOfLogs(n) == n - 1 + SumOfLogs((n - 1) / 2) + SumOfLogs(n / 2)
  {
    if n > 1 {
      LogsOfHalves(n - 1);
      assert (n - 1 - 1) / 2 + 1 == n / 2;
    }
  }

  /** Of all ways to split, the one into halves has the least sum. */
  lemma {:induction false} HalvesAreLeast(a: nat, b: nat)
    requires a <= b
    ensures SumOfLogs((a + b) / 2) + SumOfLogs((a + b + 1) / 2) <= SumOfLogs(a) + SumOfLogs(b)
    decreases b - a
  {
    if b - a >= 2 {
      FloorLog2Grows(a + 1, b);
      HalvesAreLeast(a + 1, b - 1);
    }
  }

  lemma LogsSplit(a: nat, b: nat)
    ensures SumOfLogs(a + b + 1) <= a + b + SumOfLogs(a) + SumOfLogs(b)
  {
    LogsOfHalves(a + b + 1);
    if a <= b {
      HalvesAreLeast(a, b);
    } else {
      HalvesAreLeast(b, a);
    }
  }

  lemma {:induction false} BothLengths(s: seq<int>, p: int)
    ensures |Low(s, p)| + |High(s, p)| == |s|
  {
    if s != [] { BothLengths(s[..|s| - 1], p); }
  }

  lemma SidesLengths(s: seq<int>)
    requires s != []
    ensures |LowSide(s)| + |HighSide(s)| == |s| - 1
  {
    BothLengths(s[..|s| / 2], s[|s| / 2]);
    BothLengths(s[|s| / 2 + 1..], s[|s| / 2]);
  }

  lemma {:induction false} QuickCostAtLeast(s: seq<int>)
    ensures SumOfLogs(|s|) <= QuickCost(s)
    decreases |s|
  {
    if |s| > 1 {
      SidesLengths(s);
      CostOfSides(s);
      QuickCostAtLeast(HighSide(s));
      QuickCostAtLeast(LowSide(s));
      LogsSplit(|HighSide(s)|, |LowSide(s)|);
    } else {
      FewLogs();
    }
  }

  lemma {:induction false} QuickCostAtMost(s: seq<int>)
    ensures QuickCost(s) <= Pairs(|s|)
    decreases |s|
  {
    if |s| > 1 {
      SidesLengths(s);
      CostOfSides(s);
      QuickCostAtMost(HighSide(s));
      QuickCostAtMost(LowSide(s));
      PairsSplit(|HighSide(s)|, |LowSide(s)|);
    }
  }

  ghost predicate AllEqual(s: seq<int>, x: int) {
    forall i :: 0 <= i < |s| ==> s[i] == x
  }

  /** The most is reached when all elements are equal: every pair is compared. */
  lemma {:induction false} EqualElementsCost(s: seq<int>, x: int)
    requires AllEqual(s, x)
    ensures QuickCost(s) == Pairs(|s|)
    decreases |s|
  {
    if |s| > 1 {
      EqualSides(s, x);
      CostOfSides(s);
      EqualElementsCost(HighSide(s), x);
      assert QuickCost([]) == 0;
    }
  }

  lemma SidesOf(s: seq<int>, a: seq<int>, p: int, b: seq<int>)
    requires s == a + [p] + b && |a| == |s| / 2
    ensures LowSide(s) == Low(a, p) + Low(b, p) && HighSide(s) == High(a, p) + High(b, p)
  {
    assert s[..|a|] == a && s[|a| + 1..] == b;
  }

  /** The halves around the element in the middle. */
  lemma AroundMiddle(s: seq<int>) returns (a: seq<int>, p: int, b: seq<int>)
    requires s != []
    ensures s == a + [p] + b && |a| == |s| / 2 && |b| == (|s| - 1) / 2
  {
    var m := |s| / 2;
    a, p, b := s[..m], s[m], s[m + 1..];
  }

  lemma EqualSides(s: seq<int>, x: int)
    requires AllEqual(s, x) && s != []
    ensures LowSide(s) == [] && AllEqual(HighSide(s), x) && |HighSide(s)| == |s| - 1
  {
    var a, p, b := AroundMiddle(s);
    assert p == s[|a|] && AllEqual(a, x) && AllEqual(b, x) by {
      assert forall i :: 0 <= i < |a| ==> a[i] == s[i];
      assert forall i :: 0 <= i < |b| ==> b[i] == s[|a| + 1 + i];
    }
    SidesOf(s, a, p, b);
    NoneBelow(a, p);
    NoneBelow(b, p);
    assert |a + b| == |s| - 1 && AllEqual(a + b, x);
  }

  ghost predicate StrictlyDescending(s: seq<int>) {
    forall i, j :: 0 <= i < j < |s| ==> s[i] > s[j]
  }

  lemma {:induction false} NoneBelow(s: seq<int>, p: int)
    requires forall i :: 0 <= i < |s| ==> s[i] >= p
    ensures Low(s, p) == [] && High(s, p) == s
  {
    if s != [] {
      NoneBelow(s[..|s| - 1], p);
    }
  }

  lemma {:induction false} AllBelow(s: seq<int>, p: int)
    requires forall i :: 0 <= i < |s| ==> s[i] < p
    ensures Low(s, p) == s && High(s, p) == []
  {
    if s != [] {
      AllBelow(s[..|s| - 1], p);
    }
  }

  /** What stands before an element is above it, what stands behind it below. */
  lemma PartsInOrder(s: seq<int>, a: seq<int>, p: int, b: seq<int>)
    requires StrictlyDescending(s) && s == a + [p] + b
    ensures StrictlyDescending(a) && StrictlyDescending(b)
    ensures (forall i :: 0 <= i < |a| ==> a[i] >= p) && (forall i :: 0 <= i < |b| ==> b[i] < p)
  {
    assert p == s[|a|];
    assert forall i :: 0 <= i < |a| ==> a[i] == s[i];
    assert forall i :: 0 <= i < |b| ==> b[i] == s[|a| + 1 + i];
  }

  lemma OrderedSides(s: seq<int>, a: seq<int>, p: int, b: seq<int>)
    requires s == a + [p] + b && |a| == |s| / 2
    requires (forall i :: 0 <= i < |a| ==> a[i] >= p) && (forall i :: 0 <= i < |b| ==> b[i] < p)
    ensures HighSide(s) == a && LowSide(s) == b
  {
    SidesOf(s, a, p, b);
    NoneBelow(a, p);
    AllBelow(b, p);
    NothingMore(a);
    NothingMore(b);
  }

  lemma NothingMore(s: seq<int>)
    ensures s + [] == s == [] + s
  {
  }

  /** And the least on input that is in order already. */
  lemma {:induction false} OrderedElementsCost(s: seq<int>)
    requires StrictlyDescending(s)
    ensures QuickCost(s) == SumOfLogs(|s|)
    decreases |s|
  {
    if |s| > 1 {
      var a, p, b := AroundMiddle(s);
      PartsInOrder(s, a, p, b);
      OrderedSides(s, a, p, b);
      CostOfSides(s);
      OrderedElementsCost(a);
      OrderedElementsCost(b);
      LogsOfHalves(|s|);
    } else {
      FewLogs();
    }
  }

  lemma FewLogs()
    ensures SumOfLogs(0) == SumOfLogs(1) == 0
  {
    assert SumOfLogs(1) == SumOfLogs(0) + FloorLog2(1);
  }

  /** `cost` is by how much the call raises `g_counter`. */
  method QuickSort(input: seq<int>) returns (output: seq<int>, cost: nat)
    ensures Sorts(input, output)
    ensures cost == QuickCost(input) && SumOfLogs(|input|) <= cost <= Pairs(|input|)
    decreases |input|
  {
    QuickCostAtLeast(input);
    QuickCostAtMost(input);
    if |input| <= 1 {
      return input, 0;
    }
    var low, p, high, count := Split(input);
    CostOfSides(input);
    var high', h := QuickSort(high);
    var low', l := QuickSort(low);
    JoinIsSorted(high, p, low, high', low');
    output := high' + [p] + low';
    Resort(input, high + [p] + low, output);
    cost := count + h + l;
  }
}
