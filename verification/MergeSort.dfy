/**
 algorithm/sort.hpp, lines 114-157: `mergeSort` into descending order. Its merge loop stops with
 the left half and drops what is then unread of the right half; this says exactly when that
 loses anything, and that putting the suffix back makes it a sort.
 */
module MergeSorting {
  import opened Sorting

  /**
   The merge loop (lines 133-155) as it is coded: it ends with the left half, and drops what is
   then unread of the right half.
   */
  function Merged(l: seq<int>, r: seq<int>): seq<int>
    decreases |l| + |r|
  {
    if l == [] then []
    else if r != [] && r[0] > l[0] then [r[0]] + Merged(l, r[1..])
    else [l[0]] + Merged(l[1..], r)
  }

  /** What the merge loop drops. */
  function Unread(l: seq<int>, r: seq<int>): seq<int>
    decreases |l| + |r|
  {
    if l == [] then r
    else if r != [] && r[0] > l[0] then Unread(l, r[1..])
    else Unread(l[1..], r)
  }

  /** The sort; with `append` the unread suffix is put back, without it the code stands as it is. */
  function MergeSorted(s: seq<int>, append: bool): seq<int>
    decreases |s|
  {
    if |s| <= 1 then s else
    var l, r := MergeSorted(s[..|s| / 2], append), MergeSorted(s[|s| / 2..], append);
    Merged(l, r) + if append then Unread(l, r) else []
  }

  lemma ConsConserves(x: int, merged: seq<int>, unread: seq<int>, a: seq<int>, b: seq<int>)
    requires multiset(merged) + multiset(unread) == multiset(a) + multiset(b)
    ensures multiset([x] + merged) + multiset(unread) == multiset([x] + a) + multiset(b)
  {
    assert multiset([x] + merged) == multiset{x} + multiset(merged);
    assert multiset([x] + a) == multiset{x} + multiset(a);
    assert multiset{x} + multiset(merged) + multiset(unread) == multiset{x} + (multiset(merged) + multiset(unread));
  }

  /** Nothing is lost or made up between what is merged and what is left unread. */
  lemma {:induction false} MergeConserves(l: seq<int>, r: seq<int>)
    ensures multiset(Merged(l, r)) + multiset(Unread(l, r)) == multiset(l) + multiset(r)
    decreases |l| + |r|
  {
    if l == [] {
    } else if r != [] && r[0] > l[0] {
      MergeConserves(l, r[1..]);
      ConsConserves(r[0], Merged(l, r[1..]), Unread(l, r[1..]), r[1..], l);
      assert [r[0]] + r[1..] == r;
      assert Merged(l, r) == [r[0]] + Merged(l, r[1..]) && Unread(l, r) == Unread(l, r[1..]);
    } else {
      MergeConserves(l[1..], r);
      ConsConserves(l[0], Merged(l[1..], r), Unread(l[1..], r), l[1..], r);
      assert [l[0]] + l[1..] == l;
      assert Merged(l, r) == [l[0]] + Merged(l[1..], r) && Unread(l, r) == Unread(l[1..], r);
    }
  }

  ghost predicate Bounded(s: seq<int>, top: int) {
    forall i :: 0 <= i < |s| ==> s[i] <= top
  }

  lemma ConsDescending(x: int, s: seq<int>)
    requires Descending(s) && Bounded(s, x)
    ensures Descending([x] + s)
  {
  }

  lemma TailDescends(s: seq<int>)
    requires s != [] && Descending(s)
    ensures Descending(s[1..]) && Bounded(s[1..], s[0])
  {
  }

  /** Everything the merge has to do with, in the order in which it comes out. */
  function Whole(l: seq<int>, r: seq<int>): seq<int> {
    Merged(l, r) + Unread(l, r)
  }

  lemma WholeUnfolds(l: seq<int>, r: seq<int>)
    ensures l == [] ==> Whole(l, r) == r
    ensures l != [] && r != [] && r[0] > l[0] ==> Whole(l, r) == [r[0]] + Whole(l, r[1..])
    ensures l != [] && (r == [] || r[0] <= l[0]) ==> Whole(l, r) == [l[0]] + Whole(l[1..], r)
  {
  }

  /** Merged output and unread suffix together descend. */
  lemma {:induction false} MergeDescends(l: seq<int>, r: seq<int>, top: int)
    requires Descending(l) && Descending(r) && Bounded(l, top) && Bounded(r, top)
    ensures Descending(Whole(l, r)) && Bounded(Whole(l, r), top)
    decreases |l| + |r|
  {
    WholeUnfolds(l, r);
    if l == [] {
    } else if r != [] && r[0] > l[0] {
      TailDescends(r);
      TailDescends(l);
      MergeDescends(l, r[1..], r[0]);
      ConsDescending(r[0], Whole(l, r[1..]));
    } else {
      TailDescends(l);
      if r != [] {
        TailDescends(r);
      }
      MergeDescends(l[1..], r, l[0]);
      ConsDescending(l[0], Whole(l[1..], r));
    }
  }

  /** Nothing is unread exactly when the right half ends above the left half. */
  lemma {:induction false} UnreadExactly(l: seq<int>, r: seq<int>)
    requires Descending(l) && Descending(r) && l != [] && r != []
    ensures Unread(l, r) == [] <==> r[|r| - 1] > l[|l| - 1]
    decreases |l| + |r|
  {
    if r[0] > l[0] {
      if |r| > 1 {
        UnreadExactly(l, r[1..]);
      } else {
        NoneLeft(l);
      }
    } else if |l| > 1 {
      UnreadExactly(l[1..], r);
    }
  }

  lemma {:induction false} NoneLeft(l: seq<int>)
    ensures Unread(l, []) == []
  {
    if l != [] { NoneLeft(l[1..]); }
  }

  lemma {:induction false} MergeSortDescends(s: seq<int>, append: bool)
    ensures Descending(MergeSorted(s, append))
    decreases |s|
  {
    if |s| > 1 {
      MergeSortDescends(s[..|s| / 2], append);
      MergeSortDescends(s[|s| / 2..], append);
      var l, r := MergeSorted(s[..|s| / 2], append), MergeSorted(s[|s| / 2..], append);
      MergeDescends(l, r, Top(l, r));
      assert Merged(l, r) == Whole(l, r)[..|Merged(l, r)|];
    }
  }

  function Top(l: seq<int>, r: seq<int>): int {
    if l == [] then (if r == [] then 0 else r[0])
    else if r != [] && r[0] > l[0] then r[0] else l[0]
  }

  lemma JoinConserves(a: seq<int>, b: seq<int>, l: seq<int>, r: seq<int>)
    requires multiset(l) == multiset(a) && multiset(r) == multiset(b)
    ensures multiset(Whole(l, r)) == multiset(a + b)
  {
    MergeConserves(l, r);
    assert multiset(Merged(l, r) + Unread(l, r)) == multiset(Merged(l, r)) + multiset(Unread(l, r));
    assert multiset(a + b) == multiset(a) + multiset(b);
  }

  lemma {:induction false} AppendingConserves(s: seq<int>)
    ensures multiset(MergeSorted(s, true)) == multiset(s)
    decreases |s|
  {
    if |s| > 1 {
      AppendingConserves(s[..|s| / 2]);
      AppendingConserves(s[|s| / 2..]);
      JoinOfHalves(s);
    }
  }

  lemma JoinOfHalves(s: seq<int>)
    requires |s| > 1
    requires multiset(MergeSorted(s[..|s| / 2], true)) == multiset(s[..|s| / 2])
    requires multiset(MergeSorted(s[|s| / 2..], true)) == multiset(s[|s| / 2..])
    ensures multiset(MergeSorted(s, true)) == multiset(s)
  {
    var a, b := s[..|s| / 2], s[|s| / 2..];
    JoinConserves(a, b, MergeSorted(a, true), MergeSorted(b, true));
    Halves(s);
  }

  lemma Halves(s: seq<int>)
    requires |s| > 1
    ensures var a, b := s[..|s| / 2], s[|s| / 2..];
            a + b == s && MergeSorted(s, true) == Whole(MergeSorted(a, true), MergeSorted(b, true))
  {
  }

  /** With the suffix put back, `mergeSort` sorts. */
  lemma AppendingSorts(s: seq<int>)
    ensures Sorts(s, MergeSorted(s, true))
  {
    MergeSortDescends(s, true);
    AppendingConserves(s);
  }

  // ---------- What the code as it stands loses ----------

  function Least(s: seq<int>): int
    requires s != []
  {
    if |s| == 1 || s[|s| - 1] < Least(s[..|s| - 1]) then s[|s| - 1] else Least(s[..|s| - 1])
  }

  /** At every split the right half has the larger of the two least elements. */
  predicate LosesNothing(s: seq<int>)
    decreases |s|
  {
    |s| > 1 ==>
      var l, r := s[..|s| / 2], s[|s| / 2..];
      LosesNothing(l) && LosesNothing(r) && Least(r) > Least(l)
  }

  lemma {:induction false} LeastIsLeast(s: seq<int>)
    requires s != []
    ensures Least(s) in s && forall i :: 0 <= i < |s| ==> Least(s) <= s[i]
  {
    if |s| > 1 { LeastIsLeast(s[..|s| - 1]); }
  }

  lemma LastIsLeast(input: seq<int>, output: seq<int>)
    requires Sorts(input, output) && input != []
    ensures output != [] && output[|output| - 1] == Least(input)
  {
    LeastIsLeast(input);
    assert |output| == |multiset(output)| == |multiset(input)| == |input|;
    assert Least(input) in multiset(output);
    assert output[|output| - 1] in multiset(input);
  }

  lemma {:induction false} NeverLonger(s: seq<int>)
    ensures |MergeSorted(s, false)| <= |s|
    ensures LosesNothing(s) ==> MergeSorted(s, false) == MergeSorted(s, true)
    ensures !LosesNothing(s) ==> |MergeSorted(s, false)| < |s|
    decreases |s|
  {
    if |s| > 1 {
      var a, b := s[..|s| / 2], s[|s| / 2..];
      NeverLonger(a);
      NeverLonger(b);
      var l, r := MergeSorted(a, false), MergeSorted(b, false);
      MergedLength(l, r);
      if LosesNothing(a) && LosesNothing(b) {
        AppendingSorts(a);
        AppendingSorts(b);
        LastIsLeast(a, l);
        LastIsLeast(b, r);
        UnreadExactly(l, r);
      }
    }
  }

  lemma {:induction false} MergedLength(l: seq<int>, r: seq<int>)
    ensures |Merged(l, r)| + |Unread(l, r)| == |l| + |r|
    decreases |l| + |r|
  {
    if l != [] {
      if r != [] && r[0] > l[0] {
        MergedLength(l, r[1..]);
      } else {
        MergedLength(l[1..], r);
      }
    }
  }

  /** As it stands, `mergeSort` always descends, and it sorts exactly the inputs that lose nothing. */
  lemma MergeSortExact(s: seq<int>)
    ensures Descending(MergeSorted(s, false))
    ensures Sorts(s, MergeSorted(s, false)) <==> LosesNothing(s)
  {
    MergeSortDescends(s, false);
    NeverLonger(s);
    AppendingSorts(s);
    assert |multiset(MergeSorted(s, false))| == |MergeSorted(s, false)| && |multiset(s)| == |s|;
  }

  /** The shortest inputs that suffer: two elements already in order. */
  lemma LossExample()
    ensures MergeSorted([2, 1], false) == [2] && !LosesNothing([2, 1])
  {
    var s := [2, 1];
    assert s[..1] == [2] && s[1..] == [1];
    assert Merged([2], [1]) == [2] + Merged([2][1..], [1]);
  }

  /** The split puts the middle element to the right: 1, 3, 2 loses the 2 and comes out as 3, 1. */
  lemma SplitExample()
    ensures MergeSorted([1, 3, 2], false) == [3, 1]
  {
    var s := [1, 3, 2];
    assert s[..1] == [1] && s[1..] == [3, 2] && [3, 2][..1] == [3] && [3, 2][1..] == [2];
    assert Merged([3], [2]) == [3] + Merged([3][1..], [2]);
    assert MergeSorted([3, 2], false) == [3];
    assert Merged([1], [3]) == [3] + Merged([1], [3][1..]);
    assert Merged([1], []) == [1] + Merged([1][1..], []);
  }

  // ---------- The loops of mergeSort and their cost ----------

  /** From `j_index` on, the inner loop has pushed `out` and stands at `j`. */
  ghost predicate Progress(l: seq<int>, r: seq<int>, j_index: nat, out: seq<int>, j: nat) {
    && j_index <= j <= |r|
    && Merged(l, r[j_index..]) == out + Merged(l, r[j..])
    && Unread(l, r[j_index..]) == Unread(l, r[j..])
  }

  /** The inner loop passes over one element of the right half. */
  lemma PassOver(l: seq<int>, r: seq<int>, j_index: nat, out: seq<int>, j: nat)
    requires l != [] && Progress(l, r, j_index, out, j) && j < |r| && r[j] > l[0]
    ensures Progress(l, r, j_index, out + [r[j]], j + 1)
  {
    assert r[j..][1..] == r[j + 1..];
    assert out + ([r[j]] + Merged(l, r[j + 1..])) == out + [r[j]] + Merged(l, r[j + 1..]);
  }

  /** The inner loop stops, and the element of the left half is pushed. */
  lemma PushLeft(x: int, rest: seq<int>, r: seq<int>, j: nat)
    requires j <= |r| && (j < |r| ==> r[j] <= x)
    ensures Merged([x] + rest, r[j..]) == [x] + Merged(rest, r[j..])
    ensures Unread([x] + rest, r[j..]) == Unread(rest, r[j..])
  {
    assert ([x] + rest)[1..] == rest;
  }

  /** The inner loop (lines 136-147) for the element `x`; `rest` is what follows it on the left. */
  method MergeOne(x: int, r: seq<int>, j_index: nat, ghost rest: seq<int>) returns (out: seq<int>, read: nat)
    requires j_index <= |r|
    ensures read <= |r|
    ensures Merged([x] + rest, r[j_index..]) == out + ([x] + Merged(rest, r[read..]))
    ensures Unread([x] + rest, r[j_index..]) == Unread(rest, r[read..])
  {
    out, read := [], j_index;
    while read < |r|
      invariant Progress([x] + rest, r, j_index, out, read)
    {
      if r[read] > x {
        PassOver([x] + rest, r, j_index, out, read);
        out := out + [r[read]];
      } else {
        break;
      }
      read := read + 1;
    }
    PushLeft(x, rest, r, read);
  }

  /** Lines 133-155; `read` is the final `j_index`. Every push is counted. */
  method Merge(l: seq<int>, r: seq<int>) returns (result: seq<int>, read: nat, cost: nat)
    ensures result == Merged(l, r) && read <= |r| && r[read..] == Unread(l, r)
    ensures cost == |result|
  {
    result, read, cost := [], 0, 0;
    for i := 0 to |l|
      invariant read <= |r| && cost == |result|
      invariant Merged(l, r) == result + Merged(l[i..], r[read..])
      invariant Unread(l, r) == Unread(l[i..], r[read..])
    {
      assert l[i..] == [l[i]] + l[i + 1..];
      var out;
      out, read := MergeOne(l[i], r, read, l[i + 1..]);
      result := result + out + [l[i]];
      cost := cost + |out| + 1;
    }
  }

  function CeilLog2(n: nat): nat {
    if n <= 1 then 0 else 1 + CeilLog2((n + 1) / 2)
  }

  /** The least power of two that reaches `n`. */
  lemma {:induction false} CeilLog2Exact(n: nat)
    ensures n <= Pow2(CeilLog2(n))
    ensures n > 1 ==> Pow2(CeilLog2(n) - 1) < n
  {
    if n > 1 { CeilLog2Exact((n + 1) / 2); }
  }

  // ---------- The cost of mergeSort, exactly ----------

  /** How much the merge of a call pushes. */
  function Pushed(s: seq<int>, append: bool): nat {
    |Merged(MergeSorted(s[..|s| / 2], append), MergeSorted(s[|s| / 2..], append))|
  }

  /** Every element of a call is counted once in the split and, as far as it is pushed, once in the merge. */
  function MergeCost(s: seq<int>, append: bool): nat
    decreases |s|
  {
    if |s| <= 1 then 0
    else |s| + MergeCost(s[..|s| / 2], append) + MergeCost(s[|s| / 2..], append) + Pushed(s, append)
  }

  /** The lengths of all calls together. */
  function SplitTotal(n: nat): nat {
    if n <= 1 then 0 else n + SplitTotal(n / 2) + SplitTotal(n - n / 2)
  }

  lemma HalvesBetween(n: nat, p: nat)
    requires 2 * p <= n <= 4 * p
    ensures p <= n / 2 <= 2 * p && p <= n - n / 2 <= 2 * p
  {
  }

  lemma TotalsOfHalves(n: nat, a: nat, b: nat, k: nat, p: nat, ta: nat, tb: nat)
    requires n == a + b && k > 0
    requires ta + p == a * (k - 1) + a && tb + p == b * (k - 1) + b
    ensures n + ta + tb + 2 * p == n * k + n
  {
    assert a * (k - 1) + a == a * k && b * (k - 1) + b == b * k;
    assert n * k == a * k + b * k;
  }

  ghost predicate TotalIs(n: nat, k: nat) {
    SplitTotal(n) + Pow2(k) == n * k + n
  }

  lemma TotalFromParts(n: nat, a: nat, b: nat, k: nat)
    requires k > 0 && n == a + b && SplitTotal(n) == n + SplitTotal(a) + SplitTotal(b)
    requires TotalIs(a, k - 1) && TotalIs(b, k - 1)
    ensures TotalIs(n, k)
  {
    TotalsOfHalves(n, a, b, k, Pow2(k - 1), SplitTotal(a), SplitTotal(b));
  }

  lemma SmallTotals(n: nat, k: nat)
    requires if k == 0 then n == 1 else k == 1 && 1 <= n <= 2
    ensures TotalIs(n, k)
  {
    assert SplitTotal(2) == 2 + SplitTotal(1) + SplitTotal(1);
    assert Pow2(1) == 2 * Pow2(0);
  }

  lemma TotalFromHalves(n: nat, k: nat)
    requires n > 1 && k > 0 && TotalIs(n / 2, k - 1) && TotalIs(n - n / 2, k - 1)
    ensures TotalIs(n, k)
  {
    SplitOfHalves(n);
    TotalFromParts(n, n / 2, n - n / 2, k);
  }

  /** The number of elements lies between the k-th power of two and the one before. */
  ghost predicate Between(n: nat, k: nat) {
    n <= Pow2(k) && if k == 0 then n == 1 else Pow2(k - 1) <= n
  }

  lemma HalvesAreBetween(n: nat, k: nat)
    requires k > 1 && Between(n, k)
    ensures n > 1 && Between(n / 2, k - 1) && Between(n - n / 2, k - 1)
  {
    assert Pow2(k) == 2 * Pow2(k - 1) && Pow2(k - 1) == 2 * Pow2(k - 2);
    HalvesBetween(n, Pow2(k - 2));
  }

  /** In closed form. */
  lemma {:induction false} SplitTotalIs(n: nat, k: nat)
    requires Between(n, k)
    ensures TotalIs(n, k)
    decreases k
  {
    if k > 1 {
      HalvesAreBetween(n, k);
      SplitTotalIs(n / 2, k - 1);
      SplitTotalIs(n - n / 2, k - 1);
      TotalFromHalves(n, k);
    } else {
      assert Pow2(0) == 1 && Pow2(1) == 2;
      SmallTotals(n, k);
    }
  }

  lemma CostOfHalves(s: seq<int>, append: bool)
    requires |s| > 1
    ensures MergeCost(s, append) ==
            |s| + MergeCost(s[..|s| / 2], append) + MergeCost(s[|s| / 2..], append) + Pushed(s, append)
  {
  }

  lemma SplitOfHalves(n: nat)
    requires n > 1
    ensures SplitTotal(n) == n + SplitTotal(n / 2) + SplitTotal(n - n / 2)
  {
  }

  /** The merge pushes everything exactly when nothing is lost below it or in it. */
  lemma PushesExactly(s: seq<int>, append: bool)
    requires |s| > 1
    ensures var a, b := s[..|s| / 2], s[|s| / 2..];
            && 1 <= Pushed(s, append) <= |s|
            && (LosesNothing(a) && LosesNothing(b) ==> (Pushed(s, append) == |s| <==> Least(b) > Least(a)))
  {
    var a, b := s[..|s| / 2], s[|s| / 2..];
    SortedLength(a, append);
    SortedLength(b, append);
    var l, r := MergeSorted(a, append), MergeSorted(b, append);
    MergedLength(l, r);
    KeepsSome(a, append);
    SomethingMerged(l, r);
    if LosesNothing(a) && LosesNothing(b) {
      NeverLonger(a);
      NeverLonger(b);
      AppendingSorts(a);
      AppendingSorts(b);
      assert l == MergeSorted(a, true) && r == MergeSorted(b, true);
      LastIsLeast(a, l);
      LastIsLeast(b, r);
      UnreadExactly(l, r);
      assert |l| == |multiset(l)| == |multiset(a)| == |a| && |r| == |multiset(r)| == |multiset(b)| == |b|;
    }
  }

  lemma SomethingMerged(l: seq<int>, r: seq<int>)
    ensures l != [] ==> Merged(l, r) != []
  {
  }

  lemma {:induction false} KeepsSome(s: seq<int>, append: bool)
    ensures s != [] ==> MergeSorted(s, append) != []
    decreases |s|
  {
    if |s| > 1 {
      KeepsSome(s[..|s| / 2], append);
      SomethingMerged(MergeSorted(s[..|s| / 2], append), MergeSorted(s[|s| / 2..], append));
    }
  }

  /** Each call but the shortest pushes something. */
  lemma {:induction false} MergeCostAtLeast(s: seq<int>, append: bool)
    requires s != []
    ensures SplitTotal(|s|) + |s| - 1 <= MergeCost(s, append)
    decreases |s|
  {
    if |s| > 1 {
      MergeCostAtLeast(s[..|s| / 2], append);
      MergeCostAtLeast(s[|s| / 2..], append);
      CostOfHalves(s, append);
      SplitOfHalves(|s|);
      PushesExactly(s, append);
    }
  }

  lemma TwiceExactly(n: nat, ca: nat, cb: nat, pushed: nat, sa: nat, sb: nat, la: bool, lb: bool, more: bool)
    requires ca <= 2 * sa && cb <= 2 * sb && pushed <= n
    requires (ca == 2 * sa <==> la) && (cb == 2 * sb <==> lb) && (la && lb ==> (pushed == n <==> more))
    ensures n + ca + cb + pushed <= 2 * (n + sa + sb)
    ensures n + ca + cb + pushed == 2 * (n + sa + sb) <==> la && lb && more
  {
  }

  ghost predicate TwiceIfNothingLost(s: seq<int>, append: bool) {
    && MergeCost(s, append) <= 2 * SplitTotal(|s|)
    && (MergeCost(s, append) == 2 * SplitTotal(|s|) <==> LosesNothing(s))
  }

  lemma TwiceFromHalves(s: seq<int>, a: seq<int>, b: seq<int>, append: bool)
    requires |s| > 1 && a == s[..|s| / 2] && b == s[|s| / 2..]
    requires TwiceIfNothingLost(a, append) && TwiceIfNothingLost(b, append)
    ensures TwiceIfNothingLost(s, append)
  {
    CostOfHalves(s, append);
    SplitOfHalves(|s|);
    PushesExactly(s, append);
    TwiceExactly(|s|, MergeCost(a, append), MergeCost(b, append), Pushed(s, append),
                 SplitTotal(|a|), SplitTotal(|b|), LosesNothing(a), LosesNothing(b), Least(b) > Least(a));
    assert LosesNothing(s) <==> LosesNothing(a) && LosesNothing(b) && Least(b) > Least(a);
  }

  /** The counter is raised by at most twice the splits, and reaches that exactly on the inputs that lose nothing. */
  lemma {:induction false} MergeCostExactly(s: seq<int>, append: bool)
    ensures TwiceIfNothingLost(s, append)
    decreases |s|
  {
    if |s| > 1 {
      var a, b := s[..|s| / 2], s[|s| / 2..];
      MergeCostExactly(a, append);
      MergeCostExactly(b, append);
      TwiceFromHalves(s, a, b, append);
    }
  }

  /** And so by at most 2n ceil(log2 n). */
  lemma MergeCostBound(s: seq<int>, append: bool)
    ensures MergeCost(s, append) <= 2 * |s| * CeilLog2(|s|)
  {
    MergeCostExactly(s, append);
    if s != [] {
      CeilLog2Exact(|s|);
      SplitTotalIs(|s|, CeilLog2(|s|));
      TwiceTheTotal(|s|, CeilLog2(|s|), SplitTotal(|s|), MergeCost(s, append));
    }
  }

  lemma TwiceTheTotal(n: nat, k: nat, total: nat, cost: nat)
    requires cost <= 2 * total && total <= n * k
    ensures cost <= 2 * n * k
  {
    assert 2 * n * k == 2 * (n * k);
  }

  lemma SortedLength(s: seq<int>, append: bool)
    ensures |MergeSorted(s, append)| <= |s|
  {
    NeverLonger(s);
    AppendingSorts(s);
    assert |MergeSorted(s, true)| == |multiset(MergeSorted(s, true))| && |multiset(s)| == |s|;
  }

  /** Lines 119-129: the two halves, each element counted. */
  method Halve(input: seq<int>) returns (left: seq<int>, right: seq<int>, cost: nat)
    ensures left == input[..|input| / 2] && right == input[|input| / 2..] && cost == |input|
  {
    var n, pivot := |input|, |input| / 2;
    left, right, cost := [], [], 0;
    for i := 0 to pivot
      invariant left == input[..i] && cost == i
    {
      left := left + [input[i]];
      cost := cost + 1;
    }
    for i := pivot to n
      invariant right == input[pivot..i] && cost == i
    {
      cost := cost + 1;
      right := right + [input[i]];
    }
  }

  /**
   `mergeSort`; `cost` is by how much it raises `g_counter`. With `append` the unread suffix is
   put back after the merge, which the code leaves out.
   */
  method MergeSort(input: seq<int>, append: bool) returns (output: seq<int>, cost: nat)
    ensures output == MergeSorted(input, append)
    ensures cost == MergeCost(input, append) && cost <= 2 * |input| * CeilLog2(|input|)
    decreases |input|
  {
    MergeCostBound(input, append);
    if |input| <= 1 {
      return input, 0;
    }
    CostOfHalves(input, append);
    var left, right, ch := Halve(input);
    var l, cl := MergeSort(left, append);
    var r, cr := MergeSort(right, append);
    var read, cm;
    output, read, cm := Merge(l, r);
    if append {
      output := output + r[read..];
    }
    cost := ch + cl + cr + cm;
  }
}
