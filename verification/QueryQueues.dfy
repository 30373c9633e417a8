/**
 The command queue of prac/tq.cpp over several calls. A rejected `parseExpr` leaves commands
 behind, and a later one may be accepted on top of them; this says which queues can arise, when
 evaluating one of them runs out of commands, and when its result is in order.
 */
module QueryQueues {
  import opened Splitting
  import opened TextQueries

  /** No operator at the front, and none behind another: what calls of `parseExpr` can leave. */
  predicate Spaced(cmds: seq<string>) {
    (cmds != [] ==> !IsOperator(cmds[0])) && NoneDoubled(cmds)
  }

  predicate NoneDoubled(cmds: seq<string>) {
    forall i :: 0 < i < |cmds| && IsOperator(cmds[i]) ==> !IsOperator(cmds[i - 1])
  }

  /** What a call of `parseExpr` adds alternates, whether the call is accepted or not. */
  lemma {:induction false} TakenAlternates(ws: seq<string>, nextOperator: bool)
    ensures forall i :: 0 <= i < Taken(ws, nextOperator) ==> (IsOperator(ws[i]) <==> (i % 2 == 1) != nextOperator)
    decreases |ws|
  {
    if ws != [] && IsOperator(ws[0]) == nextOperator {
      TakenAlternates(ws[1..], !nextOperator);
      forall i | 0 < i < Taken(ws, nextOperator)
        ensures IsOperator(ws[i]) <==> (i % 2 == 1) != nextOperator
      {
        assert ws[i] == ws[1..][i - 1];
      }
    }
  }

  /** So every queue that calls of `parseExpr` build up is spaced. */
  lemma ParsingKeepsSpaced(cmds: seq<string>, ws: seq<string>)
    requires Spaced(cmds)
    ensures Spaced(cmds + ws[..Taken(ws, false)])
  {
    TakenAlternates(ws, false);
    var more := ws[..Taken(ws, false)];
    forall i | 0 < i < |cmds + more| && IsOperator((cmds + more)[i])
      ensures !IsOperator((cmds + more)[i - 1])
    {
      if i > |cmds| {
        assert IsOperator(more[i - |cmds|]) <==> (i - |cmds|) % 2 == 1;
        assert IsOperator(more[i - |cmds| - 1]) <==> (i - |cmds| - 1) % 2 == 1;
      }
    }
  }

  // ---------- Running out of commands ----------

  /** Evaluation reads the front of an empty queue exactly when the last command is an operator. */
  lemma {:induction false} RightOperandMissingExactly(lines: seq<string>, found: seq<Result>, cmds: seq<string>)
    requires NoneDoubled(cmds)
    ensures Evaluated(lines, found, cmds) == NoRightOperand <==> cmds != [] && IsOperator(cmds[|cmds| - 1])
    decreases |cmds|
  {
    if cmds != [] {
      if !IsOperator(cmds[0]) {
        RightOperandMissingExactly(lines, found + Matches(lines, cmds[0]), cmds[1..]);
      } else if |cmds| >= 2 {
        assert !IsOperator(cmds[1]);
        RightOperandMissingExactly(lines, Combined(cmds[0], found, Matches(lines, cmds[1])), cmds[2..]);
      }
    }
  }

  // ---------- Results in order ----------

  /** A word that no operator stands before: its lines are simply appended. */
  predicate Appended(cmds: seq<string>, i: nat) {
    i < |cmds| && !IsOperator(cmds[i]) && (i == 0 || !IsOperator(cmds[i - 1]))
  }

  ghost predicate AndBehind(cmds: seq<string>, i: nat) {
    exists j :: i < j < |cmds| && cmds[j] == "&"
  }

  /** Behind every appended word there is still an `&`. */
  ghost predicate AllMended(cmds: seq<string>) {
    forall i: nat :: Appended(cmds, i) ==> AndBehind(cmds, i)
  }

  /** The same but for the first command, which finds nothing to be appended to. */
  ghost predicate Mended(cmds: seq<string>) {
    forall i: nat :: i > 0 && Appended(cmds, i) ==> AndBehind(cmds, i)
  }

  /** An intersection takes over the order of its second list, whatever the first is. */
  lemma {:induction false} IntersectionOrders(a: seq<Result>, b: seq<Result>)
    requires Increasing(b)
    ensures Increasing(Intersection(a, b))
    ensures forall r :: r in Intersection(a, b) ==> b != [] && r.line_number >= b[0].line_number
    decreases |a| + |b|
  {
    if a != [] && b != [] {
      if a[0].line_number < b[0].line_number {
        IntersectionOrders(a[1..], b);
      } else if b[0].line_number < a[0].line_number {
        IntersectionOrders(a, b[1..]);
      } else {
        IntersectionOrders(a[1..], b[1..]);
      }
    }
  }

  lemma OrderedCons(x: Result, rs: seq<Result>)
    requires Increasing(rs) && forall r :: r in rs ==> x.line_number < r.line_number
    ensures Increasing([x] + rs)
    ensures forall r :: r in [x] + rs ==> r == x || r in rs
  {
    forall i | 0 <= i < |rs|
      ensures x.line_number < rs[i].line_number
    {
      assert rs[i] in rs;
    }
  }

  lemma {:induction false} UnionOrders(a: seq<Result>, b: seq<Result>)
    requires Increasing(a) && Increasing(b)
    ensures Increasing(Union(a, b))
    ensures forall r :: r in Union(a, b) ==>
              (a != [] && r.line_number >= a[0].line_number) || (b != [] && r.line_number >= b[0].line_number)
    decreases |a| + |b|
  {
    if a != [] && b != [] {
      if a[0].line_number < b[0].line_number {
        UnionOrders(a[1..], b);
        OrderedCons(a[0], Union(a[1..], b));
      } else if b[0].line_number < a[0].line_number {
        UnionOrders(a, b[1..]);
        OrderedCons(b[0], Union(a, b[1..]));
      } else {
        UnionOrders(a[1..], b[1..]);
        OrderedCons(a[0], Union(a[1..], b[1..]));
      }
    }
  }

  /** Past a word, what is left of the queue is mended if the queue was. */
  lemma MendedRest(cmds: seq<string>, n: nat)
    requires 0 < n <= |cmds| && !IsOperator(cmds[n - 1])
    requires forall i: nat :: i >= n && Appended(cmds, i) ==> AndBehind(cmds, i)
    ensures AllMended(cmds[n..])
  {
    forall i: nat | Appended(cmds[n..], i)
      ensures AndBehind(cmds[n..], i)
    {
      assert Appended(cmds, i + n);
      var j :| i + n < j < |cmds| && cmds[j] == "&";
      assert cmds[n..][j - n] == "&";
    }
  }

  lemma {:induction false} MendedOrders(lines: seq<string>, found: seq<Result>, cmds: seq<string>)
    requires NoneDoubled(cmds) && AllMended(cmds) && Evaluated(lines, found, cmds).Lists?
    requires Increasing(found) || "&" in cmds
    ensures Increasing(Evaluated(lines, found, cmds).result)
    decreases |cmds|
  {
    if cmds != [] {
      if !IsOperator(cmds[0]) {
        assert Appended(cmds, 0);
        MendedRest(cmds, 1);
        MendedOrders(lines, found + Matches(lines, cmds[0]), cmds[1..]);
      } else {
        var matches := Matches(lines, cmds[1]);
        SelectIncreases(lines, WordMarks(lines, cmds[1]), 0);
        IntersectionOrders(found, matches);
        if Increasing(found) {
          UnionOrders(found, matches);
        }
        assert !IsOperator(cmds[1]);
        MendedRest(cmds, 2);
        assert "&" in cmds ==> cmds[0] == "&" || "&" in cmds[2..];
        MendedOrders(lines, Combined(cmds[0], found, matches), cmds[2..]);
      }
    }
  }

  // ---------- A file on which an appended word shows ----------

  function Joined(cmds: seq<string>): string {
    if cmds == [] then "" else cmds[0] + Joined(cmds[1..])
  }

  lemma {:induction false} JoinedContains(cmds: seq<string>, k: nat)
    requires k < |cmds|
    ensures Contains(Joined(cmds), cmds[k])
    decreases |cmds|
  {
    var rest := Joined(cmds[1..]);
    if k == 0 {
      assert OccursAt(Joined(cmds), cmds[0], 0);
    } else {
      JoinedContains(cmds[1..], k - 1);
      var i :| 0 <= i <= |rest| && OccursAt(rest, cmds[k], i);
      assert Joined(cmds)[|cmds[0]| + i..|cmds[0]| + i + |cmds[k]|] == rest[i..i + |cmds[k]|];
      assert OccursAt(Joined(cmds), cmds[k], |cmds[0]| + i);
    }
  }

  function Copies(line: string, n: nat): seq<Result> {
    seq(n, _ => Result(line, 1))
  }

  lemma MatchesOnce(line: string, word: string)
    requires Contains(line, word)
    ensures Matches([line], word) == Copies(line, 1)
  {
    var marks := WordMarks([line], word);
    assert Select([line], marks, 1) == [];
    assert Select([line], marks, 0) == [Result(line, 1)] + Select([line], marks, 1);
  }

  lemma CombinedCopies(line: string, n: nat, op: string)
    requires n >= 1
    ensures Combined(op, Copies(line, n), Copies(line, 1)) == Copies(line, if op == "&" then 1 else n)
  {
    var a, b := Copies(line, n), Copies(line, 1);
    assert b[1..] == [] && Intersection(a[1..], []) == [];
    assert Union(a[1..], []) == a[1..];
    assert [a[0]] + a[1..] == a;
  }

  /** Some word is appended, and no `&` comes behind it. */
  ghost predicate Unmended(cmds: seq<string>) {
    exists i: nat :: Appended(cmds, i) && !AndBehind(cmds, i)
  }

  lemma BehindInRest(cmds: seq<string>, n: nat, i: nat)
    requires n <= i < |cmds|
    ensures AndBehind(cmds[n..], i - n) ==> AndBehind(cmds, i)
  {
    if AndBehind(cmds[n..], i - n) {
      var j :| i - n < j < |cmds[n..]| && cmds[n..][j] == "&";
      assert cmds[j + n] == "&";
    }
  }

  lemma UnmendedRest(cmds: seq<string>, n: nat)
    requires 0 < n <= |cmds| && forall i :: 0 <= i < n ==> !Appended(cmds, i) || "&" in cmds[n..]
    requires Unmended(cmds)
    ensures Unmended(cmds[n..])
  {
    var rest := cmds[n..];
    var i: nat :| Appended(cmds, i) && !AndBehind(cmds, i);
    assert "&" in rest ==> AndBehind(cmds, n - 1) by {
      if j :| 0 <= j < |rest| && rest[j] == "&" {
        assert cmds[j + n] == "&";
      }
    }
    assert i >= n;
    BehindInRest(cmds, n, i);
    assert Appended(rest, i - n);
  }

  lemma {:induction false} CopiesStay(line: string, n: nat, cmds: seq<string>) returns (m: nat)
    requires n >= 1 && NoneDoubled(cmds) && Evaluated([line], Copies(line, n), cmds).Lists?
    requires forall k :: 0 <= k < |cmds| ==> Contains(line, cmds[k])
    requires (n >= 2 && "&" !in cmds) || Unmended(cmds)
    ensures m >= 2 && Evaluated([line], Copies(line, n), cmds) == Lists(Copies(line, m))
    decreases |cmds|
  {
    if cmds == [] {
      m := n;
    } else if !IsOperator(cmds[0]) {
      MatchesOnce(line, cmds[0]);
      assert Copies(line, n) + Copies(line, 1) == Copies(line, n + 1);
      if "&" in cmds[1..] {
        UnmendedRest(cmds, 1);
      }
      m := CopiesStay(line, n + 1, cmds[1..]);
    } else {
      assert !IsOperator(cmds[1]);
      MatchesOnce(line, cmds[1]);
      CombinedCopies(line, n, cmds[0]);
      if Unmended(cmds) {
        UnmendedRest(cmds, 2);
      }
      m := CopiesStay(line, if cmds[0] == "&" then 1 else n, cmds[2..]);
    }
  }

  // ---------- Main result ----------

  /**
   Whatever queue calls of `parseExpr` have built up, if evaluation does not run out of commands
   its result is in increasing order for every file exactly when behind each word that follows a
   word there is still an `&`. In particular it is for every well-formed query.
   */
  lemma IncreasingExactly(cmds: seq<string>)
    requires Spaced(cmds) && cmds != [] && !IsOperator(cmds[|cmds| - 1])
    ensures forall lines :: Evaluated(lines, [], cmds).Lists?
    ensures Mended(cmds) <==> forall lines :: Increasing(Evaluated(lines, [], cmds).result)
  {
    forall lines
      ensures Evaluated(lines, [], cmds).Lists?
    {
      RightOperandMissingExactly(lines, [], cmds);
    }
    if Mended(cmds) {
      forall lines
        ensures Increasing(Evaluated(lines, [], cmds).result)
      {
        MendedResult(lines, cmds);
      }
    } else {
      var lines := UnmendedResult(cmds);
    }
  }

  lemma MendedResult(lines: seq<string>, cmds: seq<string>)
    requires Spaced(cmds) && cmds != [] && Mended(cmds) && Evaluated(lines, [], cmds).Lists?
    ensures Increasing(Evaluated(lines, [], cmds).result)
  {
    assert [] + Matches(lines, cmds[0]) == Matches(lines, cmds[0]);
    SelectIncreases(lines, WordMarks(lines, cmds[0]), 0);
    MendedRest(cmds, 1);
    MendedOrders(lines, Matches(lines, cmds[0]), cmds[1..]);
  }

  lemma UnmendedResult(cmds: seq<string>) returns (lines: seq<string>)
    requires Spaced(cmds) && cmds != [] && !Mended(cmds)
    requires forall lines :: Evaluated(lines, [], cmds).Lists?
    ensures !Increasing(Evaluated(lines, [], cmds).result)
  {
    var line, rest := Joined(cmds), cmds[1..];
    lines := [line];
    forall k | 0 <= k < |cmds|
      ensures Contains(line, cmds[k])
    {
      JoinedContains(cmds, k);
    }
    MatchesOnce(line, cmds[0]);
    assert [] + Copies(line, 1) == Copies(line, 1);
    var i: nat :| i > 0 && Appended(cmds, i) && !AndBehind(cmds, i);
    assert Appended(rest, i - 1);
    BehindInRest(cmds, 1, i);
    assert Evaluated(lines, [], cmds).Lists?;
    assert Evaluated(lines, [], cmds) == Evaluated(lines, [] + Matches(lines, cmds[0]), rest);
    var m := CopiesStay(line, 1, rest);
    assert Copies(line, m)[0].line_number == Copies(line, m)[1].line_number;
  }

  lemma {:induction false} WellFormedIsMended(cmds: seq<string>)
    requires WellFormed(cmds)
    ensures Spaced(cmds) && Mended(cmds) && !IsOperator(cmds[|cmds| - 1])
  {
    assert forall i: nat :: i > 0 ==> !Appended(cmds, i);
  }

  // ---------- Queues that calls leave ----------

  /** The queue after a call of `parseExpr`, and whether the call is accepted. */
  function Queued(cmds: seq<string>, expr: string): seq<string> {
    cmds + Words(expr)[..Taken(Words(expr), false)]
  }

  predicate Accepted(cmds: seq<string>, expr: string) {
    Alternates(Words(expr)) && (|cmds| + |Words(expr)|) % 2 == 1
  }

  /** Any calls, rejected or not, leave a spaced queue. */
  lemma {:induction false} CallsKeepSpaced(cmds: seq<string>, exprs: seq<string>)
    requires Spaced(cmds)
    ensures Spaced(QueuedAll(cmds, exprs))
    decreases |exprs|
  {
    if exprs != [] {
      ParsingKeepsSpaced(cmds, Words(exprs[0]));
      CallsKeepSpaced(Queued(cmds, exprs[0]), exprs[1..]);
    }
  }

  function QueuedAll(cmds: seq<string>, exprs: seq<string>): seq<string>
    decreases |exprs|
  {
    if exprs == [] then cmds else QueuedAll(Queued(cmds, exprs[0]), exprs[1..])
  }

  lemma WordsOfExamples()
    ensures Words("a b") == ["a", "b"] && Words("c") == ["c"] && Words("d") == ["d"] && Words("c &") == ["c", "&"]
  {
    assert "a b"[..1] == "a" && "a b"[1..] == " b" && " b"[1..] == "b" && "b"[..1] == "b" && "b"[1..] == "";
    assert Words("b") == ["b"] + Words("");
    assert Words("a b") == ["a"] + Words(" b");
    assert "c"[..1] == "c" && "c"[1..] == "" && "d"[..1] == "d" && "d"[1..] == "";
    assert "c &"[..1] == "c" && "c &"[1..] == " &" && " &"[1..] == "&" && "&"[..1] == "&" && "&"[1..] == "";
    assert Words("&") == ["&"] + Words("");
    assert Words("c &") == ["c"] + Words(" &");
  }

  /** "a b" and then "c" are rejected and leave a and c. */
  lemma RejectedExamples()
    ensures !Accepted([], "a b") && !Accepted(["a"], "c") && QueuedAll([], ["a b", "c"]) == ["a", "c"]
  {
    WordsOfExamples();
    assert Taken(["b"], true) == 0 && !IsOperator(["a", "b"][1]);
    assert Queued([], "a b") == ["a"] && Queued(["a"], "c") == ["a", "c"];
    assert ["a b", "c"][1..] == ["c"] && ["c"][1..] == [];
    assert QueuedAll(["a"], ["c"]) == QueuedAll(["a", "c"], []);
  }

  /** On top of them "d" is accepted by the count; on top of a alone, "c &" is. */
  lemma AcceptedExamples()
    ensures Accepted(["a", "c"], "d") && Queued(["a", "c"], "d") == ["a", "c", "d"]
    ensures Accepted(["a"], "c &") && Queued(["a"], "c &") == ["a", "c", "&"]
  {
    WordsOfExamples();
    assert Taken(["&"], true) == 1;
  }

  /** The one queue comes to a list out of order, for some file; the other reads the front of an empty queue. */
  lemma LeftoverExamples()
    ensures !Mended(["a", "c", "d"])
    ensures exists lines :: Evaluated(lines, [], ["a", "c", "d"]).Lists? &&
                            !Increasing(Evaluated(lines, [], ["a", "c", "d"]).result)
    ensures forall lines :: Evaluated(lines, [], ["a", "c", "&"]) == NoRightOperand
  {
    assert Appended(["a", "c", "d"], 2);
    IncreasingExactly(["a", "c", "d"]);
    forall lines
      ensures Evaluated(lines, [], ["a", "c", "&"]) == NoRightOperand
    {
      RightOperandMissingExactly(lines, [], ["a", "c", "&"]);
    }
  }
}
