/**
 prac/tq.cpp: queries such as `a & b | c` over the lines of a file, evaluated by merging sorted
 lists of matching lines. The file is a sequence of lines.
 */
module TextQueries {
  import opened Splitting

  /** A matching line, numbered from one. */
  datatype Result = Result(line_content: string, line_number: nat)

  // ---------- Substrings ----------

  /** `line.find(word) != npos`. */
  predicate Contains(line: string, word: string) {
    exists i :: 0 <= i <= |line| && OccursAt(line, word, i)
  }

  predicate OccursAt(line: string, word: string, i: nat) {
    i + |word| <= |line| && line[i..i + |word|] == word
  }

  // ---------- Selections ----------

  function If(b: bool, x: Result): seq<Result> {
    if b then [x] else []
  }

  /** The numbered lines, from the `k`-th on, whose mark is set. */
  function Select(lines: seq<string>, marks: seq<bool>, k: nat): seq<Result>
    requires |marks| == |lines| && k <= |lines|
    decreases |lines| - k
  {
    if k == |lines| then [] else
    If(marks[k], Result(lines[k], k + 1)) + Select(lines, marks, k + 1)
  }

  ghost predicate Increasing(rs: seq<Result>) {
    forall i, j :: 0 <= i < j < |rs| ==> rs[i].line_number < rs[j].line_number
  }

  ghost predicate IsSelected(lines: seq<string>, marks: seq<bool>, k: nat, r: Result)
    requires |marks| == |lines|
  {
    k < r.line_number <= |lines| && marks[r.line_number - 1] && r.line_content == lines[r.line_number - 1]
  }

  lemma SelectFirst(lines: seq<string>, marks: seq<bool>, k: nat, r: Result)
    requires |marks| == |lines| && k < |lines|
    ensures r in Select(lines, marks, k) <==>
            (marks[k] && r == Result(lines[k], k + 1)) || r in Select(lines, marks, k + 1)
  {
    var first, rest := If(marks[k], Result(lines[k], k + 1)), Select(lines, marks, k + 1);
    assert r in first + rest <==> r in first || r in rest;
  }

  /** A selection holds exactly the marked lines, under their own numbers. */
  lemma {:induction false} SelectMembers(lines: seq<string>, marks: seq<bool>, k: nat, r: Result)
    requires |marks| == |lines| && k <= |lines|
    ensures r in Select(lines, marks, k) <==> IsSelected(lines, marks, k, r)
    decreases |lines| - k
  {
    if k < |lines| {
      SelectMembers(lines, marks, k + 1, r);
      SelectFirst(lines, marks, k, r);
    }
  }

  /** And it is in increasing order. */
  lemma {:induction false} SelectIncreases(lines: seq<string>, marks: seq<bool>, k: nat)
    requires |marks| == |lines| && k <= |lines|
    ensures Increasing(Select(lines, marks, k))
    decreases |lines| - k
  {
    if k < |lines| {
      var rest := Select(lines, marks, k + 1);
      SelectIncreases(lines, marks, k + 1);
      forall i | 0 <= i < |rest|
        ensures k + 1 < rest[i].line_number
      {
        SelectMembers(lines, marks, k + 1, rest[i]);
      }
    }
  }

  // ---------- std::set_intersection and std::set_union, ordered by line number ----------

  function Intersection(a: seq<Result>, b: seq<Result>): seq<Result>
    decreases |a| + |b|
  {
    if a == [] || b == [] then []
    else if a[0].line_number < b[0].line_number then Intersection(a[1..], b)
    else if b[0].line_number < a[0].line_number then Intersection(a, b[1..])
    else [a[0]] + Intersection(a[1..], b[1..])
  }

  function Union(a: seq<Result>, b: seq<Result>): seq<Result>
    decreases |a| + |b|
  {
    if a == [] then b
    else if b == [] then a
    else if a[0].line_number < b[0].line_number then [a[0]] + Union(a[1..], b)
    else if b[0].line_number < a[0].line_number then [b[0]] + Union(a, b[1..])
    else [a[0]] + Union(a[1..], b[1..])
  }

  function Both(p: seq<bool>, q: seq<bool>): seq<bool>
    requires |p| == |q|
  {
    seq(|p|, i requires 0 <= i < |p| => p[i] && q[i])
  }

  function Either(p: seq<bool>, q: seq<bool>): seq<bool>
    requires |p| == |q|
  {
    seq(|p|, i requires 0 <= i < |p| => p[i] || q[i])
  }

  ghost predicate Later(x: Result, a: seq<Result>) {
    a != [] ==> x.line_number < a[0].line_number
  }

  lemma SelectedLater(lines: seq<string>, marks: seq<bool>, k: nat)
    requires |marks| == |lines| && k < |lines|
    ensures Later(Result(lines[k], k + 1), Select(lines, marks, k + 1))
  {
    var rest := Select(lines, marks, k + 1);
    if rest != [] {
      SelectMembers(lines, marks, k + 1, rest[0]);
    }
  }

  lemma IntersectionSkips(x: Result, a: seq<Result>, b: seq<Result>)
    requires Later(x, b)
    ensures Intersection([x] + a, b) == Intersection(a, b)
    ensures Intersection(b, [x] + a) == Intersection(b, a)
  {
    assert ([x] + a)[1..] == a;
  }

  lemma IntersectionTakes(x: Result, a: seq<Result>, b: seq<Result>)
    ensures Intersection([x] + a, [x] + b) == [x] + Intersection(a, b)
  {
    assert ([x] + a)[1..] == a && ([x] + b)[1..] == b;
  }

  /** Intersecting two lists that each begin, or do not begin, with the same line ahead of the rest. */
  lemma IntersectionHead(x: Result, p: bool, a: seq<Result>, q: bool, b: seq<Result>)
    requires Later(x, a) && Later(x, b)
    ensures Intersection(If(p, x) + a, If(q, x) + b) == If(p && q, x) + Intersection(a, b)
  {
    assert [] + a == a && [] + b == b && [] + Intersection(a, b) == Intersection(a, b);
    if p && q {
      IntersectionTakes(x, a, b);
    } else if p {
      IntersectionSkips(x, a, b);
    } else if q {
      IntersectionSkips(x, b, a);
    }
  }

  lemma UnionLeft(x: Result, a: seq<Result>, b: seq<Result>)
    requires Later(x, b)
    ensures Union([x] + a, b) == [x] + Union(a, b)
  {
    assert ([x] + a)[1..] == a;
  }

  lemma UnionRight(x: Result, a: seq<Result>, b: seq<Result>)
    requires Later(x, a)
    ensures Union(a, [x] + b) == [x] + Union(a, b)
  {
    assert ([x] + b)[1..] == b;
  }

  lemma UnionBoth(x: Result, a: seq<Result>, b: seq<Result>)
    ensures Union([x] + a, [x] + b) == [x] + Union(a, b)
  {
    assert ([x] + a)[1..] == a && ([x] + b)[1..] == b;
  }

  lemma UnionHead(x: Result, p: bool, a: seq<Result>, q: bool, b: seq<Result>)
    requires Later(x, a) && Later(x, b)
    ensures Union(If(p, x) + a, If(q, x) + b) == If(p || q, x) + Union(a, b)
  {
    assert [] + a == a && [] + b == b && [] + Union(a, b) == Union(a, b);
    if p && q {
      UnionBoth(x, a, b);
    } else if p {
      UnionLeft(x, a, b);
    } else if q {
      UnionRight(x, a, b);
    }
  }

  /** Intersecting two selections is selecting by both marks. */
  lemma {:induction false} IntersectionIsBoth(lines: seq<string>, p: seq<bool>, q: seq<bool>, k: nat)
    requires |p| == |q| == |lines| && k <= |lines|
    ensures Intersection(Select(lines, p, k), Select(lines, q, k)) == Select(lines, Both(p, q), k)
    decreases |lines| - k
  {
    if k < |lines| {
      IntersectionIsBoth(lines, p, q, k + 1);
      SelectedLater(lines, p, k);
      SelectedLater(lines, q, k);
      IntersectionHead(Result(lines[k], k + 1), p[k], Select(lines, p, k + 1), q[k], Select(lines, q, k + 1));
      assert Both(p, q)[k] == (p[k] && q[k]);
    }
  }

  /** Uniting two selections is selecting by either mark. */
  lemma {:induction false} UnionIsEither(lines: seq<string>, p: seq<bool>, q: seq<bool>, k: nat)
    requires |p| == |q| == |lines| && k <= |lines|
    ensures Union(Select(lines, p, k), Select(lines, q, k)) == Select(lines, Either(p, q), k)
    decreases |lines| - k
  {
    if k < |lines| {
      UnionIsEither(lines, p, q, k + 1);
      SelectedLater(lines, p, k);
      SelectedLater(lines, q, k);
      UnionHead(Result(lines[k], k + 1), p[k], Select(lines, p, k + 1), q[k], Select(lines, q, k + 1));
      assert Either(p, q)[k] == (p[k] || q[k]);
    }
  }

  // ---------- What a query means ----------

  predicate IsOperator(w: string) {
    w == "&" || w == "|"
  }

  /** Words at even places, operators at odd ones. */
  predicate Alternates(ws: seq<string>) {
    forall i :: 0 <= i < |ws| ==> (IsOperator(ws[i]) <==> i % 2 == 1)
  }

  predicate WellFormed(ws: seq<string>) {
    Alternates(ws) && |ws| % 2 == 1
  }

  /** Whether a line satisfies a query: the operators from left to right, neither binding tighter. */
  predicate Satisfies(line: string, ws: seq<string>)
    requires |ws| % 2 == 1
  {
    if |ws| == 1 then Contains(line, ws[0])
    else
      var before, op, word := ws[..|ws| - 2], ws[|ws| - 2], ws[|ws| - 1];
      if op == "&" then Satisfies(line, before) && Contains(line, word)
      else Satisfies(line, before) || Contains(line, word)
  }

  function Marks(lines: seq<string>, ws: seq<string>): seq<bool>
    requires |ws| % 2 == 1
  {
    seq(|lines|, i requires 0 <= i < |lines| => Satisfies(lines[i], ws))
  }

  function WordMarks(lines: seq<string>, word: string): seq<bool> {
    seq(|lines|, i requires 0 <= i < |lines| => Contains(lines[i], word))
  }

  lemma MarksGrow(lines: seq<string>, ws: seq<string>, op: string, word: string)
    requires |ws| % 2 == 1
    ensures var p, w := Marks(lines, ws), WordMarks(lines, word);
            Marks(lines, ws + [op, word]) == if op == "&" then Both(p, w) else Either(p, w)
  {
    var ws' := ws + [op, word];
    assert ws'[..|ws'| - 2] == ws && ws'[|ws'| - 2] == op && ws'[|ws'| - 1] == word;
  }

  /** The selection a query comes to: increasing, and exactly the lines that satisfy it. */
  lemma SelectionExact(lines: seq<string>, ws: seq<string>)
    requires |ws| % 2 == 1
    ensures var result := Select(lines, Marks(lines, ws), 0);
            && Increasing(result)
            && forall r :: r in result <==>
                           1 <= r.line_number <= |lines| && r.line_content == lines[r.line_number - 1] &&
                           Satisfies(r.line_content, ws)
  {
    var marks := Marks(lines, ws);
    SelectIncreases(lines, marks, 0);
    forall r: Result
      ensures r in Select(lines, marks, 0) <==>
              1 <= r.line_number <= |lines| && r.line_content == lines[r.line_number - 1] &&
              Satisfies(r.line_content, ws)
    {
      SelectMembers(lines, marks, 0, r);
    }
  }

  // ---------- Words ----------

  /** How many of the words `parseExpr` takes before it stops, starting with a word. */
  function Taken(ws: seq<string>, nextOperator: bool): (n: nat)
    ensures n <= |ws|
    decreases |ws|
  {
    if ws == [] || IsOperator(ws[0]) != nextOperator then 0 else 1 + Taken(ws[1..], !nextOperator)
  }

  lemma {:induction false} TakenExact(ws: seq<string>, nextOperator: bool)
    ensures Taken(ws, nextOperator) == |ws| <==>
            forall i :: 0 <= i < |ws| ==> (IsOperator(ws[i]) <==> (i % 2 == 1) != nextOperator)
    decreases |ws|
  {
    if ws != [] {
      var rest := ws[1..];
      TakenExact(rest, !nextOperator);
      assert forall i :: 1 <= i < |ws| ==> ws[i] == rest[i - 1];
      if Taken(ws, nextOperator) == |ws| {
        forall i | 0 <= i < |ws|
          ensures IsOperator(ws[i]) <==> (i % 2 == 1) != nextOperator
        {
          if i > 0 {
            assert IsOperator(rest[i - 1]) <==> ((i - 1) % 2 == 1) != !nextOperator;
          }
        }
      } else if IsOperator(ws[0]) == nextOperator {
        var i :| 0 <= i < |rest| && (IsOperator(rest[i]) != ((i % 2 == 1) != !nextOperator));
        assert IsOperator(ws[i + 1]) != (((i + 1) % 2 == 1) != nextOperator);
      } else {
        assert IsOperator(ws[0]) != ((0 % 2 == 1) != nextOperator);
      }
    }
  }

  // ---------- Evaluating a queue of commands, whatever it holds ----------

  /** What `evalCommands` comes to: a list of lines, or `front()` of an empty queue (lines 89 and 95). */
  datatype Evaluation = Lists(result: seq<Result>) | NoRightOperand

  function Matches(lines: seq<string>, word: string): seq<Result> {
    Select(lines, WordMarks(lines, word), 0)
  }

  function Combined(op: string, a: seq<Result>, b: seq<Result>): seq<Result> {
    if op == "&" then Intersection(a, b) else Union(a, b)
  }

  /** The loop of `evalCommands`: an operator takes the next command as a word, any other command is appended. */
  function Evaluated(lines: seq<string>, found: seq<Result>, cmds: seq<string>): Evaluation
    decreases |cmds|
  {
    if cmds == [] then Lists(found)
    else if !IsOperator(cmds[0]) then Evaluated(lines, found + Matches(lines, cmds[0]), cmds[1..])
    else if |cmds| == 1 then NoRightOperand
    else Evaluated(lines, Combined(cmds[0], found, Matches(lines, cmds[1])), cmds[2..])
  }

  lemma CombinedMarks(lines: seq<string>, done: seq<string>, op: string, word: string)
    requires |done| % 2 == 1 && IsOperator(op)
    ensures Combined(op, Select(lines, Marks(lines, done), 0), Matches(lines, word)) ==
            Select(lines, Marks(lines, done + [op, word]), 0)
  {
    var p, w := Marks(lines, done), WordMarks(lines, word);
    IntersectionIsBoth(lines, p, w, 0);
    UnionIsEither(lines, p, w, 0);
    MarksGrow(lines, done, op, word);
  }

  /** Operators, each with the word behind it. */
  predicate OperatorPairs(cmds: seq<string>)
    decreases |cmds|
  {
    cmds != [] ==> |cmds| >= 2 && IsOperator(cmds[0]) && OperatorPairs(cmds[2..])
  }

  lemma {:induction false} RestInPairs(cmds: seq<string>, k: nat)
    requires WellFormed(cmds) && k <= |cmds| && k % 2 == 1
    ensures OperatorPairs(cmds[k..])
    decreases |cmds| - k
  {
    if k < |cmds| {
      assert IsOperator(cmds[k]) && k + 1 < |cmds|;
      RestInPairs(cmds, k + 2);
      assert cmds[k..][2..] == cmds[k + 2..];
    }
  }

  lemma {:induction false} EvaluatedOn(lines: seq<string>, done: seq<string>, cmds: seq<string>, found: seq<Result>)
    requires |done| % 2 == 1 && OperatorPairs(cmds)
    requires found == Select(lines, Marks(lines, done), 0)
    ensures |done + cmds| % 2 == 1
    ensures Evaluated(lines, found, cmds) == Lists(Select(lines, Marks(lines, done + cmds), 0))
    decreases |cmds|
  {
    if cmds == [] {
      assert done + cmds == done;
    } else {
      var more := done + [cmds[0], cmds[1]];
      CombinedMarks(lines, done, cmds[0], cmds[1]);
      EvaluatedOn(lines, more, cmds[2..], Combined(cmds[0], found, Matches(lines, cmds[1])));
      Rejoined(done, cmds);
    }
  }

  lemma Rejoined(done: seq<string>, cmds: seq<string>)
    requires |cmds| >= 2
    ensures done + [cmds[0], cmds[1]] + cmds[2..] == done + cmds
  {
  }

  /** A well-formed query comes to the lines that satisfy it. */
  lemma WellFormedSelects(lines: seq<string>, cmds: seq<string>)
    requires WellFormed(cmds)
    ensures Evaluated(lines, [], cmds) == Lists(Select(lines, Marks(lines, cmds), 0))
  {
    var done, rest := cmds[..1], cmds[1..];
    assert done + rest == cmds;
    assert [] + Matches(lines, cmds[0]) == Matches(lines, cmds[0]);
    assert WordMarks(lines, cmds[0]) == Marks(lines, done);
    RestInPairs(cmds, 1);
    EvaluatedOn(lines, done, rest, Matches(lines, cmds[0]));
  }

  // ---------- The classes ----------

  class TextQuery {
    var result_list: seq<Result>

    constructor ()
      ensures result_list == []
    {
      result_list := [];
    }

    /** `occursInFile`: appends the lines holding `word`. */
    method OccursInFile(lines: seq<string>, word: string)
      modifies this
      ensures result_list == old(result_list) + Select(lines, WordMarks(lines, word), 0)
    {
      var line_number := 1;
      ghost var before, marks := result_list, WordMarks(lines, word);
      while line_number <= |lines|
        invariant 1 <= line_number <= |lines| + 1
        invariant result_list + Select(lines, marks, line_number - 1) == before + Select(lines, marks, 0)
      {
        var line := lines[line_number - 1];
        if Contains(line, word) {
          result_list := result_list + [Result(line, line_number)];
        }
        line_number := line_number + 1;
      }
    }

    /** `operator&`. */
    method And(q: TextQuery)
      modifies this
      ensures result_list == Intersection(old(result_list), old(q.result_list))
    {
      result_list := Intersection(result_list, q.result_list);
    }

    /** `operator|`. */
    method Or(q: TextQuery)
      modifies this
      ensures result_list == Union(old(result_list), old(q.result_list))
    {
      result_list := Union(result_list, q.result_list);
    }
  }

  class Query {
    var commands: seq<string>

    constructor ()
      ensures commands == []
    {
      commands := [];
    }

    /**
     `parseExpr`; `accepted` is false where the code throws. The words before the fault stay in
     the queue. What is accepted depends on how many commands were left there by earlier calls:
     alternating words that bring the number of commands to an odd one.
     */
    method ParseExpr(expr: string) returns (accepted: bool)
      modifies this
      ensures commands == old(commands) + Words(expr)[..Taken(Words(expr), false)]
      ensures accepted <==> Alternates(Words(expr)) && (|old(commands)| + |Words(expr)|) % 2 == 1
      ensures accepted ==> commands == old(commands) + Words(expr)
    {
      var ws := Words(expr);
      var next_should_operator := false;
      TakenExact(ws, false);
      for i := 0 to |ws|
        invariant next_should_operator == (i % 2 == 1)
        invariant commands == old(commands) + ws[..i]
        invariant i + Taken(ws[i..], next_should_operator) == Taken(ws, false)
      {
        assert ws[i..][0] == ws[i] && ws[i..][1..] == ws[i + 1..];
        if IsOperator(ws[i]) != next_should_operator {
          return false;
        }
        commands := commands + [ws[i]];
        next_should_operator := !next_should_operator;
      }
      assert ws[..|ws|] == ws;
      accepted := |commands| % 2 != 0;
    }

    /** One operator of the queue and the word behind it (lines 87-98). */
    method EvalOperator(lines: seq<string>, tq: TextQuery) returns (complete: bool)
      requires commands != [] && IsOperator(commands[0])
      modifies this, tq
      ensures complete <==> |old(commands)| >= 2
      ensures complete ==> commands == old(commands)[2..]
      ensures complete ==>
                tq.result_list == Combined(old(commands)[0], old(tq.result_list), Matches(lines, old(commands)[1]))
    {
      var command := commands[0];
      commands := commands[1..];
      if commands == [] {
        return false;
      }
      var right_command := commands[0];
      var q := new TextQuery();
      q.OccursInFile(lines, right_command);
      assert [] + Matches(lines, right_command) == Matches(lines, right_command);
      if command == "&" {
        tq.And(q);
      } else {
        tq.Or(q);
      }
      commands := commands[1..];
      complete := true;
    }

    /** `evalCommands`, on any queue; when it comes to an end the queue is empty. */
    method EvalCommands(lines: seq<string>) returns (e: Evaluation)
      modifies this
      ensures e == Evaluated(lines, [], old(commands))
      ensures e.Lists? ==> commands == []
      ensures WellFormed(old(commands)) ==> e == Lists(Select(lines, Marks(lines, old(commands)), 0))
    {
      ghost var whole := commands;
      if WellFormed(whole) {
        WellFormedSelects(lines, whole);
      }
      if commands == [] {
        return Lists([]);
      }
      var tq := new TextQuery();
      while commands != []
        invariant Evaluated(lines, tq.result_list, commands) == Evaluated(lines, [], whole)
        decreases |commands|
      {
        var command := commands[0];
        if IsOperator(command) {
          var complete := EvalOperator(lines, tq);
          if !complete {
            return NoRightOperand;
          }
        } else {
          tq.OccursInFile(lines, command);
          commands := commands[1..];
        }
      }
      e := Lists(tq.result_list);
    }
  }

  // ---------- Queries on written words ----------

  /** Words and operators in turn, beginning and ending with a word. */
  ghost predicate IsQuery(ws: seq<string>) {
    && |ws| % 2 == 1
    && forall i :: 0 <= i < |ws| ==> if i % 2 == 1 then ws[i] == "&" || ws[i] == "|" else ws[i] != "&" && ws[i] != "|"
  }

  /** What `find` looks for. */
  lemma ContainsIs(line: string, word: string)
    ensures Contains(line, word) <==> exists before, behind :: line == before + word + behind
  {
    if Contains(line, word) {
      var i :| 0 <= i <= |line| && OccursAt(line, word, i);
      assert line == line[..i] + word + line[i + |word|..];
    }
    if before, behind :| line == before + word + behind {
      assert OccursAt(line, word, |before|);
    }
  }

  /** What a query asks for, from its last operator inward. */
  lemma SatisfiesIs(line: string, ws: seq<string>, word: string)
    requires |ws| % 2 == 1
    ensures Satisfies(line, [word]) <==> Contains(line, word)
    ensures Satisfies(line, ws + ["&", word]) <==> Satisfies(line, ws) && Contains(line, word)
    ensures Satisfies(line, ws + ["|", word]) <==> Satisfies(line, ws) || Contains(line, word)
  {
    var both, either := ws + ["&", word], ws + ["|", word];
    assert both[..|both| - 2] == ws && either[..|either| - 2] == ws;
  }

  /**
   Parse and evaluate, as `main` does for every line typed in. However its words are spaced, the
   line is accepted if and only if they are a query, and then exactly the lines satisfying it come
   back, by increasing number. (`EveryTextIsWritten`: every line is some words, spaced somehow.)
   */
  method Ask(expr: string, lines: seq<string>) returns (accepted: bool, result: seq<Result>)
    ensures forall gaps, words :: Written(expr, gaps, words) ==> (accepted <==> IsQuery(words))
    ensures accepted ==> Increasing(result)
    ensures forall gaps, words :: Written(expr, gaps, words) && IsQuery(words) ==>
              forall r :: r in result <==>
                          1 <= r.line_number <= |lines| && r.line_content == lines[r.line_number - 1] &&
                          Satisfies(r.line_content, words)
  {
    var query := new Query();
    accepted := query.ParseExpr(expr);
    result := [];
    assert accepted <==> WellFormed(Words(expr));
    forall gaps, words | Written(expr, gaps, words)
      ensures words == Words(expr)
    {
      ReadsTheWords(expr, gaps, words);
    }
    if accepted {
      assert [] + Words(expr) == Words(expr);
      var e := query.EvalCommands(lines);
      result := e.result;
      SelectionExact(lines, Words(expr));
    }
  }
}
