/**
 The calculator of prac/cal.cpp inverts the printer: it reads every written expression back as
 that expression's own value.

 The invariant of the proof is on the stack. After a prefix that ends an expression inside some
 parentheses, the stack is everything up to the nearest `(`, and above it `Pending(e)`: at most
 one finished sum with its `+` or `-`, and then a chain of factors with `*` and `/`.
 */
module Parsing {
  import opened Characters
  import opened Expressions
  import opened Calculators

  function PendingTerm(t: Term): seq<Elem> {
    match t
    case One(f) => [Operand(FactorValue(f))]
    case Chain(f, op, rest) => [Operand(FactorValue(f)), Operator(Multiplicative(op))] + PendingTerm(rest)
  }

  function Pending(e: Expr): seq<Elem> {
    match e
    case Single(t) => PendingTerm(t)
    case Sum(e', op, t) => [Operand(ExprValue(e')), Operator(Additive(op))] + PendingTerm(t)
  }

  /** The part of the stack below an expression: nothing, or up to an open parenthesis. */
  predicate IsFrame(s: seq<Elem>) {
    s == [] || s[|s| - 1].LeftParen?
  }

  /** Reading `text` on stack `s`, and then flushing the digits, leaves `s'`. */
  predicate Reads(s: seq<Elem>, text: string, s': seq<Elem>) {
    var r := FedAll(Machine(s, ""), text);
    r.Ok? && Flushed(r.state) == Ok(Machine(s', ""))
  }

  function Squeeze(s: string): string {
    if s == "" then "" else if IsBlank(s[0]) then Squeeze(s[1..]) else [s[0]] + Squeeze(s[1..])
  }

  // ---------- Reading character by character ----------

  predicate IsSymbol(c: char) {
    c == '+' || c == '-' || c == '*' || c == '/' || c == '(' || c == ')'
  }

  lemma {:induction false} FedAllConcat(m: Machine, a: string, b: string)
    ensures FedAll(m, a).Ok? ==> FedAll(m, a + b) == FedAll(FedAll(m, a).state, b)
    ensures FedAll(m, a).Stop? ==> FedAll(m, a + b) == FedAll(m, a)
    decreases |a|
  {
    if a == "" {
      assert a + b == b;
    } else {
      assert (a + b)[1..] == a[1..] + b;
      if IsBlank(a[0]) {
        FedAllConcat(m, a[1..], b);
      } else if Fed(m, a[0]).Ok? {
        FedAllConcat(Fed(m, a[0]).state, a[1..], b);
      }
    }
  }

  lemma {:induction false} FedAllSqueeze(m: Machine, s: string)
    ensures FedAll(m, s) == FedAll(m, Squeeze(s))
    decreases |s|
  {
    if s != "" {
      if IsBlank(s[0]) {
        FedAllSqueeze(m, s[1..]);
      } else {
        assert Squeeze(s)[1..] == Squeeze(s[1..]);
        if Fed(m, s[0]).Ok? {
          FedAllSqueeze(Fed(m, s[0]).state, s[1..]);
        }
      }
    }
  }

  lemma FedOne(m: Machine, c: char)
    requires !IsBlank(c)
    ensures FedAll(m, [c]) == Fed(m, c)
  {
    if Fed(m, c).Ok? {
      assert FedAll(Fed(m, c).state, [c][1..]) == Fed(m, c);
    }
  }

  lemma {:induction false} FedDigits(s: seq<Elem>, d: string, text: string)
    requires AllDigits(d) && AllDigits(text) && |d| + |text| <= BUFFER_SIZE
    ensures FedAll(Machine(s, d), text) == Ok(Machine(s, d + text))
    decreases |text|
  {
    if text == "" {
      assert d + text == d;
    } else {
      FedDigits(s, d + [text[0]], text[1..]);
      assert d + [text[0]] + text[1..] == d + text;
    }
  }

  /** What a symbol does, it does on the stack that the text before it leaves. */
  lemma ReadsThenSymbol(s: seq<Elem>, a: string, c: char, s1: seq<Elem>, s2: seq<Elem>)
    requires Reads(s, a, s1) && IsSymbol(c) && Fed(Machine(s1, ""), c) == Ok(Machine(s2, ""))
    ensures FedAll(Machine(s, ""), a + [c]) == Ok(Machine(s2, ""))
  {
    var m := FedAll(Machine(s, ""), a).state;
    assert Fed(m, c) == Fed(Machine(s1, ""), c);
    FedAllConcat(Machine(s, ""), a, [c]);
    FedOne(m, c);
  }

  /** Reading a text, then a symbol, then another text. */
  lemma ReadsAcross(s: seq<Elem>, a: string, c: char, b: string, s1: seq<Elem>, s2: seq<Elem>, s3: seq<Elem>)
    requires Reads(s, a, s1) && IsSymbol(c) && Fed(Machine(s1, ""), c) == Ok(Machine(s2, ""))
    requires Reads(s2, b, s3)
    ensures Reads(s, a + [c] + b, s3)
  {
    ReadsThenSymbol(s, a, c, s1, s2);
    FedAllConcat(Machine(s, ""), a + [c], b);
  }

  /** A text behind an open parenthesis, and then the closing one. */
  lemma ReadsEnclosed(s: seq<Elem>, b: string, s2: seq<Elem>, s3: seq<Elem>)
    requires Reads(s + [LeftParen], b, s2) && Fed(Machine(s2, ""), ')') == Ok(Machine(s3, ""))
    ensures Reads(s, "(" + b + ")", s3)
  {
    assert Fed(Machine(s, ""), '(') == Ok(Machine(s + [LeftParen], ""));
    FedOne(Machine(s, ""), '(');
    FedAllConcat(Machine(s, ""), "(", b);
    assert Reads(s, "(" + b, s2);
    ReadsThenSymbol(s, "(" + b, ')', s2, s3);
  }

  // ---------- Reducing what is pending ----------

  /** One turn of the loop: the two operands on top and the operator between them become one. */
  lemma ReduceOne(s: seq<Elem>, left: Elem, op: Op, v: Value, parenthing: bool)
    ensures Reduce(s + [left, Operator(op)] + [Operand(v)], parenthing) ==
            Reduce(s + [Operand(Apply(op, ValueOf(left), v))], parenthing)
  {
    var s1 := s + [left, Operator(op)];
    var whole := s1 + [Operand(v)];
    assert whole[..|whole| - 1] == s1;
    assert s1[..|s1| - 1] == s + [left];
    assert (s + [left])[..|s|] == s;
  }

  /** The loop stops at the frame, taking its parenthesis along when a `)` was read. */
  lemma ReduceDone(frame: seq<Elem>, v: Value, parenthing: bool)
    requires IsFrame(frame) && (parenthing ==> frame != [])
    ensures Reduce(frame + [Operand(v)], parenthing) ==
            Ok((if parenthing then frame[..|frame| - 1] else frame) + [Operand(v)])
  {
    var whole := frame + [Operand(v)];
    assert whole[..|whole| - 1] == frame;
  }

  lemma {:induction false} ReduceTerm(s: seq<Elem>, t: Term, parenthing: bool)
    ensures Reduce(s + PendingTerm(t), parenthing) == Reduce(s + [Operand(TermValue(t))], parenthing)
    decreases t
  {
    match t
    case One(f) =>
    case Chain(f, op, rest) =>
      var left := Operand(FactorValue(f));
      var s' := s + [left, Operator(Multiplicative(op))];
      assert s + PendingTerm(t) == s' + PendingTerm(rest);
      ReduceTerm(s', rest, parenthing);
      ReduceOne(s, left, Multiplicative(op), TermValue(rest), parenthing);
  }

  /** Reducing an expression in its frame leaves one operand: the expression's value. */
  lemma ReducePending(frame: seq<Elem>, e: Expr, parenthing: bool)
    requires IsFrame(frame) && (parenthing ==> frame != [])
    ensures Reduce(frame + Pending(e), parenthing) ==
            Ok((if parenthing then frame[..|frame| - 1] else frame) + [Operand(ExprValue(e))])
  {
    ReduceDone(frame, ExprValue(e), parenthing);
    match e
    case Single(t) => ReduceTerm(frame, t, parenthing);
    case Sum(e', op, t) =>
      var left := Operand(ExprValue(e'));
      var s := frame + [left, Operator(Additive(op))];
      assert frame + Pending(e) == s + PendingTerm(t);
      ReduceTerm(s, t, parenthing);
      ReduceOne(frame, left, Additive(op), TermValue(t), parenthing);
  }

  lemma {:induction false} PendingIsOdd(t: Term)
    ensures |PendingTerm(t)| % 2 == 1
    decreases t
  {
    if t.Chain? { PendingIsOdd(t.rest); }
  }

  /** The size test of `evalStack` (line 129) only skips what is already reduced. */
  lemma EvalStackOnPending(frame: seq<Elem>, e: Expr)
    requires IsFrame(frame)
    ensures Reduced(frame + Pending(e)) == Ok(frame + [Operand(ExprValue(e))])
    ensures frame != [] ==>
              Reduced(frame + Pending(e) + [RightParen]) == Ok(frame[..|frame| - 1] + [Operand(ExprValue(e))])
  {
    ReducePending(frame, e, false);
    PendingIsOdd(e.t);
    if frame != [] {
      ReducePending(frame, e, true);
      var s := frame + Pending(e) + [RightParen];
      assert s[..|s| - 1] == frame + Pending(e);
    }
  }

  // ---------- Reading the grammar ----------

  lemma {:induction false} ReadsFactor(s: seq<Elem>, f: Factor)
    requires FactorFits(f)
    ensures Reads(s, PrintFactor(f), s + [Operand(FactorValue(f))])
    decreases f
  {
    match f
    case Num(d) =>
      FedDigits(s, "", d);
      assert "" + d == d;
    case Paren(e) =>
      ReadsExpr(s + [LeftParen], e);
      ReadsParens(s, e);
  }

  /** What is read inside parentheses comes out of them as one operand. */
  lemma ReadsParens(s: seq<Elem>, e: Expr)
    requires Reads(s + [LeftParen], Print(e), s + [LeftParen] + Pending(e))
    ensures Reads(s, PrintFactor(Paren(e)), s + [Operand(ExprValue(e))])
  {
    var frame, value := s + [LeftParen], s + [Operand(ExprValue(e))];
    EvalStackOnPending(frame, e);
    assert frame[..|frame| - 1] == s;
    assert Fed(Machine(frame + Pending(e), ""), ')') == Ok(Machine(value, ""));
    ReadsEnclosed(s, Print(e), frame + Pending(e), value);
  }

  lemma {:induction false} ReadsTerm(s: seq<Elem>, t: Term)
    requires TermFits(t)
    ensures Reads(s, PrintTerm(t), s + PendingTerm(t))
    decreases t
  {
    ReadsFactor(s, t.f);
    if t.Chain? {
      var s1 := s + [Operand(FactorValue(t.f))];
      var s2 := s1 + [Operator(Multiplicative(t.op))];
      ReadsTerm(s2, t.rest);
      ReadsAcross(s, PrintFactor(t.f), Symbol(Multiplicative(t.op)), PrintTerm(t.rest),
                  s1, s2, s2 + PendingTerm(t.rest));
      assert s2 + PendingTerm(t.rest) == s + PendingTerm(t);
    }
  }

  /** `+` and `-` first reduce what is pending. */
  lemma FedAddition(frame: seq<Elem>, e: Expr, op: AddOp)
    requires IsFrame(frame)
    ensures Fed(Machine(frame + Pending(e), ""), Symbol(Additive(op))) ==
            Ok(Machine(frame + [Operand(ExprValue(e))] + [Operator(Additive(op))], ""))
  {
    EvalStackOnPending(frame, e);
  }

  /** The stack on which the last term of a sum is read. */
  function AfterSign(frame: seq<Elem>, e: Expr, op: AddOp): seq<Elem> {
    frame + [Operand(ExprValue(e))] + [Operator(Additive(op))]
  }

  lemma ReadsSum(frame: seq<Elem>, e: Expr, op: AddOp, t: Term)
    requires IsFrame(frame) && Reads(frame, Print(e), frame + Pending(e))
    requires Reads(AfterSign(frame, e, op), PrintTerm(t), AfterSign(frame, e, op) + PendingTerm(t))
    ensures Reads(frame, Print(Sum(e, op, t)), frame + Pending(Sum(e, op, t)))
  {
    var s2 := AfterSign(frame, e, op);
    FedAddition(frame, e, op);
    ReadsAcross(frame, Print(e), Symbol(Additive(op)), PrintTerm(t), frame + Pending(e), s2, s2 + PendingTerm(t));
    SumUnfolds(frame, e, op, t);
  }

  lemma SumUnfolds(frame: seq<Elem>, e: Expr, op: AddOp, t: Term)
    ensures AfterSign(frame, e, op) + PendingTerm(t) == frame + Pending(Sum(e, op, t))
    ensures Print(Sum(e, op, t)) == Print(e) + [Symbol(Additive(op))] + PrintTerm(t)
  {
  }

  lemma {:induction false} ReadsExpr(frame: seq<Elem>, e: Expr)
    requires IsFrame(frame) && ExprFits(e)
    ensures Reads(frame, Print(e), frame + Pending(e))
    decreases e
  {
    match e
    case Single(t) => ReadsTerm(frame, t);
    case Sum(e', op, t) =>
      ReadsExpr(frame, e');
      ReadsTerm(AfterSign(frame, e', op), t);
      ReadsSum(frame, e', op, t);
  }

  // ---------- Main results ----------

  /** Every written expression, with blanks anywhere, is answered with exactly its own value. */
  lemma EvalInvertsPrint(text: string, e: Expr)
    requires ExprFits(e) && Squeeze(text) == Print(e)
    ensures Answer(text) == Success(ExprValue(e))
  {
    FedAllSqueeze(Machine([], ""), text);
    ReadsExpr([], e);
    EvalStackOnPending([], e);
    assert [] + Pending(e) == Pending(e);
    assert [] + [Operand(ExprValue(e))] == [Operand(ExprValue(e))];
  }

  ghost predicate NoBlanks(s: string) {
    forall i :: 0 <= i < |s| ==> !IsBlank(s[i])
  }

  lemma {:induction false} SqueezeKeeps(s: string)
    requires NoBlanks(s)
    ensures Squeeze(s) == s
  {
    if s != "" {
      SqueezeKeeps(s[1..]);
    }
  }

  lemma {:induction false} FactorHasNoBlanks(f: Factor)
    requires FactorFits(f)
    ensures NoBlanks(PrintFactor(f))
    decreases f
  {
    if f.Paren? { PrintHasNoBlanks(f.e); }
  }

  lemma {:induction false} TermHasNoBlanks(t: Term)
    requires TermFits(t)
    ensures NoBlanks(PrintTerm(t))
    decreases t
  {
    FactorHasNoBlanks(t.f);
    if t.Chain? { TermHasNoBlanks(t.rest); }
  }

  lemma {:induction false} PrintHasNoBlanks(e: Expr)
    requires ExprFits(e)
    ensures NoBlanks(Print(e))
    decreases e
  {
    TermHasNoBlanks(e.t);
    if e.Sum? { PrintHasNoBlanks(e.e); }
  }

  /** The notation is unambiguous: one text cannot be read as two different values. */
  lemma NotationIsUnambiguous(e: Expr, e': Expr)
    requires ExprFits(e) && ExprFits(e') && Print(e) == Print(e')
    ensures ExprValue(e) == ExprValue(e')
  {
    PrintHasNoBlanks(e);
    SqueezeKeeps(Print(e));
    EvalInvertsPrint(Print(e), e);
    EvalInvertsPrint(Print(e), e');
  }

  // ---------- Numerals that do not fit ----------

  predicate NumeralHalt(h: Halt) {
    h.OutOfRange? || h.BufferOverrun?
  }

  /** Reading `text` on stack `s`, and then flushing the digits, halts on a numeral. */
  predicate Breaks(s: seq<Elem>, text: string) {
    match FedAll(Machine(s, ""), text)
    case Stop(h) => NumeralHalt(h)
    case Ok(m) => Flushed(m).Stop? && NumeralHalt(Flushed(m).halt)
  }

  lemma BreaksBefore(s: seq<Elem>, a: string, c: char, b: string)
    requires Breaks(s, a) && IsSymbol(c)
    ensures Breaks(s, a + [c] + b)
  {
    FedAllConcat(Machine(s, ""), a, [c]);
    if FedAll(Machine(s, ""), a).Ok? {
      FedOne(FedAll(Machine(s, ""), a).state, c);
    }
    FedAllConcat(Machine(s, ""), a + [c], b);
  }

  lemma BreaksAfter(s: seq<Elem>, a: string, c: char, b: string, s1: seq<Elem>, s2: seq<Elem>)
    requires Reads(s, a, s1) && IsSymbol(c) && Fed(Machine(s1, ""), c) == Ok(Machine(s2, ""))
    requires Breaks(s2, b)
    ensures Breaks(s, a + [c] + b)
  {
    ReadsThenSymbol(s, a, c, s1, s2);
    FedAllConcat(Machine(s, ""), a + [c], b);
  }

  lemma FullBuffer(s: seq<Elem>, a: string, b: string)
    requires |a| == BUFFER_SIZE && b != "" && IsDigit(b[0])
    ensures FedAll(Machine(s, a), b) == Stop(BufferOverrun)
  {
    assert ParseElem(b[0]) == DigitToken;
    assert Fed(Machine(s, a), b[0]) == Stop(BufferOverrun);
  }

  lemma NumeralBreaks(s: seq<Elem>, d: string)
    requires IsNumeral(d) && !Fits(d)
    ensures Breaks(s, d)
  {
    if |d| <= BUFFER_SIZE {
      FedDigits(s, "", d);
      assert "" + d == d;
    } else {
      var a, b := d[..BUFFER_SIZE], d[BUFFER_SIZE..];
      FedDigits(s, "", a);
      assert "" + a == a;
      assert b[0] == d[BUFFER_SIZE];
      FullBuffer(s, a, b);
      FedAllConcat(Machine(s, ""), a, b);
      assert a + b == d;
    }
  }

  lemma BreaksInParens(s: seq<Elem>, b: string)
    requires Breaks(s + [LeftParen], b)
    ensures Breaks(s, "(" + b + ")")
  {
    assert Fed(Machine(s, ""), '(') == Ok(Machine(s + [LeftParen], ""));
    FedOne(Machine(s, ""), '(');
    FedAllConcat(Machine(s, ""), "(", b);
    assert Breaks(s, "(" + b);
    BreaksBefore(s, "(" + b, ')', "");
    assert "(" + b + ")" + "" == "(" + b + ")";
  }

  lemma {:induction false} FactorBreaks(s: seq<Elem>, f: Factor)
    requires FactorWritten(f) && !FactorFits(f)
    ensures Breaks(s, PrintFactor(f))
    decreases f
  {
    match f
    case Num(d) => NumeralBreaks(s, d);
    case Paren(e) =>
      ExprBreaks(s + [LeftParen], e);
      BreaksInParens(s, Print(e));
  }

  lemma {:induction false} TermBreaks(s: seq<Elem>, t: Term)
    requires TermWritten(t) && !TermFits(t)
    ensures Breaks(s, PrintTerm(t))
    decreases t
  {
    if !FactorFits(t.f) {
      FactorBreaks(s, t.f);
      if t.Chain? {
        BreaksBefore(s, PrintFactor(t.f), Symbol(Multiplicative(t.op)), PrintTerm(t.rest));
      }
    } else {
      ReadsFactor(s, t.f);
      var s1 := s + [Operand(FactorValue(t.f))];
      var s2 := s1 + [Operator(Multiplicative(t.op))];
      TermBreaks(s2, t.rest);
      BreaksAfter(s, PrintFactor(t.f), Symbol(Multiplicative(t.op)), PrintTerm(t.rest), s1, s2);
    }
  }

  lemma {:induction false} ExprBreaks(frame: seq<Elem>, e: Expr)
    requires IsFrame(frame) && ExprWritten(e) && !ExprFits(e)
    ensures Breaks(frame, Print(e))
    decreases e
  {
    match e
    case Single(t) => TermBreaks(frame, t);
    case Sum(e', op, t) =>
      if !ExprFits(e') {
        ExprBreaks(frame, e');
        BreaksBefore(frame, Print(e'), Symbol(Additive(op)), PrintTerm(t));
      } else {
        ReadsExpr(frame, e');
        FedAddition(frame, e', op);
        var s2 := frame + [Operand(ExprValue(e'))] + [Operator(Additive(op))];
        TermBreaks(s2, t);
        BreaksAfter(frame, Print(e'), Symbol(Additive(op)), PrintTerm(t), frame + Pending(e'), s2);
      }
  }

  /**
   A written expression is answered with its value exactly when each of its numerals fits; it is
   never taken for an error, and nothing but a numeral can stop it.
   */
  lemma AnsweredExactly(text: string, e: Expr)
    requires ExprWritten(e) && Squeeze(text) == Print(e)
    ensures Answer(text) == Success(ExprValue(e)) <==> ExprFits(e)
    ensures !ExprFits(e) ==> Answer(text).Halted? && NumeralHalt(Answer(text).halt)
  {
    if ExprFits(e) {
      EvalInvertsPrint(text, e);
    } else {
      FedAllSqueeze(Machine([], ""), text);
      ExprBreaks([], e);
    }
  }
}
