/**
 The calculator of prac/cal.cpp from one call to the next: `main` goes on with the same calculator,
 and what a call leaves on the stack or in the digit buffer stands before the next text.
 */
module Sessions {
  import opened Characters
  import opened Expressions
  import opened Calculators
  import opened Parsing
  import opened Malformed

  // ---------- Which machines are right about every expression ----------

  /** From this machine on, every expression is answered with its value. */
  ghost predicate RightNext(m: Machine) {
    forall text, e :: ExprFits(e) && Squeeze(text) == Print(e) ==> AnswerFrom(m, text) == Success(ExprValue(e))
  }

  const ONE := Single(One(Num("1")))
  const ONE_IN_PARENS := Single(One(Paren(ONE)))

  lemma OneIsWritten()
    ensures ExprFits(ONE) && Print(ONE) == "1" && ExprValue(ONE) == Const(1) && Squeeze("1") == "1"
    ensures ExprFits(ONE_IN_PARENS) && Print(ONE_IN_PARENS) == "(1)" && Squeeze("(1)") == "(1)"
  {
    assert "1"[..0] == "";
    PrintHasNoBlanks(ONE);
    PrintHasNoBlanks(ONE_IN_PARENS);
    SqueezeKeeps("1");
    SqueezeKeeps("(1)");
  }

  /** A reduction from an operand down leaves more than one element, or the result of an operation. */
  lemma {:induction false} ReducedIsApplied(t: seq<Elem>)
    requires OperandOnTop(t) && Reduce(t, false).Ok?
    ensures var r := Reduce(t, false).state; |r| >= 2 || (|r| == 1 && r[0].Operand? && r[0].value.Apply?)
    decreases |t|
  {
    var opt := t[|t| - 2];
    assert t[..|t| - 1][|t| - 2] == opt;
    if opt.Operator? && |t| >= 3 {
      AppliedReduces(t, false);
      if |t| >= 4 {
        ReducedIsApplied(Applied(t));
      }
    }
  }

  /** Anything on the stack shows in the answer to "1". */
  lemma StackSpoilsOne(s: seq<Elem>)
    requires s != []
    ensures AnswerFrom(Machine(s, ""), "1") != Success(Const(1))
  {
    FedDigits(s, "", "1");
    assert "" + "1" == "1" && "1"[..0] == "";
    var s' := s + [Operand(Const(1))];
    assert Flushed(Machine(s, "1")) == Ok(Machine(s', ""));
    if |s'| >= 3 && Reduce(s', false).Ok? {
      ReducedIsApplied(s');
    }
  }

  lemma TwoOperandsAreNoAnswer(s: seq<Elem>, v: Value, w: Value)
    ensures !Finish(Machine(s + [Operand(v)] + [Operand(w)], "")).Success?
  {
    var t := s + [Operand(v)] + [Operand(w)];
    assert t[..|t| - 1] == s + [Operand(v)];
  }

  lemma FlushedFirst(m: Machine, text: string)
    requires text != "" && text[0] == '('
    ensures Flushed(m).Stop? ==> FedAll(m, text).Stop?
    ensures Flushed(m).Ok? ==> FedAll(m, text) == FedAll(Flushed(m).state, text)
  {
    assert ParseElem('(') == LeftToken && !IsBlank('(');
  }

  /** Anything in the buffer shows in the answer to "(1)". */
  lemma BufferSpoilsParens(m: Machine)
    requires m.buf != ""
    ensures !AnswerFrom(m, "(1)").Success?
  {
    OneIsWritten();
    FlushedFirst(m, "(1)");
    if Flushed(m).Ok? {
      var s := Flushed(m).state.stack;
      ReadsFactor(s, Paren(ONE));
      assert Reads(s, "(1)", s + [Operand(Const(1))]);
      TwoOperandsAreNoAnswer(m.stack, Const(Decimal(m.buf)), Const(1));
    }
  }

  /** A calculator answers every expression with its value if and only if it is as good as new. */
  lemma RightExactlyWhenFresh(m: Machine)
    ensures m == FRESH <==> RightNext(m)
  {
    if m == FRESH {
      forall text, e | ExprFits(e) && Squeeze(text) == Print(e)
        ensures AnswerFrom(m, text) == Success(ExprValue(e))
      {
        EvalInvertsPrint(text, e);
      }
    } else {
      OneIsWritten();
      if m.buf == "" {
        StackSpoilsOne(m.stack);
        assert AnswerFrom(m, "1") != Success(ExprValue(ONE));
      } else {
        BufferSpoilsParens(m);
        assert AnswerFrom(m, "(1)") != Success(ExprValue(ONE_IN_PARENS));
      }
    }
  }

  // ---------- What a call leaves behind ----------

  /** The two regular ends leave a fresh calculator behind. */
  lemma {:induction false} AnswersLeaveFresh(m: Machine, text: string)
    ensures AnswerFrom(m, text).Success? || AnswerFrom(m, text).ErrorExpression? ==> Remnant(m, text) == FRESH
    decreases |text|
  {
    if text != "" {
      if IsBlank(text[0]) {
        AnswersLeaveFresh(m, text[1..]);
      } else if Fed(m, text[0]).Ok? {
        AnswersLeaveFresh(Fed(m, text[0]).state, text[1..]);
      }
    }
  }

  /** What an exception in a reduction leaves on the stack. */
  lemma {:induction false} ResidueExactly(s: seq<Elem>, parenthing: bool)
    requires s != []
    ensures var r := Reduce(s, parenthing);
            && (r == Stop(NotAnOperand) || r == Stop(MissingParen) ==> Residue(s, parenthing) != [])
            && (r == Stop(NotAnOperator) ==> (Residue(s, parenthing) == [] <==> Meets(Trimmed(s), 1)))
    decreases |s|
  {
    if |s| >= 2 {
      var s1 := s[..|s| - 1];
      if s[|s| - 1].RightParen? {
        ResidueExactly(s1, true);
      } else if OperandOnTop(s) {
        var opt := s[|s| - 2];
        assert s1[|s| - 2] == opt && OperatorPlace(s, |s| - 2);
        if opt.Operator? && |s| >= 3 {
          ResidueApplied(s, parenthing);
          ResidueExactly(Applied(s), parenthing);
        }
      }
    }
  }

  lemma ResidueApplied(s: seq<Elem>, parenthing: bool)
    requires OperandOnTop(s) && |s| >= 3 && s[|s| - 2].Operator?
    ensures Reduce(s, parenthing) == Reduce(Applied(s), parenthing)
    ensures Residue(s, parenthing) == Residue(Applied(s), parenthing)
    ensures Meets(Trimmed(s), 1) <==> Meets(Trimmed(Applied(s)), 1)
  {
    AppliedReduces(s, parenthing);
    var s1 := s[..|s| - 1];
    var s2 := s1[..|s1| - 1];
    assert s2[..|s2| - 1] == s[..|s| - 3];
    assert Trimmed(s) == s && Trimmed(Applied(s)) == Applied(s);
    if |s| >= 5 {
      AppliedPlaces(s, 1);
    }
  }

  /** What an exception at a character leaves, and what one at the end of the text does. */
  lemma RemnantAt(m: Machine, text: string, i: nat, h: Halt)
    requires StopsAt(m, text, i, h)
    ensures var m' := FedAll(m, text[..i]).state;
            Remnant(m, text) ==
            if i == |text| then Remnant(m', "")
            else if h.UnknownSymbol? then m'.(stack := [])
            else Stopped(m', text[i])
  {
    SplitAt(m, text, i);
    assert i < |text| ==> text[i..][0] == text[i];
  }

  /** An exception in a reduction leaves what the reduction of that place leaves, and no digits. */
  lemma ThrownLeaves(m: Machine, text: string, i: nat, h: Halt)
    requires StopsAt(m, text, i, h) && ReductionHalt(h)
    ensures HaltsAt(m, text, i, h)
    ensures Remnant(m, text) == Machine(Residue(StackAt(m, text, i), false), "")
  {
    HaltsIsStops(m, text, i, h);
    RemnantAt(m, text, i, h);
    var m' := FedAll(m, text[..i]).state;
    assert Flushed(m').state.buf == "";
    if i < |text| && text[i] != ')' {
      assert ParseElem(text[i]) == OperatorToken(Additive(if text[i] == '+' then Plus else Minus));
    }
  }

  /** A numeral out of range stays in the buffer. */
  lemma OutOfRangeLeaves(m: Machine, text: string, i: nat)
    requires StopsAt(m, text, i, OutOfRange)
    ensures Remnant(m, text).buf != ""
  {
    RemnantAt(m, text, i, OutOfRange);
    var m' := FedAll(m, text[..i]).state;
    if i < |text| {
      OutOfRangeTurn(m', text[i]);
    }
  }

  lemma OutOfRangeTurn(m: Machine, c: char)
    requires Fed(m, c) == Stop(OutOfRange)
    ensures Flushed(m) == Stop(OutOfRange) && m.buf != ""
  {
  }

  /** The code has written past its buffer or read an empty stack; nothing is known from there on. */
  predicate Undefined(h: Halt) {
    h.BufferOverrun? || h.NoLeftOperand? || h.NoResult?
  }

  /** Stopping at place `i`, the call leaves a fresh calculator behind. */
  ghost predicate HarmlessStop(text: string, i: nat, h: Halt)
    requires StopsAt(FRESH, text, i, h)
  {
    match h
    case UnknownSymbol(_) => RunAt(text, i) == ""
    case NotAnOperator => ReducesAt(FRESH, text, i) && Meets(Trimmed(StackAt(FRESH, text, i)), 1)
    case _ => false
  }

  lemma HarmlessExactly(text: string, i: nat, h: Halt)
    requires StopsAt(FRESH, text, i, h) && !Undefined(h)
    ensures HarmlessStop(text, i, h) <==> Remnant(FRESH, text) == FRESH
  {
    if h.UnknownSymbol? {
      RemnantAt(FRESH, text, i, h);
      BufferIs(text[..i]);
      UnknownInside(FRESH, text, i, h);
    } else if h.OutOfRange? {
      OutOfRangeLeaves(FRESH, text, i);
    } else {
      ThrownLeaves(FRESH, text, i, h);
      ResidueExactly(StackAt(FRESH, text, i), false);
    }
  }

  lemma UnknownInside(m: Machine, text: string, i: nat, h: Halt)
    requires StopsAt(m, text, i, h) && h.UnknownSymbol?
    ensures i < |text|
  {
  }

  /**
   The texts after which the calculator is as good as new: those with a value or an error, those
   with an unknown symbol that no digits stand before, and those where the reduction takes the
   second element from the bottom for an operator that it is not.
   */
  ghost predicate LeavesFresh(text: string) {
    match Answer(text)
    case Success(_) => true
    case ErrorExpression => true
    case Halted(h) => exists i: nat :: StopsAt(FRESH, text, i, h) && HarmlessStop(text, i, h)
  }

  /**
   Whatever text was typed before, short of undefined behaviour: every expression is answered with
   its value after it if and only if it is one of these texts.
   */
  lemma NextIsRightExactly(text: string)
    requires Answer(text).Halted? ==> !Undefined(Answer(text).halt)
    ensures LeavesFresh(text) <==> RightNext(Remnant(FRESH, text))
  {
    RightExactlyWhenFresh(Remnant(FRESH, text));
    AnswersLeaveFresh(FRESH, text);
    if Answer(text).Halted? {
      var h := Answer(text).halt;
      var place := StopPlace(FRESH, text, h);
      forall i: nat | StopsAt(FRESH, text, i, h)
        ensures HarmlessStop(text, i, h) <==> Remnant(FRESH, text) == FRESH
      {
        HarmlessExactly(text, i, h);
      }
    }
  }

  // ---------- Any number of calls ----------

  /** The calculator after a session of calls. */
  function After(m: Machine, texts: seq<string>): Machine {
    if texts == [] then m else Remnant(After(m, texts[..|texts| - 1]), texts[|texts| - 1])
  }

  /** Whatever the session, its last call makes it right again if it comes to a value or an error. */
  lemma AnswersHeal(texts: seq<string>)
    requires texts != []
    requires var last := AnswerFrom(After(FRESH, texts[..|texts| - 1]), texts[|texts| - 1]);
             last.Success? || last.ErrorExpression?
    ensures RightNext(After(FRESH, texts))
  {
    AnswersLeaveFresh(After(FRESH, texts[..|texts| - 1]), texts[|texts| - 1]);
    RightExactlyWhenFresh(FRESH);
  }

  // ---------- Examples ----------

  /**
   After an unknown symbol the stack is cleared but the digit buffer is not: digits that stood
   before the symbol are glued to the front of the next expression.
   */
  lemma LeftoverIsGlued(d: string, text: string)
    requires AllDigits(d) && |d| <= BUFFER_SIZE
    ensures AnswerFrom(Machine([], d), text) == Answer(d + text)
  {
    FedDigits([], "", d);
    assert "" + d == d;
    FedAllConcat(Machine([], ""), d, text);
  }

  /** Digits `d`, an unknown symbol, and then the text `rest`: the answer is that of `d + rest`. */
  lemma GluedAfterUnknown(d: string, c: char, rest: string)
    requires AllDigits(d) && |d| <= BUFFER_SIZE && ParseElem(c).UnknownToken? && !IsBlank(c)
    ensures Answer(d + [c]) == Halted(UnknownSymbol(c))
    ensures AnswerFrom(Remnant(FRESH, d + [c]), rest) == Answer(d + rest)
  {
    FedDigits([], "", d);
    assert "" + d == d;
    FedAllConcat(FRESH, d, [c]);
    FedOne(Machine([], d), c);
    assert Fed(Machine([], d), c) == Stop(UnknownSymbol(c));
    RemnantConcat(FRESH, d, [c]);
    assert Remnant(Machine([], d), [c]) == Machine([], d);
    LeftoverIsGlued(d, rest);
  }

  /**
   After "(-1)", which throws, the next single factor is an error; after "1)2", which throws too,
   the calculator is as good as new.
   */
  lemma ThrownExamples(op: Op, f: Factor, g: Factor)
    requires FactorFits(f) && FactorFits(g)
    ensures var left := Remnant(FRESH, "(" + ([Symbol(op)] + PrintFactor(f)) + ")");
            AnswerFrom(left, PrintFactor(g)) == ErrorExpression
    ensures var text := PrintFactor(f) + ")" + PrintFactor(g);
            Answer(text) == Halted(NotAnOperator) && Remnant(FRESH, text) == FRESH
  {
    SignInParens(op, f);
    ReadsFactor([Operand(Apply(op, Const(0), FactorValue(f)))], g);
    StrayParen(f, g);
  }

  lemma StrayParen(f: Factor, g: Factor)
    requires FactorFits(f) && FactorFits(g)
    ensures var text := PrintFactor(f) + ")" + PrintFactor(g);
            Answer(text) == Halted(NotAnOperator) && Remnant(FRESH, text) == FRESH
  {
    var v, w := Operand(FactorValue(f)), Operand(FactorValue(g));
    var text := PrintFactor(f) + ")" + PrintFactor(g);
    ReadsFactor([], f);
    ReadsFactor([v, RightParen], g);
    assert [] + [v] == [v] && [v] + [RightParen] == [v, RightParen];
    ReadsAcross([], PrintFactor(f), ')', PrintFactor(g), [v], [v, RightParen], [v, RightParen] + [w]);
    var s := [v, RightParen] + [w];
    assert s[..2] == [v, RightParen] && [v, RightParen][..1] == [v] && [v][..0] == [];
    assert Reduced(s) == Stop(NotAnOperator) && Residue(s, false) == [];
    assert text[..|text|] == text;
    SplitAt(FRESH, text, |text|);
    assert text[|text|..] == "";
  }
}
