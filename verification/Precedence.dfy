/**
 The value prac/cal.cpp gives an expression against the value arithmetic gives it.

 The calculator nests chains of `*` and `/` to the right, arithmetic to the left. The main
 result says exactly which expressions do not suffer from it: those in which `/` is only ever
 the last operator of its term. Every other expression has numerals for which the calculator
 is wrong.
 */
module Precedence {
  import opened Calculators
  import opened Expressions
  import opened Parsing

  /** A real number, or `Undefined` once a division by zero has happened. */
  datatype Number = Undefined | Real(x: real)

  function Arith(op: Op, a: Number, b: Number): Number {
    if a.Undefined? || b.Undefined? then Undefined else
    match op
    case Additive(Plus) => Real(a.x + b.x)
    case Additive(Minus) => Real(a.x - b.x)
    case Multiplicative(Times) => Product(a.x, b.x)
    case Multiplicative(Over) => Quotient(a.x, b.x)
  }

  function Product(x: real, y: real): Number {
    Real(x * y)
  }

  function Quotient(x: real, y: real): Number {
    if y == 0.0 then Undefined else Real(x / y)
  }

  /** The real number a value built by the calculator stands for. */
  function Meaning(v: Value): Number {
    match v
    case Const(n) => Real(n as real)
    case Apply(op, l, r) => Arith(op, Meaning(l), Meaning(r))
  }

  // ---------- Ordinary arithmetic: left to right, `*` and `/` before `+` and `-` ----------

  function StandardFactor(f: Factor): Number
    decreases f
  {
    match f
    case Num(_) => Meaning(FactorValue(f))
    case Paren(e) => Standard(e)
  }

  function StandardTerm(t: Term): Number
    decreases t, 1
  {
    match t
    case One(f) => StandardFactor(f)
    case Chain(f, op, rest) => Continue(StandardFactor(f), op, rest)
  }

  /** `acc op t`, worked off from the left. */
  function Continue(acc: Number, op: MulOp, t: Term): Number
    decreases t, 0
  {
    var acc' := Arith(Multiplicative(op), acc, StandardFactor(t.f));
    match t
    case One(_) => acc'
    case Chain(_, op', rest) => Continue(acc', op', rest)
  }

  function Standard(e: Expr): Number
    decreases e, 0
  {
    match e
    case Single(t) => StandardTerm(t)
    case Sum(e', op, t) => Arith(Additive(op), Standard(e'), StandardTerm(t))
  }

  // ---------- Where the two agree ----------

  /** In this term, not looking inside parentheses, `/` is only the last operator. */
  predicate ChainDividesLast(t: Term) {
    t.Chain? && t.rest.Chain? ==> t.op.Times? && ChainDividesLast(t.rest)
  }

  predicate FactorDividesLast(f: Factor) {
    f.Paren? ==> DividesLast(f.e)
  }

  predicate FactorsDivideLast(t: Term) {
    FactorDividesLast(t.f) && (t.Chain? ==> FactorsDivideLast(t.rest))
  }

  predicate DividesLast(e: Expr) {
    ChainDividesLast(e.t) && FactorsDivideLast(e.t) && (e.Sum? ==> DividesLast(e.e))
  }

  lemma TimesThenArith(a: Number, op: MulOp, b: Number, c: Number)
    ensures Arith(Multiplicative(op), Arith(Multiplicative(Times), a, b), c) ==
            Arith(Multiplicative(Times), a, Arith(Multiplicative(op), b, c))
  {
    if a.Real? && b.Real? && c.Real? {
      if op.Over? && c.x != 0.0 {
        assert a.x * b.x / c.x == a.x * (b.x / c.x);
      }
    }
  }

  lemma {:induction false} ContinueAgrees(acc: Number, op: MulOp, t: Term)
    requires ChainDividesLast(t) && FactorsDivideLast(t) && (t.Chain? ==> op.Times?)
    ensures Continue(acc, op, t) == Arith(Multiplicative(op), acc, Meaning(TermValue(t)))
    decreases t, 1
  {
    FactorAgrees(t.f);
    match t
    case One(f) =>
    case Chain(f, op', rest) =>
      var acc' := Arith(Multiplicative(op), acc, StandardFactor(f));
      ContinueAgrees(acc', op', rest);
      TimesThenArith(acc, op', StandardFactor(f), Meaning(TermValue(rest)));
  }

  lemma {:induction false} FactorAgrees(f: Factor)
    requires FactorDividesLast(f)
    ensures Meaning(FactorValue(f)) == StandardFactor(f)
    decreases f, 0
  {
    if f.Paren? { Agrees(f.e); }
  }

  /** Where `/` only ends terms, the calculator computes what arithmetic does. */
  lemma {:induction false} Agrees(e: Expr)
    requires DividesLast(e)
    ensures Meaning(ExprValue(e)) == Standard(e)
    decreases e, 0
  {
    FactorAgrees(e.t.f);
    if e.t.Chain? {
      ContinueAgrees(StandardFactor(e.t.f), e.t.op, e.t.rest);
    }
    if e.Sum? { Agrees(e.e); }
  }

  // ---------- Where they do not ----------

  /** The same operators and parentheses, with other numerals. */
  predicate SameFactor(f: Factor, f': Factor) {
    f.Num? == f'.Num? && (f.Paren? ==> SameShape(f.e, f'.e))
  }

  predicate SameTerm(t: Term, t': Term) {
    && SameFactor(t.f, t'.f) && t.One? == t'.One?
    && (t.Chain? ==> t.op == t'.op && SameTerm(t.rest, t'.rest))
  }

  predicate SameShape(e: Expr, e': Expr) {
    && SameTerm(e.t, e'.t) && e.Single? == e'.Single?
    && (e.Sum? ==> e.op == e'.op && SameShape(e.e, e'.e))
  }

  type Small = n: nat | n <= 2

  function Digit(v: Small): string {
    if v == 0 then "0" else if v == 1 then "1" else "2"
  }

  lemma ArithByOne(op: MulOp, a: Number)
    requires a.Real?
    ensures Arith(Multiplicative(op), a, Real(1.0)) == a
  {
  }

  /** Numerals that make a factor, term or sum worth `v`, however it is nested. */
  function FillFactor(f: Factor, v: Small): Factor {
    if f.Num? then Num(Digit(v)) else Paren(Fill(f.e, v))
  }

  function FillTerm(t: Term, v: Small): Term {
    if t.One? then One(FillFactor(t.f, v)) else Chain(FillFactor(t.f, v), t.op, FillTerm(t.rest, 1))
  }

  function Fill(e: Expr, v: Small): Expr {
    if e.Single? then Single(FillTerm(e.t, v)) else Sum(Fill(e.e, v), e.op, FillTerm(e.t, 0))
  }

  lemma {:induction false} FillFactorIsWorth(f: Factor, v: Small)
    ensures SameFactor(f, FillFactor(f, v)) && FactorFits(FillFactor(f, v))
    ensures StandardFactor(FillFactor(f, v)) == Meaning(FactorValue(FillFactor(f, v))) == Real(v as real)
    decreases f, 0
  {
    if f.Paren? {
      FillIsWorth(f.e, v);
    } else {
      assert Digit(v)[..0] == "";
    }
  }

  lemma {:induction false} FillTermIsWorth(t: Term, v: Small)
    ensures SameTerm(t, FillTerm(t, v)) && TermFits(FillTerm(t, v))
    ensures StandardTerm(FillTerm(t, v)) == Meaning(TermValue(FillTerm(t, v))) == Real(v as real)
    decreases t, 1
  {
    FillFactorIsWorth(t.f, v);
    if t.Chain? {
      FillTermIsWorth(t.rest, 1);
      FillContinues(Real(v as real), t.op, t.rest, 1);
      ArithByOne(t.op, Real(v as real));
    }
  }

  /** Working off a filled term from the left is one operation with its worth. */
  lemma {:induction false} FillContinues(acc: Number, op: MulOp, t: Term, v: Small)
    ensures Continue(acc, op, FillTerm(t, v)) == Arith(Multiplicative(op), acc, Real(v as real))
    decreases t, 0
  {
    FillFactorIsWorth(t.f, v);
    if t.Chain? {
      var acc' := Arith(Multiplicative(op), acc, Real(v as real));
      FillContinues(acc', t.op, t.rest, 1);
      if acc'.Real? {
        ArithByOne(t.op, acc');
      }
    }
  }

  lemma {:induction false} FillIsWorth(e: Expr, v: Small)
    ensures SameShape(e, Fill(e, v)) && ExprFits(Fill(e, v))
    ensures Standard(Fill(e, v)) == Meaning(ExprValue(Fill(e, v))) == Real(v as real)
    decreases e, 0
  {
    if e.Single? {
      FillTermIsWorth(e.t, v);
    } else {
      FillIsWorth(e.e, v);
      FillTermIsWorth(e.t, 0);
    }
  }

  /** Both are real and neither is zero, yet they differ. */
  predicate Apart(a: Number, b: Number) {
    a.Real? && b.Real? && a.x != 0.0 && b.x != 0.0 && a.x != b.x
  }

  /** A `/` before the last operator: ones everywhere, and a two after the next operator. */
  lemma OneTimesTwo()
    ensures Arith(Multiplicative(Times), Real(1.0), Real(1.0)) == Real(1.0)
    ensures Arith(Multiplicative(Times), Real(1.0), Real(2.0)) == Real(2.0)
  {
  }

  lemma OneOverTwo()
    ensures Arith(Multiplicative(Over), Real(1.0), Real(1.0)) == Real(1.0)
    ensures Arith(Multiplicative(Over), Real(1.0), Real(2.0)) == Real(0.5)
    ensures Arith(Multiplicative(Over), Real(1.0), Real(0.5)) == Real(2.0)
  {
  }

  /** `1 / (1 op 2)` is not `(1 / 1) op 2`. */
  lemma BreakHere(f1: Factor, f2: Factor, op: MulOp, t: Term)
    requires StandardFactor(f1) == Meaning(FactorValue(f1)) == Real(1.0)
    requires StandardFactor(f2) == Meaning(FactorValue(f2)) == Real(1.0)
    requires Meaning(TermValue(t)) == Real(2.0)
    requires Continue(Real(1.0), op, t) == Arith(Multiplicative(op), Real(1.0), Real(2.0))
    ensures var t' := Chain(f1, Over, Chain(f2, op, t));
            Apart(Meaning(TermValue(t')), StandardTerm(t'))
  {
    var inner := Chain(f2, op, t);
    OneTimesTwo();
    OneOverTwo();
    assert Meaning(TermValue(inner)) == Arith(Multiplicative(op), Real(1.0), Real(2.0));
    assert Continue(Real(1.0), Over, inner) == Continue(Real(1.0), op, t);
  }

  lemma {:induction false} BreakChain(t: Term) returns (t': Term)
    requires !ChainDividesLast(t)
    ensures SameTerm(t, t') && TermFits(t')
    ensures Apart(Meaning(TermValue(t')), StandardTerm(t'))
    decreases t
  {
    FillFactorIsWorth(t.f, 1);
    if t.op.Over? {
      FillFactorIsWorth(t.rest.f, 1);
      FillTermIsWorth(t.rest.rest, 2);
      FillContinues(Real(1.0), t.rest.op, t.rest.rest, 2);
      BreakHere(FillFactor(t.f, 1), FillFactor(t.rest.f, 1), t.rest.op, FillTerm(t.rest.rest, 2));
      t' := Chain(FillFactor(t.f, 1), Over, Chain(FillFactor(t.rest.f, 1), t.rest.op, FillTerm(t.rest.rest, 2)));
    } else {
      var rest' := BreakChain(t.rest);
      t' := Chain(FillFactor(t.f, 1), Times, rest');
      OneTimesTerm(FillFactor(t.f, 1), rest');
    }
  }

  lemma OneTimesTerm(f: Factor, t: Term)
    requires StandardFactor(f) == Meaning(FactorValue(f)) == Real(1.0)
    requires StandardTerm(t).Real? && Meaning(TermValue(t)).Real?
    ensures Meaning(TermValue(Chain(f, Times, t))) == Meaning(TermValue(t))
    ensures StandardTerm(Chain(f, Times, t)) == StandardTerm(t)
  {
    OneTimes(t);
  }

  lemma OneTimes(t: Term)
    requires StandardTerm(t).Real?
    ensures Continue(Real(1.0), Times, t) == StandardTerm(t)
  {
    var f := StandardFactor(t.f);
    assert Arith(Multiplicative(Times), Real(1.0), f) == f;
  }

  lemma InverseIsOwn(r: real, x: real, y: real)
    requires r * x == 1.0 && r * y == 1.0
    ensures x == y
  {
    calc {
      x;
      x * (r * y);
      (r * x) * y;
      y;
    }
  }

  lemma InverseDiffers(x: real, y: real)
    requires x != 0.0 && y != 0.0 && x != y
    ensures 1.0 / x != 1.0 / y && 1.0 / x != 0.0 && 1.0 / y != 0.0
  {
    var r, q := 1.0 / x, 1.0 / y;
    assert r * x == 1.0;
    assert q * y == 1.0;
    if r == q {
      InverseIsOwn(r, x, y);
    }
  }

  lemma ArithFromOne(op: MulOp, a: Number, b: Number)
    requires Apart(a, b)
    ensures Apart(Arith(Multiplicative(op), Real(1.0), a), Arith(Multiplicative(op), Real(1.0), b))
  {
    InverseDiffers(a.x, b.x);
  }

  /** The fault lies in parentheses: it is carried outward unchanged or inverted. */
  lemma {:induction false} BreakFactor(t: Term) returns (t': Term)
    requires ChainDividesLast(t) && !FactorsDivideLast(t)
    ensures SameTerm(t, t') && TermFits(t')
    ensures Apart(Meaning(TermValue(t')), StandardTerm(t'))
    decreases t, 0
  {
    if !FactorDividesLast(t.f) {
      var e' := Break(t.f.e);
      if t.One? {
        t' := One(Paren(e'));
      } else {
        FillTermIsWorth(t.rest, 1);
        FillContinues(Standard(e'), t.op, t.rest, 1);
        t' := Chain(Paren(e'), t.op, FillTerm(t.rest, 1));
        ArithByOne(t.op, Meaning(ExprValue(e')));
        ArithByOne(t.op, Standard(e'));
      }
    } else {
      FillFactorIsWorth(t.f, 1);
      var rest' := BreakFactor(t.rest);
      t' := Chain(FillFactor(t.f, 1), t.op, rest');
      if t.rest.Chain? {
        OneTimesTerm(FillFactor(t.f, 1), rest');
      } else {
        ArithFromOne(t.op, Meaning(TermValue(rest')), StandardTerm(rest'));
      }
    }
  }

  lemma {:induction false} BreakTerm(t: Term) returns (t': Term)
    requires !ChainDividesLast(t) || !FactorsDivideLast(t)
    ensures SameTerm(t, t') && TermFits(t')
    ensures Apart(Meaning(TermValue(t')), StandardTerm(t'))
    decreases t, 1
  {
    if !ChainDividesLast(t) {
      t' := BreakChain(t);
    } else {
      t' := BreakFactor(t);
    }
  }

  lemma {:induction false} Break(e: Expr) returns (e': Expr)
    requires !DividesLast(e)
    ensures SameShape(e, e') && ExprFits(e')
    ensures Apart(Meaning(ExprValue(e')), Standard(e'))
    decreases e, 2
  {
    if !ChainDividesLast(e.t) || !FactorsDivideLast(e.t) {
      var t' := BreakTerm(e.t);
      if e.Single? {
        e' := Single(t');
      } else {
        FillIsWorth(e.e, 0);
        e' := Sum(Fill(e.e, 0), e.op, t');
      }
    } else {
      var e1 := Break(e.e);
      FillTermIsWorth(e.t, 0);
      e' := Sum(e1, e.op, FillTerm(e.t, 0));
    }
  }

  // ---------- Main result ----------

  lemma {:induction false} ShapeFixesDivisions(e: Expr, e': Expr)
    requires SameShape(e, e')
    ensures DividesLast(e) == DividesLast(e')
    decreases e, 0
  {
    TermFixesDivisions(e.t, e'.t);
    if e.Sum? { ShapeFixesDivisions(e.e, e'.e); }
  }

  lemma {:induction false} TermFixesDivisions(t: Term, t': Term)
    requires SameTerm(t, t')
    ensures ChainDividesLast(t) == ChainDividesLast(t') && FactorsDivideLast(t) == FactorsDivideLast(t')
    decreases t, 1
  {
    if t.f.Paren? { ShapeFixesDivisions(t.f.e, t'.f.e); }
    if t.Chain? { TermFixesDivisions(t.rest, t'.rest); }
  }

  /**
   The calculator agrees with arithmetic on all numerals exactly when `/` is nowhere followed by
   another `*` or `/` in its term.
   */
  lemma AgreesExactly(e: Expr)
    ensures DividesLast(e) <==>
            forall e' :: SameShape(e, e') && ExprFits(e') ==> Meaning(ExprValue(e')) == Standard(e')
  {
    if DividesLast(e) {
      forall e' | SameShape(e, e') && ExprFits(e')
        ensures Meaning(ExprValue(e')) == Standard(e')
      {
        ShapeFixesDivisions(e, e');
        Agrees(e');
      }
    } else {
      var e' := Break(e);
      assert SameShape(e, e') && Meaning(ExprValue(e')) != Standard(e');
    }
  }

  /** A fitting expression typed in is answered with what arithmetic says it is worth. */
  predicate AnsweredRight(text: string, e: Expr) {
    Answer(text).Success? && Meaning(Answer(text).value) == Standard(e)
  }

  /** The same, said of the texts typed in: all that print an expression of this shape are answered right. */
  lemma CalculatorIsRight(e: Expr)
    ensures DividesLast(e) <==>
            forall text, e' :: SameShape(e, e') && ExprFits(e') && Squeeze(text) == Print(e') ==>
              AnsweredRight(text, e')
  {
    if DividesLast(e) {
      forall text, e' | SameShape(e, e') && ExprFits(e') && Squeeze(text) == Print(e')
        ensures AnsweredRight(text, e')
      {
        EvalInvertsPrint(text, e');
        ShapeFixesDivisions(e, e');
        Agrees(e');
      }
    } else {
      var e' := Break(e);
      PrintHasNoBlanks(e');
      SqueezeKeeps(Print(e'));
      EvalInvertsPrint(Print(e'), e');
      assert Squeeze(Print(e')) == Print(e') && !AnsweredRight(Print(e'), e');
    }
  }

  lemma RepeatedDivisionValues(e: Expr)
    requires e == Single(Chain(Num("8"), Over, Chain(Num("4"), Over, One(Num("2")))))
    ensures Print(e) == "8/4/2" && ExprFits(e)
    ensures Meaning(ExprValue(e)) == Real(4.0) && Standard(e) == Real(1.0)
  {
    assert "8"[..0] == "" && "4"[..0] == "" && "2"[..0] == "";
  }

  /** 8/4/2 is answered with 4, not 1. */
  lemma RepeatedDivisionExample()
    ensures Answer("8/4/2").Success? && Meaning(Answer("8/4/2").value) == Real(4.0)
    ensures Standard(Single(Chain(Num("8"), Over, Chain(Num("4"), Over, One(Num("2")))))) == Real(1.0)
  {
    var e := Single(Chain(Num("8"), Over, Chain(Num("4"), Over, One(Num("2")))));
    RepeatedDivisionValues(e);
    PrintHasNoBlanks(e);
    SqueezeKeeps(Print(e));
    EvalInvertsPrint(Print(e), e);
  }
}
