/**
 The expressions prac/cal.cpp is for: sums of terms, terms of factors, factors that are
 numerals or parenthesised sums; how they are written; and the value the calculator builds.
 */
module Expressions {

  datatype AddOp = Plus | Minus
  datatype MulOp = Times | Over
  datatype Op = Additive(a: AddOp) | Multiplicative(m: MulOp)

  /**
   What `Elem::value` holds: the arithmetic that was done, operation by operation. Nothing is
   assumed about the doubles themselves, so a fact about values holds under any rounding.
   */
  datatype Value = Const(n: int) | Apply(op: Op, left: Value, right: Value)

  datatype Factor = Num(digits: string) | Paren(e: Expr)
  datatype Term = One(f: Factor) | Chain(f: Factor, op: MulOp, rest: Term)
  datatype Expr = Single(t: Term) | Sum(e: Expr, op: AddOp, t: Term)

  // ---------- Numerals ----------

  const INT_MAX := 0x7fff_ffff

  /** `numberBuf` has this many characters, the terminating zero included. */
  const BUFFER_SIZE := 64

  predicate IsDigit(c: char) {
    '0' <= c <= '9'
  }

  predicate AllDigits(s: string) {
    forall i :: 0 <= i < |s| ==> IsDigit(s[i])
  }

  function Decimal(s: string): nat
    requires AllDigits(s)
  {
    if s == "" then 0 else 10 * Decimal(s[..|s| - 1]) + (s[|s| - 1] as int - '0' as int)
  }

  /** A numeral that fits the buffer and an `int`. */
  predicate Fits(s: string) {
    0 < |s| < BUFFER_SIZE && AllDigits(s) && Decimal(s) <= INT_MAX
  }

  predicate FactorFits(f: Factor) {
    match f
    case Num(d) => Fits(d)
    case Paren(e) => ExprFits(e)
  }

  predicate TermFits(t: Term) {
    FactorFits(t.f) && (t.Chain? ==> TermFits(t.rest))
  }

  predicate ExprFits(e: Expr) {
    TermFits(e.t) && (e.Sum? ==> ExprFits(e.e))
  }

  /** A numeral by the grammar alone, of any length. */
  predicate IsNumeral(s: string) {
    s != "" && AllDigits(s)
  }

  predicate FactorWritten(f: Factor) {
    match f
    case Num(d) => IsNumeral(d)
    case Paren(e) => ExprWritten(e)
  }

  predicate TermWritten(t: Term) {
    FactorWritten(t.f) && (t.Chain? ==> TermWritten(t.rest))
  }

  predicate ExprWritten(e: Expr) {
    TermWritten(e.t) && (e.Sum? ==> ExprWritten(e.e))
  }

  // ---------- Writing an expression down ----------

  function Symbol(op: Op): char {
    match op
    case Additive(Plus) => '+'
    case Additive(Minus) => '-'
    case Multiplicative(Times) => '*'
    case Multiplicative(Over) => '/'
  }

  function PrintFactor(f: Factor): string {
    match f
    case Num(d) => d
    case Paren(e) => "(" + Print(e) + ")"
  }

  function PrintTerm(t: Term): string {
    match t
    case One(f) => PrintFactor(f)
    case Chain(f, op, rest) => PrintFactor(f) + [Symbol(Multiplicative(op))] + PrintTerm(rest)
  }

  function Print(e: Expr): string {
    match e
    case Single(t) => PrintTerm(t)
    case Sum(e', op, t) => Print(e') + [Symbol(Additive(op))] + PrintTerm(t)
  }

  // ---------- The value the calculator builds ----------

  function FactorValue(f: Factor): Value {
    match f
    case Num(d) => Const(if AllDigits(d) then Decimal(d) else 0)
    case Paren(e) => ExprValue(e)
  }

  /** Chains of `*` and `/` nest to the right. */
  function TermValue(t: Term): Value {
    match t
    case One(f) => FactorValue(f)
    case Chain(f, op, rest) => Apply(Multiplicative(op), FactorValue(f), TermValue(rest))
  }

  /** Chains of `+` and `-` nest to the left. */
  function ExprValue(e: Expr): Value {
    match e
    case Single(t) => TermValue(t)
    case Sum(e', op, t) => Apply(Additive(op), ExprValue(e'), TermValue(t))
  }
}
