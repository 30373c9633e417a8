/**
 Numbers as they are typed into prac/cal.cpp and as it answers them, with nothing said in terms of
 the calculator's own reading of digits and operators: a writer of decimal numerals, the notation
 as a list of characters, and the four operations on written numbers.
 */
module Numerals {
  import opened Characters
  import opened Expressions
  import opened Calculators
  import opened Parsing
  import opened Malformed
  import opened Precedence

  const DIGITS := "0123456789"
  const BIGGEST: nat := 2147483647

  /** The decimal numeral of a number. */
  function Digits(n: nat): string {
    if n < 10 then [DIGITS[n]] else Digits(n / 10) + [DIGITS[n % 10]]
  }

  function Zeros(k: nat): string {
    seq(k, _ => '0')
  }

  // ---------- The notation, character by character ----------

  /** What each character is to the calculator. */
  lemma NotationIs(c: char)
    ensures ParseElem(c).DigitToken? <==> c in DIGITS
    ensures ParseElem(c) == OperatorToken(Additive(Plus)) <==> c == '+'
    ensures ParseElem(c) == OperatorToken(Additive(Minus)) <==> c == '-'
    ensures ParseElem(c) == OperatorToken(Multiplicative(Times)) <==> c == '*'
    ensures ParseElem(c) == OperatorToken(Multiplicative(Over)) <==> c == '/'
    ensures ParseElem(c).LeftToken? <==> c == '('
    ensures ParseElem(c).RightToken? <==> c == ')'
    ensures ParseElem(c).UnknownToken? <==> c !in DIGITS + "+-*/()"
    ensures IsBlank(c) <==> c as int == 32 || 9 <= c as int <= 13
  {
    assert DIGITS == ['0', '1', '2', '3', '4', '5', '6', '7', '8', '9'];
    assert IsDigit(c) <==> c in DIGITS;
    assert "+-*/()" == ['+', '-', '*', '/', '(', ')'];
  }

  // ---------- Reading a numeral ----------

  lemma DecimalSnoc(s: string, d: nat)
    requires AllDigits(s) && d < 10
    ensures AllDigits(s + [DIGITS[d]]) && Decimal(s + [DIGITS[d]]) == 10 * Decimal(s) + d
  {
    var s' := s + [DIGITS[d]];
    assert s'[..|s'| - 1] == s;
  }

  lemma {:induction false} DigitsRead(n: nat)
    ensures AllDigits(Digits(n)) && Decimal(Digits(n)) == n
  {
    if n < 10 {
      DecimalSnoc("", n);
      assert "" + [DIGITS[n]] == [DIGITS[n]];
    } else {
      DigitsRead(n / 10);
      DecimalSnoc(Digits(n / 10), n % 10);
    }
  }

  /** Leading zeros change nothing. */
  lemma {:induction false} ZerosChangeNothing(k: nat, s: string)
    requires AllDigits(s)
    ensures AllDigits(Zeros(k) + s) && Decimal(Zeros(k) + s) == Decimal(s)
    decreases |s|, k
  {
    if s == "" {
      assert Zeros(k) + s == Zeros(k);
      if k > 0 {
        assert Zeros(k)[..k - 1] == Zeros(k - 1) && Zeros(k - 1) + "" == Zeros(k - 1);
        ZerosChangeNothing(k - 1, "");
      }
    } else {
      var init := s[..|s| - 1];
      ZerosChangeNothing(k, init);
      assert (Zeros(k) + s)[..k + |s| - 1] == Zeros(k) + init;
    }
  }

  function Pow10(k: nat): nat {
    if k == 0 then 1 else 10 * Pow10(k - 1)
  }

  lemma {:induction false} DigitsLength(n: nat, k: nat)
    requires k > 0 && n < Pow10(k)
    ensures 1 <= |Digits(n)| <= k
  {
    if n >= 10 {
      DigitsLength(n / 10, k - 1);
    }
  }

  lemma BiggestLength(n: nat)
    requires n <= BIGGEST
    ensures 1 <= |Digits(n)| <= 10
  {
    assert Pow10(10) == 10_000_000_000 by {
      assert Pow10(5) == 100_000;
      assert Pow10(10) == 10 * (10 * (10 * (10 * (10 * Pow10(5)))));
    }
    DigitsLength(n, 10);
  }

  /** A numeral of a number, with any leading zeros that leave room in the buffer. */
  lemma NumeralFits(k: nat, n: nat)
    requires k + |Digits(n)| < 64
    ensures IsNumeral(Zeros(k) + Digits(n)) && Decimal(Zeros(k) + Digits(n)) == n
    ensures Fits(Zeros(k) + Digits(n)) <==> n <= BIGGEST
  {
    DigitsRead(n);
    ZerosChangeNothing(k, Digits(n));
    assert |Digits(n)| >= 1;
  }

  lemma NumeralFlushed(d: string)
    requires IsNumeral(d) && |d| < 64
    ensures Flushed(Machine([], d)) ==
            if Decimal(d) <= BIGGEST then Ok(Machine([Operand(Const(Decimal(d)))], "")) else Stop(OutOfRange)
  {
    var x := [Operand(Const(Decimal(d)))];
    assert [] + x == x;
  }

  lemma NumeralAnswered(d: string)
    requires IsNumeral(d) && |d| < 64
    ensures Answer(d) == if Decimal(d) <= BIGGEST then Success(Const(Decimal(d))) else Halted(OutOfRange)
  {
    FedDigits([], "", d);
    assert "" + d == d;
    NumeralFlushed(d);
  }

  /**
   A number that is typed in is answered with itself, and one above the largest `int` makes
   `std::stoi` throw; leading zeros change nothing as long as the buffer holds them.
   */
  lemma NumberIsAnswered(k: nat, n: nat)
    requires k + |Digits(n)| < 64
    ensures n <= 2147483647 ==> Answer(Zeros(k) + Digits(n)) == Success(Const(n))
    ensures n > 2147483647 ==> Answer(Zeros(k) + Digits(n)) == Halted(OutOfRange)
  {
    NumeralFits(k, n);
    NumeralAnswered(Zeros(k) + Digits(n));
  }

  /** In particular every `int` that is not negative is answered. */
  lemma EveryNumberIsAnswered(n: nat)
    requires n <= 2147483647
    ensures Answer(Digits(n)) == Success(Const(n))
  {
    BiggestLength(n);
    NumberIsAnswered(0, n);
    assert Zeros(0) + Digits(n) == Digits(n);
  }

  // ---------- The four operations ----------

  function Written(n: nat): Factor {
    Num(Digits(n))
  }

  lemma WrittenFits(n: nat)
    requires n <= BIGGEST
    ensures FactorFits(Written(n)) && FactorValue(Written(n)) == Const(n)
  {
    BiggestLength(n);
    NumeralFits(0, n);
    assert Zeros(0) + Digits(n) == Digits(n);
  }

  function Operation(f: Factor, op: Op, g: Factor): Expr {
    match op
    case Additive(o) => Sum(Single(One(f)), o, One(g))
    case Multiplicative(o) => Single(Chain(f, o, One(g)))
  }

  lemma OperationIs(f: Factor, op: Op, g: Factor)
    requires FactorFits(f) && FactorFits(g)
    ensures ExprFits(Operation(f, op, g))
    ensures Print(Operation(f, op, g)) == PrintFactor(f) + [Symbol(op)] + PrintFactor(g)
    ensures ExprValue(Operation(f, op, g)) == Apply(op, FactorValue(f), FactorValue(g))
  {
    var first, last := One(f), One(g);
    assert TermFits(first) && PrintTerm(first) == PrintFactor(f) && TermValue(first) == FactorValue(f);
    assert TermFits(last) && PrintTerm(last) == PrintFactor(g) && TermValue(last) == FactorValue(g);
    var left := Single(first);
    assert ExprFits(left) && Print(left) == PrintFactor(f) && ExprValue(left) == FactorValue(f);
    match op
    case Additive(o) =>
      assert Print(Sum(left, o, last)) == Print(left) + [Symbol(op)] + PrintTerm(last);
    case Multiplicative(o) =>
      var t := Chain(f, o, last);
      assert TermFits(t) && PrintTerm(t) == PrintFactor(f) + [Symbol(op)] + PrintTerm(last);
      assert TermValue(t) == Apply(op, FactorValue(f), TermValue(last));
  }

  lemma OperationAnswered(a: nat, op: Op, b: nat)
    requires a <= BIGGEST && b <= BIGGEST
    ensures Answer(Digits(a) + [Symbol(op)] + Digits(b)) == Success(Apply(op, Const(a), Const(b)))
  {
    WrittenFits(a);
    WrittenFits(b);
    OperationIs(Written(a), op, Written(b));
    var e := Operation(Written(a), op, Written(b));
    PrintHasNoBlanks(e);
    SqueezeKeeps(Print(e));
    EvalInvertsPrint(Print(e), e);
  }

  /** What the answer to a text means, if it is one. */
  function AnswerMeans(text: string): Number {
    if Answer(text).Success? then Meaning(Answer(text).value) else Undefined
  }

  lemma OperationMeans(a: nat, op: Op, b: nat)
    requires a <= BIGGEST && b <= BIGGEST
    ensures AnswerMeans(Digits(a) + [Symbol(op)] + Digits(b)) == Arith(op, Real(a as real), Real(b as real))
  {
    OperationAnswered(a, op, b);
    assert Meaning(Const(a)) == Real(a as real) && Meaning(Const(b)) == Real(b as real);
    assert Meaning(Apply(op, Const(a), Const(b))) == Arith(op, Meaning(Const(a)), Meaning(Const(b)));
  }

  lemma SumAnswered(a: nat, b: nat)
    requires a <= BIGGEST && b <= BIGGEST
    ensures AnswerMeans(Digits(a) + "+" + Digits(b)) == Real(a as real + b as real)
  {
    OperationMeans(a, Additive(Plus), b);
    assert [Symbol(Additive(Plus))] == "+";
  }

  lemma DifferenceAnswered(a: nat, b: nat)
    requires a <= BIGGEST && b <= BIGGEST
    ensures AnswerMeans(Digits(a) + "-" + Digits(b)) == Real(a as real - b as real)
  {
    OperationMeans(a, Additive(Minus), b);
    assert [Symbol(Additive(Minus))] == "-";
  }

  lemma ProductAnswered(a: nat, b: nat)
    requires a <= BIGGEST && b <= BIGGEST
    ensures AnswerMeans(Digits(a) + "*" + Digits(b)) == Real(a as real * b as real)
  {
    OperationMeans(a, Multiplicative(Times), b);
    assert [Symbol(Multiplicative(Times))] == "*";
  }

  lemma QuotientAnswered(a: nat, b: nat)
    requires a <= BIGGEST && b <= BIGGEST
    requires b > 0
    ensures AnswerMeans(Digits(a) + "/" + Digits(b)) == Real(a as real / b as real)
  {
    OperationMeans(a, Multiplicative(Over), b);
    assert [Symbol(Multiplicative(Over))] == "/";
  }

  /** The signs mean what they mean in arithmetic. */
  lemma OperationsAnswered(a: nat, b: nat)
    requires a <= 2147483647 && b <= 2147483647
    ensures AnswerMeans(Digits(a) + "+" + Digits(b)) == Real(a as real + b as real)
    ensures AnswerMeans(Digits(a) + "-" + Digits(b)) == Real(a as real - b as real)
    ensures AnswerMeans(Digits(a) + "*" + Digits(b)) == Real(a as real * b as real)
    ensures b > 0 ==> AnswerMeans(Digits(a) + "/" + Digits(b)) == Real(a as real / b as real)
  {
    SumAnswered(a, b);
    DifferenceAnswered(a, b);
    ProductAnswered(a, b);
    if b > 0 {
      QuotientAnswered(a, b);
    }
  }
}
