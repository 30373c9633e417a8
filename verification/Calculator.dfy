/**
 prac/cal.cpp: the shift-reduce calculator, for every string it may be given, well formed or
 not. The functions say what one call does to the stack and the digit buffer; the class is the
 code itself, proved to do just that.
 */
module Calculators {
  import opened Characters
  import opened Expressions

  datatype Elem = Operand(value: Value) | Operator(op: Op) | LeftParen | RightParen

  datatype Token = DigitToken | OperatorToken(op: Op) | LeftToken | RightToken | UnknownToken

  /** Why a call stops before its end. */
  datatype Halt =
    | UnknownSymbol(c: char)   // returned as a failure, line 62
    | OutOfRange               // thrown by std::stoi, line 116
    | NotAnOperand             // thrown, line 141
    | NotAnOperator            // thrown, line 183
    | MissingParen             // thrown, line 160
    | BufferOverrun            // a write past the end of numberBuf, lines 108 and 114
    | NoLeftOperand            // top() of an empty stack, line 153
    | NoResult                 // top() of an empty stack, line 102

  datatype Step<T> = Ok(state: T) | Stop(halt: Halt) {
    predicate IsFailure() { Stop? }
    function PropagateFailure<U>(): Step<U>
      requires Stop?
    {
      Stop(halt)
    }
    function Extract(): T
      requires Ok?
    {
      state
    }
  }

  /** What `eval` gives back when it does return or throw. */
  datatype Outcome = Success(value: Value) | ErrorExpression | Halted(halt: Halt)

  datatype Machine = Machine(stack: seq<Elem>, buf: string)

  function ParseElem(c: char): Token {
    if c == '+' then OperatorToken(Additive(Plus))
    else if c == '-' then OperatorToken(Additive(Minus))
    else if c == '/' then OperatorToken(Multiplicative(Over))
    else if c == '*' then OperatorToken(Multiplicative(Times))
    else if c == '(' then LeftToken
    else if c == ')' then RightToken
    else if IsDigit(c) then DigitToken
    else UnknownToken
  }

  /** The `value` field of any element; only operands ever have it set. */
  function ValueOf(e: Elem): Value {
    if e.Operand? then e.value else Const(0)
  }

  function Buffered(m: Machine, c: char): Step<Machine> {
    if |m.buf| < BUFFER_SIZE then Ok(m.(buf := m.buf + [c])) else Stop(BufferOverrun)
  }

  function Flushed(m: Machine): Step<Machine> {
    if m.buf == "" then Ok(m)
    else if |m.buf| >= BUFFER_SIZE then Stop(BufferOverrun)
    else if !AllDigits(m.buf) || Decimal(m.buf) > INT_MAX then Stop(OutOfRange)
    else Ok(Machine(m.stack + [Operand(Const(Decimal(m.buf)))], ""))
  }

  /** The loop of `evalStack`: reduces from the right, back to the nearest `(`. */
  function Reduce(s: seq<Elem>, parenthing: bool): (r: Step<seq<Elem>>)
    ensures r.Stop? ==> r.halt.NoLeftOperand? || r.halt.NotAnOperand? || r.halt.NotAnOperator? || r.halt.MissingParen?
    decreases |s|
  {
    if |s| <= 1 then (if parenthing then Stop(MissingParen) else Ok(s)) else
    var right, s1 := s[|s| - 1], s[..|s| - 1];
    if right.RightParen? then Reduce(s1, true)
    else if !right.Operand? then Stop(NotAnOperand)
    else
      var opt, s2 := s1[|s1| - 1], s1[..|s1| - 1];
      if opt.LeftParen? then Ok((if parenthing then s2 else s1) + [right])
      else if s2 == [] then Stop(NoLeftOperand)
      else if !opt.Operator? then Stop(NotAnOperator)
      else
        var left, s3 := s2[|s2| - 1], s2[..|s2| - 1];
        Reduce(s3 + [Operand(Apply(opt.op, ValueOf(left), ValueOf(right)))], parenthing)
  }

  /** What `Reduce` has left on the stack where it stops without a result. */
  function Residue(s: seq<Elem>, parenthing: bool): seq<Elem>
    decreases |s|
  {
    if |s| <= 1 then s else
    var right, s1 := s[|s| - 1], s[..|s| - 1];
    if right.RightParen? then Residue(s1, true)
    else if !right.Operand? then s1
    else
      var opt, s2 := s1[|s1| - 1], s1[..|s1| - 1];
      if opt.LeftParen? || s2 == [] then s2
      else
        var left, s3 := s2[|s2| - 1], s2[..|s2| - 1];
        if !opt.Operator? then s3
        else Residue(s3 + [Operand(Apply(opt.op, ValueOf(left), ValueOf(right)))], parenthing)
  }

  function Reduced(s: seq<Elem>): Step<seq<Elem>> {
    if |s| < 3 then Ok(s) else Reduce(s, false)
  }

  /** One turn of the loop of `eval`, on a character that is not blank. */
  function Fed(m: Machine, c: char): Step<Machine> {
    match ParseElem(c)
    case UnknownToken => Stop(UnknownSymbol(c))
    case DigitToken => Buffered(m, c)
    case RightToken =>
      var m1 :- Flushed(m);
      var s :- Reduced(m1.stack + [RightParen]);
      Ok(m1.(stack := s))
    case LeftToken =>
      var m1 :- Flushed(m);
      Ok(m1.(stack := m1.stack + [LeftParen]))
    case OperatorToken(op) =>
      var m1 :- Flushed(m);
      var s :- if op.Additive? then Reduced(m1.stack) else Ok(m1.stack);
      Ok(m1.(stack := s + [Operator(op)]))
  }

  function FedAll(m: Machine, expr: string): Step<Machine>
    decreases |expr|
  {
    if expr == "" then Ok(m)
    else if IsBlank(expr[0]) then FedAll(m, expr[1..])
    else
      var m1 :- Fed(m, expr[0]);
      FedAll(m1, expr[1..])
  }

  /** The end of `eval`, after the last character. */
  function Finish(m: Machine): Outcome {
    match Flushed(m)
    case Stop(h) => Halted(h)
    case Ok(m1) =>
      match Reduced(m1.stack)
      case Stop(h) => Halted(h)
      case Ok(s) =>
        if |s| > 1 then ErrorExpression else if s == [] then Halted(NoResult) else Success(ValueOf(s[0]))
  }

  function AnswerFrom(m: Machine, expr: string): Outcome {
    match FedAll(m, expr)
    case Stop(h) => Halted(h)
    case Ok(m1) => Finish(m1)
  }

  /** The machine as a turn of the loop leaves it that goes no further. */
  function Stopped(m: Machine, c: char): Machine {
    match Flushed(m)
    case Stop(_) => m
    case Ok(m1) =>
      match ParseElem(c)
      case RightToken => m1.(stack := Residue(m1.stack + [RightParen], false))
      case OperatorToken(_) => m1.(stack := Residue(m1.stack, false))
      case _ => m
  }

  /**
   The machine that a call leaves to the next one. Both regular ends clear the stack, an unknown
   symbol clears the stack but not the digits, and an exception clears nothing.
   */
  function Remnant(m: Machine, expr: string): Machine
    decreases |expr|
  {
    if expr == "" then
      match Flushed(m)
      case Stop(_) => m
      case Ok(m1) => m1.(stack := if Reduced(m1.stack).Ok? then [] else Residue(m1.stack, false))
    else if IsBlank(expr[0]) then Remnant(m, expr[1..])
    else
      match Fed(m, expr[0])
      case Ok(m1) => Remnant(m1, expr[1..])
      case Stop(h) => if h.UnknownSymbol? then m.(stack := []) else Stopped(m, expr[0])
  }

  /** A fresh calculator's answer to `expr`. */
  function Answer(expr: string): Outcome {
    AnswerFrom(Machine([], ""), expr)
  }

  // ---------- The code ----------

  class Calculator {
    var elem_stack: seq<Elem>
    const numberBuf: array<char>
    var index: nat

    ghost predicate Valid()
      reads this
    {
      numberBuf.Length == BUFFER_SIZE && index <= BUFFER_SIZE
    }

    ghost function State(): Machine
      requires Valid()
      reads this, numberBuf
    {
      Machine(elem_stack, numberBuf[..index])
    }

    constructor ()
      ensures Valid() && fresh(numberBuf) && State() == Machine([], "")
    {
      elem_stack, numberBuf, index := [], new char[BUFFER_SIZE](_ => '\0'), 0;
    }

    method BufNumber(c: char) returns (halt: Step<()>)
      requires Valid()
      modifies this`index, numberBuf
      ensures Valid()
      ensures halt.Stop? ==> Buffered(old(State()), c) == Stop(halt.halt) && State() == old(State())
      ensures halt.Ok? ==> Buffered(old(State()), c) == Ok(State())
    {
      if index >= BUFFER_SIZE {
        return Stop(BufferOverrun);
      }
      numberBuf[index] := c;
      index := index + 1;
      assert numberBuf[..index] == old(State()).buf + [c];
      return Ok(());
    }

    method EvalNumber() returns (halt: Step<()>)
      requires Valid()
      modifies this`index, this`elem_stack, numberBuf
      ensures Valid()
      ensures halt.Stop? ==> Flushed(old(State())) == Stop(halt.halt) && State() == old(State())
      ensures halt.Ok? ==> Flushed(old(State())) == Ok(State())
    {
      if index > 0 {
        if index >= BUFFER_SIZE {
          return Stop(BufferOverrun);
        }
        numberBuf[index] := '\0';
        var text := numberBuf[..index];
        assert text == old(State()).buf;
        if !AllDigits(text) || Decimal(text) > INT_MAX {
          return Stop(OutOfRange);
        }
        elem_stack := elem_stack + [Operand(Const(Decimal(text)))];
        index := 0;
      }
      return Ok(());
    }

    method EvalStack() returns (halt: Step<()>)
      requires Valid()
      modifies this`elem_stack
      ensures halt.Stop? ==>
                Reduced(old(elem_stack)) == Stop(halt.halt) && elem_stack == Residue(old(elem_stack), false)
      ensures halt.Ok? ==> Reduced(old(elem_stack)) == Ok(elem_stack)
    {
      if |elem_stack| < 3 {
        return Ok(());
      }
      var parenthing := false;
      while |elem_stack| > 1
        invariant Reduce(elem_stack, parenthing) == Reduced(old(elem_stack))
        invariant Residue(elem_stack, parenthing) == Residue(old(elem_stack), false)
        decreases |elem_stack|
      {
        var opt_right := elem_stack[|elem_stack| - 1];
        elem_stack := elem_stack[..|elem_stack| - 1];
        if opt_right.RightParen? {
          parenthing := true;
          continue;
        }
        if !opt_right.Operand? {
          return Stop(NotAnOperand);
        }
        var opt_eval := elem_stack[|elem_stack| - 1];
        if opt_eval.LeftParen? {
          if parenthing {
            elem_stack := elem_stack[..|elem_stack| - 1];
          }
          elem_stack := elem_stack + [opt_right];
          return Ok(());
        }
        elem_stack := elem_stack[..|elem_stack| - 1];
        if elem_stack == [] {
          return Stop(NoLeftOperand);
        }
        var opt_left := elem_stack[|elem_stack| - 1];
        elem_stack := elem_stack[..|elem_stack| - 1];
        if !opt_eval.Operator? {
          return Stop(NotAnOperator);
        }
        elem_stack := elem_stack + [Operand(Apply(opt_eval.op, ValueOf(opt_left), ValueOf(opt_right)))];
      }
      if parenthing {
        return Stop(MissingParen);
      }
      return Ok(());
    }

    /** The body of the loop of `eval` (lines 55-89). */
    method Feed(c: char) returns (halt: Step<()>)
      requires Valid()
      modifies this, numberBuf
      ensures Valid()
      ensures halt.Stop? ==> Fed(old(State()), c) == Stop(halt.halt)
      ensures halt.Stop? ==> State() == if halt.halt.UnknownSymbol? then old(State()) else Stopped(old(State()), c)
      ensures halt.Ok? ==> Fed(old(State()), c) == Ok(State())
    {
      match ParseElem(c) {
        case UnknownToken =>
          halt := Stop(UnknownSymbol(c));
        case DigitToken =>
          halt := BufNumber(c);
        case RightToken =>
          var _ :- EvalNumber();
          elem_stack := elem_stack + [RightParen];
          halt := EvalStack();
        case LeftToken =>
          var _ :- EvalNumber();
          elem_stack := elem_stack + [LeftParen];
          halt := Ok(());
        case OperatorToken(op) =>
          var _ :- EvalNumber();
          if op.Additive? {
            var _ :- EvalStack();
          }
          elem_stack := elem_stack + [Operator(op)];
          halt := Ok(());
      }
    }

    method Eval(expr: string) returns (outcome: Outcome)
      requires Valid()
      modifies this, numberBuf
      ensures Valid() && outcome == AnswerFrom(old(State()), expr)
      ensures State() == Remnant(old(State()), expr)
      ensures outcome.Success? || outcome.ErrorExpression? ==> State() == Machine([], "")
    {
      for i := 0 to |expr|
        invariant Valid() && AnswerFrom(State(), expr[i..]) == AnswerFrom(old(State()), expr)
        invariant Remnant(State(), expr[i..]) == Remnant(old(State()), expr)
      {
        assert expr[i..][1..] == expr[i + 1..];
        if !IsBlank(expr[i]) {
          var halt := Feed(expr[i]);
          if halt.Stop? {
            if halt.halt.UnknownSymbol? {
              elem_stack := [];
            }
            return Halted(halt.halt);
          }
        }
      }
      var halt := EvalNumber();
      if halt.Stop? {
        return Halted(halt.halt);
      }
      halt := EvalStack();
      if halt.Stop? {
        return Halted(halt.halt);
      }
      if |elem_stack| > 1 {
        elem_stack := [];
        return ErrorExpression;
      }
      if elem_stack == [] {
        return Halted(NoResult);
      }
      outcome := Success(ValueOf(elem_stack[|elem_stack| - 1]));
      elem_stack := elem_stack[..|elem_stack| - 1];
    }
  }
}
