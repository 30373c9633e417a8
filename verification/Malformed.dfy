/**
 What the calculator of prac/cal.cpp does with texts outside the grammar: when exactly it throws,
 when exactly it reads the top of an empty stack, and what a call that ends badly leaves to the
 next one.
 */
module Malformed {
  import opened Characters
  import opened Expressions
  import opened Calculators
  import opened Parsing

  // ---------- The reduction in closed form ----------

  /** The stack without the closing parentheses on top. */
  function Trimmed(s: seq<Elem>): (t: seq<Elem>)
    ensures |t| <= |s| && (t != [] ==> !t[|t| - 1].RightParen?)
  {
    if s != [] && s[|s| - 1].RightParen? then Trimmed(s[..|s| - 1]) else s
  }

  /** The places where the reduction, coming from the top, looks for an operator: every second one. */
  predicate OperatorPlace(t: seq<Elem>, i: int) {
    0 <= i <= |t| - 2 && (|t| - i) % 2 == 0
  }

  /** Above place `j` every operator place holds an operator. */
  ghost predicate OperatorsAbove(t: seq<Elem>, j: int) {
    forall i :: OperatorPlace(t, i) && i > j ==> t[i].Operator?
  }

  predicate OperandOnTop(t: seq<Elem>) {
    |t| >= 2 && t[|t| - 1].Operand?
  }

  /** The reduction runs out of elements: an even number, operators between, no `(` at the bottom. */
  ghost predicate Underflows(t: seq<Elem>) {
    OperandOnTop(t) && |t| % 2 == 0 && OperatorsAbove(t, 0) && !t[0].LeftParen?
  }

  /** Coming from the top, the first thing at an operator place that is no operator is at `j`. */
  ghost predicate Meets(t: seq<Elem>, j: int) {
    OperandOnTop(t) && OperatorPlace(t, j) && OperatorsAbove(t, j) && !t[j].Operator?
  }

  /** What `Reduce` comes to on a stack without closing parentheses on top. */
  ghost predicate ReducesTo(t: seq<Elem>, parenthing: bool, r: Step<seq<Elem>>) {
    && (r == Stop(NoLeftOperand) <==> Underflows(t))
    && (r == Stop(NotAnOperand) <==> |t| >= 2 && !t[|t| - 1].Operand?)
    && (r == Stop(NotAnOperator) <==> exists j :: j > 0 && Meets(t, j) && !t[j].LeftParen?)
    && (r == Stop(MissingParen) <==>
        parenthing && (|t| <= 1 || (OperandOnTop(t) && |t| % 2 == 1 && OperatorsAbove(t, -1))))
    && (r.Ok? && |r.state| == 1 <==>
        if parenthing then Meets(t, 0) && t[0].LeftParen?
        else |t| == 1 || (OperandOnTop(t) && |t| % 2 == 1 && OperatorsAbove(t, -1)))
  }

  /** The stack after one operation. */
  function Applied(t: seq<Elem>): seq<Elem>
    requires OperandOnTop(t) && |t| >= 3 && t[|t| - 2].Operator?
  {
    t[..|t| - 3] + [Operand(Apply(t[|t| - 2].op, ValueOf(t[|t| - 3]), ValueOf(t[|t| - 1])))]
  }

  lemma AppliedReduces(t: seq<Elem>, parenthing: bool)
    requires OperandOnTop(t) && |t| >= 3 && t[|t| - 2].Operator?
    ensures Reduce(t, parenthing) == Reduce(Applied(t), parenthing)
  {
    var s1 := t[..|t| - 1];
    var s2 := s1[..|s1| - 1];
    assert s2[..|s2| - 1] == t[..|t| - 3];
  }

  /** One operation keeps the operator places, but for the one it uses. */
  lemma AppliedPlaces(t: seq<Elem>, j: int)
    requires OperandOnTop(t) && |t| >= 3 && t[|t| - 2].Operator?
    ensures var t' := Applied(t);
            && |t'| == |t| - 2
            && (OperatorsAbove(t', j) <==> OperatorsAbove(t, j))
            && (j < |t| - 3 && |t| >= 4 ==> (Meets(t', j) <==> Meets(t, j)))
  {
    var t' := Applied(t);
    forall i
      ensures OperatorPlace(t, i) <==> OperatorPlace(t', i) || i == |t| - 2
      ensures OperatorPlace(t', i) ==> t'[i] == t[i]
    {
      assert (|t| - i) % 2 == (|t'| - i) % 2;
    }
  }

  lemma {:induction false} ReduceTop(t: seq<Elem>, parenthing: bool)
    requires t != [] ==> !t[|t| - 1].RightParen?
    ensures ReducesTo(t, parenthing, Reduce(t, parenthing))
    decreases |t|
  {
    var r := Reduce(t, parenthing);
    if OperandOnTop(t) {
      var opt := t[|t| - 2];
      assert t[..|t| - 1][|t| - 2] == opt;
      assert OperatorPlace(t, |t| - 2);
      if opt.Operator? && |t| >= 3 {
        ReduceTop(Applied(t), parenthing);
        AppliedReduces(t, parenthing);
        AppliedKeeps(t, parenthing, r);
      } else if opt.Operator? || opt.LeftParen? || |t| == 2 {
        assert !exists j :: j > 0 && Meets(t, j) && !t[j].LeftParen?;
      } else {
        assert Meets(t, |t| - 2);
      }
    }
  }

  lemma AppliedKeeps(t: seq<Elem>, parenthing: bool, r: Step<seq<Elem>>)
    requires OperandOnTop(t) && |t| >= 3 && t[|t| - 2].Operator?
    requires ReducesTo(Applied(t), parenthing, r)
    ensures ReducesTo(t, parenthing, r)
  {
    var t' := Applied(t);
    AppliedPlaces(t, 0);
    AppliedPlaces(t, -1);
    forall j | j > 0
      ensures Meets(t, j) && !t[j].LeftParen? <==> Meets(t', j) && !t'[j].LeftParen?
    {
      if Meets(t, j) || Meets(t', j) {
        AppliedPlaces(t, j);
      }
    }
  }

  /** The same for any stack: closing parentheses on top are taken first. */
  lemma {:induction false} ReduceExactly(s: seq<Elem>, parenthing: bool)
    requires |s| >= 2
    ensures ReducesTo(Trimmed(s), parenthing || |Trimmed(s)| < |s|, Reduce(s, parenthing))
    decreases |s|
  {
    if s[|s| - 1].RightParen? {
      if |s| > 2 {
        ReduceExactly(s[..|s| - 1], true);
      } else {
        ReduceTop(Trimmed(s[..1]), true);
      }
    } else {
      ReduceTop(s, parenthing);
    }
  }

  // ---------- The same about texts ----------

  const FRESH := Machine([], "")

  predicate Reducing(c: char) {
    c == '+' || c == '-' || c == ')'
  }

  /** The characters, or the end of the text, at which `evalStack` is called. */
  predicate CallsEvalStack(text: string, i: nat) {
    i == |text| || (i < |text| && Reducing(text[i]))
  }

  /** The stack `evalStack` is given there, when the text before it has been read and flushed to `m`. */
  function Given(m: Machine, text: string, i: nat): seq<Elem> {
    if i < |text| && text[i] == ')' then m.stack + [RightParen] else m.stack
  }

  /** At place `i` of the text, `evalStack` is called on some stack. */
  predicate ReducesAt(m: Machine, text: string, i: nat) {
    && i <= |text| && CallsEvalStack(text, i)
    && FedAll(m, text[..i]).Ok? && Flushed(FedAll(m, text[..i]).state).Ok?
  }

  /** The stack it is called on. */
  function StackAt(m: Machine, text: string, i: nat): seq<Elem>
    requires ReducesAt(m, text, i)
  {
    Given(Flushed(FedAll(m, text[..i]).state).state, text, i)
  }

  ghost predicate HaltsAt(m: Machine, text: string, i: nat, h: Halt) {
    ReducesAt(m, text, i) && Reduced(StackAt(m, text, i)) == Stop(h)
  }

  predicate ReductionHalt(h: Halt) {
    h.NoLeftOperand? || h.NotAnOperand? || h.NotAnOperator? || h.MissingParen?
  }

  /** The call stops at place `i` of the text: at that character, or at the end. */
  predicate StopsAt(m: Machine, text: string, i: nat, h: Halt) {
    && i <= |text| && FedAll(m, text[..i]).Ok?
    && var m' := FedAll(m, text[..i]).state;
       if i == |text| then Finish(m') == Halted(h) else !IsBlank(text[i]) && Fed(m', text[i]) == Stop(h)
  }

  lemma SplitAt(m: Machine, text: string, i: nat)
    requires i <= |text| && FedAll(m, text[..i]).Ok?
    ensures FedAll(m, text) == FedAll(FedAll(m, text[..i]).state, text[i..])
    ensures Remnant(m, text) == Remnant(FedAll(m, text[..i]).state, text[i..])
  {
    assert text[..i] + text[i..] == text;
    FedAllConcat(m, text[..i], text[i..]);
    RemnantConcat(m, text[..i], text[i..]);
  }

  lemma StopsLater(m: Machine, text: string, i: nat, h: Halt, m': Machine)
    requires text != "" && (if IsBlank(text[0]) then m' == m else Fed(m, text[0]) == Ok(m'))
    requires StopsAt(m', text[1..], i, h)
    ensures StopsAt(m, text, i + 1, h)
  {
    assert text[..i + 1][0] == text[0] && text[..i + 1][1..] == text[1..][..i];
  }

  lemma {:induction false} StopPlace(m: Machine, text: string, h: Halt) returns (i: nat)
    requires AnswerFrom(m, text) == Halted(h)
    ensures StopsAt(m, text, i, h)
    decreases |text|
  {
    assert text[..0] == "";
    i := 0;
    if text != "" {
      if IsBlank(text[0]) {
        i := StopPlace(m, text[1..], h);
        StopsLater(m, text, i, h, m);
        i := i + 1;
      } else if Fed(m, text[0]).Ok? {
        i := StopPlace(Fed(m, text[0]).state, text[1..], h);
        StopsLater(m, text, i, h, Fed(m, text[0]).state);
        i := i + 1;
      }
    }
  }

  /** A call stops if and only if it stops at some place of its text. */
  lemma StopsExactly(m: Machine, text: string, h: Halt)
    ensures AnswerFrom(m, text) == Halted(h) <==> exists i: nat :: StopsAt(m, text, i, h)
  {
    if AnswerFrom(m, text) == Halted(h) {
      var i := StopPlace(m, text, h);
    }
    if i: nat :| StopsAt(m, text, i, h) {
      SplitAt(m, text, i);
    }
  }

  lemma TurnReduces(m: Machine, c: char, s: seq<Elem>)
    requires Reducing(c) && Flushed(m).Ok?
    requires s == if c == ')' then Flushed(m).state.stack + [RightParen] else Flushed(m).state.stack
    ensures Fed(m, c).Stop? <==> Reduced(s).Stop?
    ensures Reduced(s).Stop? ==> Fed(m, c).halt == Reduced(s).halt
  {
    assert ParseElem(c) == if c == ')' then RightToken else OperatorToken(Additive(if c == '+' then Plus else Minus));
  }

  lemma FlushingHalts(m: Machine, h: Halt)
    requires ReductionHalt(h)
    ensures Flushed(m) != Stop(h)
  {
  }

  lemma OtherTurns(m: Machine, c: char, h: Halt)
    requires ReductionHalt(h) && (Reducing(c) ==> Flushed(m).Stop?)
    ensures Fed(m, c) != Stop(h)
  {
    FlushingHalts(m, h);
  }

  /** Stopping in a reduction is having the stack of that place stop the reduction. */
  lemma HaltsIsStops(m: Machine, text: string, i: nat, h: Halt)
    requires ReductionHalt(h)
    ensures HaltsAt(m, text, i, h) <==> StopsAt(m, text, i, h)
  {
    if i < |text| && FedAll(m, text[..i]).Ok? {
      var m', c := FedAll(m, text[..i]).state, text[i];
      if Reducing(c) && Flushed(m').Ok? {
        TurnReduces(m', c, StackAt(m, text, i));
      } else {
        OtherTurns(m', c, h);
      }
    } else if i == |text| && FedAll(m, text).Ok? {
      assert text[..i] == text;
      FlushingHalts(FedAll(m, text).state, h);
    }
  }

  /** A call stops in a reduction exactly when the reduction at some place of the text stops. */
  lemma HaltsExactly(m: Machine, text: string, h: Halt)
    requires ReductionHalt(h)
    ensures AnswerFrom(m, text) == Halted(h) <==> exists i: nat :: HaltsAt(m, text, i, h)
  {
    StopsExactly(m, text, h);
    forall i: nat {
      HaltsIsStops(m, text, i, h);
    }
  }

  lemma {:induction false} RemnantConcat(m: Machine, a: string, b: string)
    requires FedAll(m, a).Ok?
    ensures Remnant(m, a + b) == Remnant(FedAll(m, a).state, b)
    decreases |a|
  {
    if a == "" {
      assert a + b == b;
    } else {
      assert (a + b)[1..] == a[1..] + b;
      RemnantConcat(if IsBlank(a[0]) then m else Fed(m, a[0]).state, a[1..], b);
    }
  }

  // ---------- Reading the top of an empty stack ----------

  /** The stack from which no operand is left for the last operator (line 153). */
  ghost predicate RunsDry(s: seq<Elem>) {
    |s| >= 3 && Underflows(Trimmed(s))
  }

  /** Line 153 reads an empty stack exactly when, somewhere in the text, it is given such a stack. */
  lemma LeftOperandMissingExactly(text: string)
    ensures Answer(text) == Halted(NoLeftOperand) <==>
            exists i: nat :: ReducesAt(FRESH, text, i) && RunsDry(StackAt(FRESH, text, i))
  {
    HaltsExactly(FRESH, text, NoLeftOperand);
    forall i: nat | ReducesAt(FRESH, text, i)
      ensures HaltsAt(FRESH, text, i, NoLeftOperand) <==> RunsDry(StackAt(FRESH, text, i))
    {
      var s := StackAt(FRESH, text, i);
      if |s| >= 3 {
        ReduceExactly(s, false);
      }
    }
  }

  /** The machine has something on the stack or in the buffer. */
  predicate Occupied(m: Machine) {
    m.stack != [] || m.buf != ""
  }

  lemma {:induction false} ReduceLeavesSome(s: seq<Elem>, parenthing: bool)
    requires s != []
    ensures Reduce(s, parenthing).Ok? ==> Reduce(s, parenthing).state != []
    decreases |s|
  {
    if |s| >= 2 {
      var right, s1 := s[|s| - 1], s[..|s| - 1];
      if right.RightParen? {
        ReduceLeavesSome(s1, true);
      } else if right.Operand? && s1[|s1| - 1].Operator? && |s1| >= 2 {
        AppliedReduces(s, parenthing);
        ReduceLeavesSome(Applied(s), parenthing);
      }
    }
  }

  lemma FedOccupies(m: Machine, c: char)
    ensures Fed(m, c).Ok? ==> Occupied(Fed(m, c).state)
  {
    if Flushed(m).Ok? {
      var s := Flushed(m).state.stack;
      ReduceLeavesSome(s + [RightParen], false);
    }
  }

  lemma {:induction false} StaysOccupied(m: Machine, text: string)
    ensures FedAll(m, text).Ok? && (Occupied(m) || Squeeze(text) != "") ==> Occupied(FedAll(m, text).state)
    decreases |text|
  {
    if text != "" {
      if IsBlank(text[0]) {
        StaysOccupied(m, text[1..]);
      } else if Fed(m, text[0]).Ok? {
        FedOccupies(m, text[0]);
        StaysOccupied(Fed(m, text[0]).state, text[1..]);
      }
    }
  }

  lemma FinishOccupied(m: Machine)
    ensures Finish(m) == Halted(NoResult) <==> !Occupied(m)
  {
    if Occupied(m) && Flushed(m).Ok? {
      ReduceLeavesSome(Flushed(m).state.stack, false);
    }
  }

  /** Line 102 reads an empty stack exactly for the texts in which there is nothing but blanks. */
  lemma ResultMissingExactly(text: string)
    ensures Answer(text) == Halted(NoResult) <==> Squeeze(text) == ""
  {
    FedAllSqueeze(FRESH, text);
    StaysOccupied(FRESH, text);
    if FedAll(FRESH, text).Ok? {
      FinishOccupied(FedAll(FRESH, text).state);
    }
    FedNeverMissesResult(FRESH, text);
  }

  lemma {:induction false} FedNeverMissesResult(m: Machine, text: string)
    ensures FedAll(m, text) != Stop(NoResult)
    decreases |text|
  {
    if text != "" {
      if IsBlank(text[0]) {
        FedNeverMissesResult(m, text[1..]);
      } else if Fed(m, text[0]).Ok? {
        FedNeverMissesResult(Fed(m, text[0]).state, text[1..]);
      }
    }
  }

  /** The stacks that the end of the text turns into one element, the answer. */
  ghost predicate LeavesOne(s: seq<Elem>) {
    var t := Trimmed(s);
    |s| == 1 ||
    (|s| >= 3 &&
     if |t| < |s| then Meets(t, 0) && t[0].LeftParen?
     else OperandOnTop(t) && |t| % 2 == 1 && OperatorsAbove(t, -1))
  }

  /** A text is answered exactly when it is read to its end and leaves such a stack, be it an expression or not. */
  lemma AnsweredExactlyWhen(text: string)
    ensures Answer(text).Success? <==>
            FedAll(FRESH, text).Ok? && Flushed(FedAll(FRESH, text).state).Ok? &&
            LeavesOne(Flushed(FedAll(FRESH, text).state).state.stack)
  {
    if FedAll(FRESH, text).Ok? && Flushed(FedAll(FRESH, text).state).Ok? {
      var s := Flushed(FedAll(FRESH, text).state).state.stack;
      if |s| >= 3 {
        ReduceExactly(s, false);
        ReduceLeavesSome(s, false);
      }
    }
  }

  // ---------- Numerals and unknown symbols ----------

  /** The digits at the end of a text. */
  function TrailingDigits(s: string): (d: string)
    ensures AllDigits(d)
  {
    if s == "" || !IsDigit(s[|s| - 1]) then "" else TrailingDigits(s[..|s| - 1]) + [s[|s| - 1]]
  }

  lemma {:induction false} SqueezeSnoc(s: string, c: char)
    ensures Squeeze(s + [c]) == if IsBlank(c) then Squeeze(s) else Squeeze(s) + [c]
  {
    if s == "" {
      assert s + [c] == [c] && [c][1..] == "";
    } else {
      assert (s + [c])[1..] == s[1..] + [c];
      SqueezeSnoc(s[1..], c);
    }
  }

  lemma FedBuffer(m: Machine, c: char)
    ensures Fed(m, c).Ok? ==> Fed(m, c).state.buf == if IsDigit(c) then m.buf + [c] else ""
  {
  }

  /** What the buffer holds after reading a text: the digits it ends with, blanks apart. */
  lemma {:induction false} BufferIs(text: string)
    requires FedAll(FRESH, text).Ok?
    ensures FedAll(FRESH, text).state.buf == TrailingDigits(Squeeze(text))
  {
    if text != "" {
      var before, c := text[..|text| - 1], text[|text| - 1];
      assert before + [c] == text;
      FedAllConcat(FRESH, before, [c]);
      BufferIs(before);
      SqueezeSnoc(before, c);
      var m := FedAll(FRESH, before).state;
      if !IsBlank(c) {
        FedOne(m, c);
        FedBuffer(m, c);
        assert (Squeeze(before) + [c])[..|Squeeze(before)|] == Squeeze(before);
      } else {
        assert FedAll(m, [c]) == FedAll(m, [c][1..]) == Ok(m);
      }
    }
  }

  /** The digits before place `i`, when everything before it can be read. */
  function RunAt(text: string, i: nat): string
    requires i <= |text|
  {
    TrailingDigits(Squeeze(text[..i]))
  }

  predicate ReadTo(text: string, i: nat) {
    i <= |text| && FedAll(FRESH, text[..i]).Ok?
  }

  /** The end of the text, or a character that is part of the notation. */
  predicate Known(text: string, i: nat) {
    i == |text| || (i < |text| && !IsBlank(text[i]) && !ParseElem(text[i]).UnknownToken?)
  }

  lemma OverrunTurn(m: Machine, c: char)
    ensures Fed(m, c) == Stop(BufferOverrun) <==> |m.buf| >= BUFFER_SIZE && !ParseElem(c).UnknownToken?
  {
  }

  lemma OverrunEnd(m: Machine)
    ensures Finish(m) == Halted(BufferOverrun) <==> |m.buf| >= BUFFER_SIZE
  {
  }

  ghost predicate OverrunsAt(text: string, i: nat) {
    ReadTo(text, i) && |RunAt(text, i)| >= 64 && Known(text, i)
  }

  lemma OverrunPlace(text: string, i: nat)
    ensures StopsAt(FRESH, text, i, BufferOverrun) <==> OverrunsAt(text, i)
  {
    if ReadTo(text, i) {
      var m := FedAll(FRESH, text[..i]).state;
      BufferIs(text[..i]);
      if i == |text| {
        OverrunEnd(m);
      } else {
        OverrunTurn(m, text[i]);
      }
    }
  }

  /**
   A text makes the code write past `numberBuf` if and only if, before anything else stops it, it
   has read sixty-four digits in a row and then comes to its end or to anything but an unknown symbol.
   */
  lemma BufferOverrunExactly(text: string)
    ensures Answer(text) == Halted(BufferOverrun) <==> exists i: nat :: OverrunsAt(text, i)
  {
    StopsExactly(FRESH, text, BufferOverrun);
    forall i: nat {
      OverrunPlace(text, i);
    }
  }

  lemma RangeTurn(m: Machine, c: char)
    requires AllDigits(m.buf)
    ensures Fed(m, c) == Stop(OutOfRange) <==>
            0 < |m.buf| < BUFFER_SIZE && Decimal(m.buf) > INT_MAX && IsSymbol(c)
  {
  }

  lemma RangeEnd(m: Machine)
    requires AllDigits(m.buf)
    ensures Finish(m) == Halted(OutOfRange) <==> 0 < |m.buf| < BUFFER_SIZE && Decimal(m.buf) > INT_MAX
  {
  }

  ghost predicate OutOfRangeAt(text: string, i: nat) {
    && ReadTo(text, i) && 0 < |RunAt(text, i)| < 64 && Decimal(RunAt(text, i)) > 2147483647
    && (i == |text| || IsSymbol(text[i]))
  }

  lemma OutOfRangePlace(text: string, i: nat)
    ensures StopsAt(FRESH, text, i, OutOfRange) <==> OutOfRangeAt(text, i)
  {
    if ReadTo(text, i) {
      var m := FedAll(FRESH, text[..i]).state;
      BufferIs(text[..i]);
      if i == |text| {
        RangeEnd(m);
      } else {
        RangeTurn(m, text[i]);
      }
    }
  }

  /** And `std::stoi` throws if and only if a shorter run that is too large comes to the end or to a symbol. */
  lemma OutOfRangeExactly(text: string)
    ensures Answer(text) == Halted(OutOfRange) <==> exists i: nat :: OutOfRangeAt(text, i)
  {
    StopsExactly(FRESH, text, OutOfRange);
    forall i: nat {
      OutOfRangePlace(text, i);
    }
  }

  /** An unknown symbol is reported if and only if everything before it can be read. */
  lemma UnknownSymbolExactly(text: string, c: char)
    ensures Answer(text) == Halted(UnknownSymbol(c)) <==>
            exists i: nat :: ReadTo(text, i) && i < |text| && text[i] == c && !Known(text, i) && !IsBlank(c)
  {
    StopsExactly(FRESH, text, UnknownSymbol(c));
    forall i: nat | ReadTo(text, i)
      ensures StopsAt(FRESH, text, i, UnknownSymbol(c)) <==>
              i < |text| && text[i] == c && !Known(text, i) && !IsBlank(c)
    {
      if i < |text| {
        UnknownTurn(FedAll(FRESH, text[..i]).state, text[i], c);
      }
    }
  }

  lemma UnknownTurn(m: Machine, c: char, c': char)
    ensures Fed(m, c) == Stop(UnknownSymbol(c')) <==> ParseElem(c).UnknownToken? && c == c'
  {
  }

  // ---------- Signs ----------

  /** Reading `text` on stack `s` runs dry, at the latest in the next reduction. */
  predicate Dry(s: seq<Elem>, text: string) {
    match FedAll(Machine(s, ""), text)
    case Stop(h) => h == NoLeftOperand
    case Ok(m) => Flushed(m).Ok? && Reduced(Flushed(m).state.stack) == Stop(NoLeftOperand)
  }

  lemma DryGoesOn(s: seq<Elem>, a: string, op: AddOp, b: string)
    requires Dry(s, a)
    ensures Dry(s, a + [Symbol(Additive(op))] + b)
  {
    var c := Symbol(Additive(op));
    FedAllConcat(Machine(s, ""), a, [c]);
    FedAllConcat(Machine(s, ""), a + [c], b);
    if FedAll(Machine(s, ""), a).Ok? {
      var m := FedAll(Machine(s, ""), a).state;
      FedOne(m, c);
      TurnReduces(m, c, Flushed(m).state.stack);
    }
  }

  predicate SingleFactor(e: Expr) {
    e.Single? && e.t.One?
  }

  /** A chain on top of a lone operator, or of an operator and one more sum, leaves an operand too few. */
  lemma SignUnderflows(op: Op, e: Expr)
    requires !SingleFactor(e) && (e.Sum? ==> SingleFactor(e.e))
    ensures Reduced([Operator(op)] + Pending(e)) == Stop(NoLeftOperand)
  {
    var sign := [Operator(op)];
    match e
    case Single(t) =>
      ReduceTerm(sign, t, false);
    case Sum(e', op', t) =>
      var left := Operand(ExprValue(e'));
      assert sign + Pending(e) == sign + [left, Operator(Additive(op'))] + PendingTerm(t);
      ReduceTerm(sign + [left, Operator(Additive(op'))], t, false);
      ReduceOne(sign, left, Additive(op'), TermValue(t), false);
  }

  /** Behind a sign, everything but a single factor runs dry. */
  lemma {:induction false} SignRunsDry(op: Op, e: Expr)
    requires ExprFits(e) && !SingleFactor(e)
    ensures Dry([Operator(op)], Print(e))
    decreases e
  {
    var sign := [Operator(op)];
    match e
    case Single(t) =>
      ReadsTerm(sign, t);
      SignUnderflows(op, e);
    case Sum(e', op', t) =>
      if SingleFactor(e') {
        SignedFactorAndTerm(op, e', op', t);
        SignUnderflows(op, e);
      } else {
        SignRunsDry(op, e');
        DryGoesOn(sign, Print(e'), op', PrintTerm(t));
      }
  }

  /** Two elements are not reduced (line 129), so the sign still stands below the sum. */
  lemma SignedFactorAndTerm(op: Op, e: Expr, op': AddOp, t: Term)
    requires SingleFactor(e) && ExprFits(e) && TermFits(t)
    ensures Reads([Operator(op)], Print(Sum(e, op', t)), [Operator(op)] + Pending(Sum(e, op', t)))
  {
    var s := [Operator(op)];
    var s1 := s + Pending(e);
    var s2 := s1 + [Operator(Additive(op'))];
    assert Pending(e) == [Operand(ExprValue(e))];
    ReadsTerm(s, e.t);
    ReadsTerm(s2, t);
    ReadsAcross(s, Print(e), Symbol(Additive(op')), PrintTerm(t), s1, s2, s2 + PendingTerm(t));
    assert s2 + PendingTerm(t) == s + Pending(Sum(e, op', t));
  }

  lemma SymbolFirst(s: seq<Elem>, op: Op, text: string)
    requires Reduced(s) == Ok(s)
    ensures FedAll(Machine(s, ""), [Symbol(op)] + text) == FedAll(Machine(s + [Operator(op)], ""), text)
  {
    FedAllConcat(Machine(s, ""), [Symbol(op)], text);
    FedOne(Machine(s, ""), Symbol(op));
    assert Fed(Machine(s, ""), Symbol(op)) == Ok(Machine(s + [Operator(op)], ""));
  }

  /** A sign before an expression is an error before a single factor and reads an empty stack before any other. */
  lemma SignedExpression(op: Op, e: Expr)
    requires ExprFits(e)
    ensures Answer([Symbol(op)] + Print(e)) == if SingleFactor(e) then ErrorExpression else Halted(NoLeftOperand)
  {
    SymbolFirst([], op, Print(e));
    assert [] + [Operator(op)] == [Operator(op)];
    if SingleFactor(e) {
      ReadsTerm([Operator(op)], e.t);
    } else {
      SignRunsDry(op, e);
    }
  }

  lemma DoubledUnderflows(v: Elem, op: Op, sign: Op, w: Value)
    ensures Reduced([v] + [Operator(op)] + [Operator(sign)] + [Operand(w)]) == Stop(NoLeftOperand) <==> !v.LeftParen?
  {
    var whole := [v] + [Operator(op)] + [Operator(sign)] + [Operand(w)];
    assert whole == [v] + [Operator(op), Operator(sign)] + [Operand(w)];
    ReduceOne([v], Operator(op), sign, w, false);
  }

  /** A second operator before a factor, as in "2*-3", reads an empty stack. */
  lemma DoubledOperator(f: Factor, op: Op, sign: Op, g: Factor)
    requires FactorFits(f) && FactorFits(g)
    ensures Answer(PrintFactor(f) + [Symbol(op)] + ([Symbol(sign)] + PrintFactor(g))) == Halted(NoLeftOperand)
  {
    var v := Operand(FactorValue(f));
    var s1 := [v] + [Operator(op)];
    ReadsFactor([], f);
    assert [] + [v] == [v];
    ReadsThenSymbol([], PrintFactor(f), Symbol(op), [v], s1);
    FedAllConcat(FRESH, PrintFactor(f) + [Symbol(op)], [Symbol(sign)] + PrintFactor(g));
    SymbolFirst(s1, sign, PrintFactor(g));
    ReadsFactor(s1 + [Operator(sign)], g);
    DoubledUnderflows(v, op, sign, FactorValue(g));
  }

  /** A sign behind an open parenthesis makes an answer; closing the parenthesis makes an exception. */
  lemma SignInParens(op: Op, f: Factor)
    requires FactorFits(f)
    ensures Answer("(" + ([Symbol(op)] + PrintFactor(f))) == Success(Apply(op, Const(0), FactorValue(f)))
    ensures var text := "(" + ([Symbol(op)] + PrintFactor(f)) + ")";
            && Answer(text) == Halted(MissingParen)
            && Remnant(FRESH, text) == Machine([Operand(Apply(op, Const(0), FactorValue(f)))], "")
  {
    var s := [LeftParen] + [Operator(op)] + [Operand(FactorValue(f))];
    OpenSignReads(op, f, s);
    OpenSignReduces(op, FactorValue(f));
    ClosedSignThrows(op, f, s);
  }

  lemma OpenSignReduces(op: Op, v: Value)
    ensures Reduced([LeftParen] + [Operator(op)] + [Operand(v)]) == Ok([Operand(Apply(op, Const(0), v))])
  {
    var x := Operand(Apply(op, Const(0), v));
    assert [LeftParen] + [Operator(op)] + [Operand(v)] == [] + [LeftParen, Operator(op)] + [Operand(v)];
    ReduceOne([], LeftParen, op, v, false);
    assert [] + [x] == [x];
  }

  lemma OpenSignReads(op: Op, f: Factor, s: seq<Elem>)
    requires FactorFits(f) && s == [LeftParen] + [Operator(op)] + [Operand(FactorValue(f))]
    ensures Reads([], "(" + ([Symbol(op)] + PrintFactor(f)), s)
  {
    var text := [Symbol(op)] + PrintFactor(f);
    FedOne(FRESH, '(');
    assert Fed(FRESH, '(') == Ok(Machine([] + [LeftParen], "")) && [] + [LeftParen] == [LeftParen];
    FedAllConcat(FRESH, "(", text);
    SymbolFirst([LeftParen], op, PrintFactor(f));
    ReadsFactor([LeftParen] + [Operator(op)], f);
  }

  lemma ClosedSignThrows(op: Op, f: Factor, s: seq<Elem>)
    requires FactorFits(f) && s == [LeftParen] + [Operator(op)] + [Operand(FactorValue(f))]
    requires Reads([], "(" + ([Symbol(op)] + PrintFactor(f)), s)
    ensures var text := "(" + ([Symbol(op)] + PrintFactor(f)) + ")";
            && Answer(text) == Halted(MissingParen)
            && Remnant(FRESH, text) == Machine([Operand(Apply(op, Const(0), FactorValue(f)))], "")
  {
    var open := "(" + ([Symbol(op)] + PrintFactor(f));
    var m := FedAll(FRESH, open).state;
    FedAllConcat(FRESH, open, ")");
    FedOne(m, ')');
    RemnantConcat(FRESH, open, ")");
    ClosedSignReduces(op, FactorValue(f));
    assert s + [RightParen] == [LeftParen, Operator(op), Operand(FactorValue(f))] + [RightParen];
    assert Fed(m, ')') == Stop(MissingParen);
    assert Stopped(m, ')').stack == Residue(s + [RightParen], false);
  }

  lemma ClosedSignReduces(op: Op, v: Value)
    ensures var s := [LeftParen, Operator(op), Operand(v)] + [RightParen];
            Reduced(s) == Stop(MissingParen) && Residue(s, false) == [Operand(Apply(op, Const(0), v))]
  {
    var s := [LeftParen, Operator(op), Operand(v)];
    assert (s + [RightParen])[..3] == s && s[..2] == [LeftParen, Operator(op)];
    assert [LeftParen, Operator(op)][..1] == [LeftParen] && [LeftParen][..0] == [];
    var x := Operand(Apply(op, Const(0), v));
    assert [] + [x] == [x];
    assert Reduce(s, true) == Reduce([x], true) && Residue(s, true) == Residue([x], true);
  }

  /** A lone operator is answered with zero. */
  lemma LoneOperator(op: Op)
    ensures Answer([Symbol(op)]) == Success(Const(0))
  {
    SymbolFirst([], op, "");
    assert [Symbol(op)] + "" == [Symbol(op)] && [] + [Operator(op)] == [Operator(op)];
  }

  lemma MalformedExamples()
    ensures Answer("2*-3") == Halted(NoLeftOperand) && Answer("-1+2") == Halted(NoLeftOperand)
    ensures Answer("-1") == ErrorExpression && Answer("(-1").Success? && Answer("(-1)") == Halted(MissingParen)
  {
    var one, two, minus := Num("1"), Num("2"), Additive(Minus);
    assert "1"[..0] == "" && "2"[..0] == "" && "3"[..0] == "";
    DoubledOperator(two, Multiplicative(Times), minus, Num("3"));
    assert "2" + "*" + ("-" + "3") == "2*-3";
    SignedExpression(minus, Sum(Single(One(one)), Plus, One(two)));
    assert "-" + ("1" + "+" + "2") == "-1+2";
    SignedExpression(minus, Single(One(one)));
    SignInParens(minus, one);
    assert "-" + "1" == "-1" && "(" + "-1" == "(-1" && "(-1" + ")" == "(-1)";
  }
}
