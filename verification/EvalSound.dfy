/** What the evaluator accepts: which token lists are read as expressions, and what the others come to. */
module EvalSound {
  import opened Options
  import opened EvalMath

  /** Where the parser stands behind a token, if it goes on. */
  function NextPhase(phase: Phase, t: Token): Phase {
    match t
    case Number(_) => AfterNumber
    case Plus | Minus | Star | Slash | Caret => BeforeNumber
    case _ => phase
  }

  /** No parenthesis opens where an operator is due and none closes where a number is due. */
  predicate Regular(ts: seq<Token>, phase: Phase) {
    ts == [] ||
    (!(phase.AfterNumber? && ts[0].Open?) && !(phase.BeforeNumber? && ts[0].Close?) && Regular(ts[1..], NextPhase(phase, ts[0])))
  }

  /** The tokens are an expression written down, with white space and with any parentheses the writer added. */
  ghost predicate Writes(e: Expr, ts: seq<Token>) {
    WellFormed(e) && Print(e) == WithoutSpaces(ts)
  }

  /** How tight the operand on top of an operator must bind to need no parentheses. */
  function Floor(f: Fun): nat {
    match f
    case Paren => 0
    case Negate => 4
    case _ => RightLevel(f)
  }

  predicate Clears(e: Expr, ops: seq<Fun>) {
    ops == [] || Level(e) >= Floor(ops[|ops| - 1])
  }

  /**
   * Operators waiting for their last operand, with the expressions read so far: each two-argument operator has its left
   * operand among them, and none of the operators would have popped the one below it.
   */
  predicate Waiting(ops: seq<Fun>, es: seq<Expr>)
    decreases |ops|
  {
    if ops == [] then es == []
    else
      var below, f := ops[..|ops| - 1], ops[|ops| - 1];
      if IsBinary(f) then
        && es != []
        && WellFormed(es[|es| - 1]) && Eval(es[|es| - 1]).Some? && Level(es[|es| - 1]) >= LeftLevel(f)
        && (below == [] || Stays(below[|below| - 1], f))
        && Waiting(below, es[..|es| - 1])
      else
        Waiting(below, es)
  }

  /** The text they were read from. */
  function Text(ops: seq<Fun>, es: seq<Expr>): seq<Token>
    requires Waiting(ops, es)
    decreases |ops|
  {
    if ops == [] then []
    else
      var below, f := ops[..|ops| - 1], ops[|ops| - 1];
      if IsBinary(f) then Text(below, es[..|es| - 1]) + Print(es[|es| - 1]) + [Symbol(f)]
      else Text(below, es) + [if f.Paren? then Open else Minus]
  }

  function Value(e: Expr): int {
    match Eval(e)
    case None => 0
    case Some(v) => v
  }

  function Values(es: seq<Expr>): seq<int> {
    seq(|es|, k requires 0 <= k < |es| => Value(es[k]))
  }

  /** An operand read completely, on top of waiting operators for which it needs no parentheses. */
  predicate Holds(ops: seq<Fun>, es: seq<Expr>, e: Expr) {
    Waiting(ops, es) && WellFormed(e) && Eval(e).Some? && Clears(e, ops)
  }

  function StacksOf(ops: seq<Fun>, es: seq<Expr>, e: Expr): Stacks {
    Stacks(ops, Values(es) + [Value(e)])
  }

  /** The invariant of the parser: its state is a piece of an expression, and `done` the text of that piece. */
  ghost predicate Reads(st: State, es: seq<Expr>, top: Option<Expr>, done: seq<Token>) {
    match top
    case None => st.phase.BeforeNumber? && Waiting(st.stacks.ops, es) && st.stacks.args == Values(es) && done == Text(st.stacks.ops, es)
    case Some(e) =>
      && st.phase.AfterNumber? && Holds(st.stacks.ops, es, e) && Level(e) == 5
      && st.stacks == StacksOf(st.stacks.ops, es, e) && done == Text(st.stacks.ops, es) + Print(e)
  }

  /** What the operator on top makes of the operand. */
  function Joined(f: Fun, es: seq<Expr>, e: Expr): (seq<Expr>, Expr)
    requires IsBinary(f) ==> es != []
  {
    if IsBinary(f) then (es[..|es| - 1], Bin(f, es[|es| - 1], e)) else (es, Neg(e))
  }

  lemma ValuesOnTop(es: seq<Expr>, e: Expr)
    ensures var args := Values(es) + [Value(e)];
            && args[|args| - 1] == Value(e) && args[..|args| - 1] == Values(es)
            && (es != [] ==> args[|args| - 2] == Value(es[|es| - 1]) && args[..|args| - 2] == Values(es[..|es| - 1]))
  {
    hide Value;
    var args := Values(es) + [Value(e)];
    assert args[..|args| - 1] == Values(es);
    if es != [] {
      assert args[..|args| - 2] == Values(es[..|es| - 1]);
    }
  }

  lemma JoinedArguments(ops: seq<Fun>, es: seq<Expr>, e: Expr)
    requires ops != [] && !ops[|ops| - 1].Paren? && Eval(e).Some?
    requires IsBinary(ops[|ops| - 1]) ==> es != [] && Eval(es[|es| - 1]).Some?
    ensures var (es', e') := Joined(ops[|ops| - 1], es, e);
            Pop(StacksOf(ops, es, e)) == if Eval(e').None? then Error else Ok(StacksOf(ops[..|ops| - 1], es', e'))
  {
    hide Values, Binary;
    ValuesOnTop(es, e);
    ValuesLength(es);
  }

  lemma ValuesLength(es: seq<Expr>)
    ensures |Values(es)| == |es|
  {
  }

  lemma JoinedHolds(ops: seq<Fun>, es: seq<Expr>, e: Expr)
    requires ops != [] && Holds(ops, es, e) && !ops[|ops| - 1].Paren?
    ensures var (es', e') := Joined(ops[|ops| - 1], es, e);
            Eval(e').Some? ==> Holds(ops[..|ops| - 1], es', e') && Level(e') == Prec(ops[|ops| - 1])
  {
  }

  lemma JoinedText(ops: seq<Fun>, es: seq<Expr>, e: Expr)
    requires ops != [] && Holds(ops, es, e) && !ops[|ops| - 1].Paren?
    ensures var (es', e') := Joined(ops[|ops| - 1], es, e);
            var below := ops[..|ops| - 1];
            WellFormed(e') && Waiting(below, es') && Text(below, es') + Print(e') == Text(ops, es) + Print(e)
  {
    hide Eval, Value;
    var below, f := ops[..|ops| - 1], ops[|ops| - 1];
    if IsBinary(f) {
      BinaryText(f, es[|es| - 1], e, Text(below, es[..|es| - 1]));
    } else {
      assert Text(below, es) + Print(Neg(e)) == Text(ops, es) + Print(e);
    }
  }

  lemma BinaryText(f: Fun, l: Expr, r: Expr, before: seq<Token>)
    requires IsBinary(f) && WellFormed(l) && WellFormed(r) && Level(l) >= LeftLevel(f) && Level(r) >= RightLevel(f)
    ensures before + Print(Bin(f, l, r)) == before + Print(l) + [Symbol(f)] + Print(r)
  {
  }

  /** Popping an operator joins it with its operands, and the text stays the same. */
  lemma PopRead(ops: seq<Fun>, es: seq<Expr>, e: Expr)
    requires ops != [] && Holds(ops, es, e) && !ops[|ops| - 1].Paren?
    ensures var (es', e') := Joined(ops[|ops| - 1], es, e);
            var below := ops[..|ops| - 1];
            && Pop(StacksOf(ops, es, e)) == (if Eval(e').None? then Error else Ok(StacksOf(below, es', e')))
            && (Eval(e').Some? ==>
                  && Holds(below, es', e') && Level(e') == Prec(ops[|ops| - 1])
                  && Text(below, es') + Print(e') == Text(ops, es) + Print(e))
  {
    JoinedHolds(ops, es, e);
    JoinedText(ops, es, e);
    JoinedArguments(ops, es, e);
    hide Pop, Text, Print, Eval, Level, StacksOf;
  }

  lemma {:induction false} PushRead(ops: seq<Fun>, es: seq<Expr>, e: Expr, f: Fun) returns (es': seq<Expr>)
    requires IsBinary(f) && Holds(ops, es, e) && Level(e) >= LeftLevel(f) && Push(StacksOf(ops, es, e), f).Ok?
    ensures var s := Push(StacksOf(ops, es, e), f).value;
            Waiting(s.ops, es') && s.args == Values(es') && Text(s.ops, es') == Text(ops, es) + Print(e) + [Symbol(f)]
    decreases |ops|
  {
    hide Pop, Eval, Print;
    if ops == [] || Stays(ops[|ops| - 1], f) {
      es' := es + [e];
      assert (ops + [f])[..|ops|] == ops && es'[..|es|] == es && Values(es') == Values(es) + [Value(e)];
    } else {
      PopRead(ops, es, e);
      var (es1, e1) := Joined(ops[|ops| - 1], es, e);
      es' := PushRead(ops[..|ops| - 1], es1, e1, f);
    }
  }

  lemma {:induction false} CloseRead(ops: seq<Fun>, es: seq<Expr>, e: Expr) returns (es': seq<Expr>, e': Expr)
    requires Holds(ops, es, e) && CloseParen(StacksOf(ops, es, e)).Ok?
    ensures var s := CloseParen(StacksOf(ops, es, e)).value;
            && Holds(s.ops, es', e') && Level(e') == 5 && s == StacksOf(s.ops, es', e')
            && Text(s.ops, es') + Print(e') == Text(ops, es) + Print(e) + [Close]
    decreases |ops|
  {
    hide Pop;
    var below, f := ops[..|ops| - 1], ops[|ops| - 1];
    if f.Paren? {
      es', e' := es, Group(e);
      ParenRead(ops, es, e);
    } else {
      PopRead(ops, es, e);
      var (es1, e1) := Joined(f, es, e);
      es', e' := CloseRead(below, es1, e1);
    }
  }

  lemma ParenRead(ops: seq<Fun>, es: seq<Expr>, e: Expr)
    requires ops != [] && ops[|ops| - 1].Paren? && Holds(ops, es, e)
    ensures var below := ops[..|ops| - 1];
            Holds(below, es, Group(e)) && Text(below, es) + Print(Group(e)) == Text(ops, es) + Print(e) + [Close]
  {
  }

  lemma {:induction false} DrainRead(ops: seq<Fun>, es: seq<Expr>, e: Expr) returns (whole: Expr)
    requires Holds(ops, es, e) && Drain(StacksOf(ops, es, e)).Ok?
    ensures WellFormed(whole) && Eval(whole) == Some(Drain(StacksOf(ops, es, e)).value) && Print(whole) == Text(ops, es) + Print(e)
    decreases |ops|
  {
    if ops == [] {
      whole := e;
    } else {
      PopRead(ops, es, e);
      var (es1, e1) := Joined(ops[|ops| - 1], es, e);
      whole := DrainRead(ops[..|ops| - 1], es1, e1);
    }
  }

  function Binaries(ops: seq<Fun>): nat {
    if ops == [] then 0 else Binaries(ops[..|ops| - 1]) + if IsBinary(ops[|ops| - 1]) then 1 else 0
  }

  lemma {:induction false} WaitingCount(ops: seq<Fun>, es: seq<Expr>)
    requires Waiting(ops, es)
    ensures |es| == Binaries(ops)
    decreases |ops|
  {
    if ops != [] {
      WaitingCount(ops[..|ops| - 1], if IsBinary(ops[|ops| - 1]) then es[..|es| - 1] else es);
    }
  }

  /** One argument more than two-argument operators, or the end of the input is an error. */
  lemma {:induction false} DrainCount(s: Stacks)
    requires Drain(s).Ok?
    ensures |s.args| == Binaries(s.ops) + 1
    decreases |s.ops|
  {
    if s.ops != [] {
      DrainCount(Pop(s).value);
    }
  }

  lemma NumberRead(st: State, es: seq<Expr>, done: seq<Token>, n: int)
    requires Reads(st, es, None, done) && |st.stacks.args| < STACK_SIZE
    ensures Step(st, Number(n)).Ok? && Reads(Step(st, Number(n)).value, es, Some(Num(n)), done + [Number(n)])
  {
  }

  lemma PrefixRead(st: State, es: seq<Expr>, done: seq<Token>, t: Token)
    requires Reads(st, es, None, done) && (t.Open? || t.Minus?) && Step(st, t).Ok?
    ensures Reads(Step(st, t).value, es, None, done + [t])
  {
    var ops, f := st.stacks.ops, if t.Open? then Paren else Negate;
    assert Step(st, t).value == State(Stacks(ops + [f], st.stacks.args), BeforeNumber);
    assert (ops + [f])[..|ops|] == ops;
  }

  lemma SuffixRead(st: State, es: seq<Expr>, e: Expr, done: seq<Token>, m: int)
    requires Reads(st, es, Some(e), done)
    ensures Step(st, Suffix(m)).Ok? && Reads(Step(st, Suffix(m)).value, es, Some(Scaled(e, m)), done + [Suffix(m)])
  {
    hide Text, Waiting;
    var args := st.stacks.args;
    assert args[|args| - 1 := Value(e) * m] == Values(es) + [Value(Scaled(e, m))];
    assert Print(Scaled(e, m)) == Print(e) + [Suffix(m)];
  }

  function Operator(t: Token): Fun
    requires t.Plus? || t.Minus? || t.Star? || t.Slash? || t.Caret?
  {
    match t
    case Plus => Add
    case Minus => Subtract
    case Star => Multiply
    case Slash => Divide
    case Caret => Power
  }

  /** Every token read keeps the invariant. */
  lemma StepRead(st: State, es: seq<Expr>, top: Option<Expr>, done: seq<Token>, t: Token)
    returns (es': seq<Expr>, top': Option<Expr>)
    requires Reads(st, es, top, done) && Step(st, t).Ok?
    requires !(st.phase.AfterNumber? && t.Open?) && !(st.phase.BeforeNumber? && t.Close?)
    ensures Reads(Step(st, t).value, es', top', done + WithoutSpaces([t]))
    ensures Step(st, t).value.phase == NextPhase(st.phase, t)
  {
    es', top' := es, top;
    if t.Space? {
      assert WithoutSpaces([t]) == [] && done + [] == done;
      return;
    }
    assert WithoutSpaces([t]) == [t];
    var s := st.stacks;
    if top.None? {
      if t.Number? {
        top' := Some(Num(t.n));
        NumberRead(st, es, done, t.n);
      } else {
        PrefixRead(st, es, done, t);
      }
    } else if t.Suffix? {
      top' := Some(Scaled(top.value, t.multiplier));
      SuffixRead(st, es, top.value, done, t.multiplier);
    } else if t.Close? {
      var e';
      es', e' := CloseRead(s.ops, es, top.value);
      top' := Some(e');
    } else {
      assert Step(st, t) == Then(Push(s, Operator(t)), BeforeNumber);
      hide Push, Text, Waiting, Print, Step;
      top' := None;
      es' := PushRead(s.ops, es, top.value, Operator(t));
    }
  }

  lemma EndRead(st: State, es: seq<Expr>, top: Option<Expr>, done: seq<Token>) returns (e: Expr)
    requires Reads(st, es, top, done) && Drain(st.stacks).Ok?
    ensures WellFormed(e) && Eval(e) == Some(Drain(st.stacks).value) && Print(e) == done
  {
    hide Drain, Text, Print;
    if top.None? {
      DrainCount(st.stacks);
      WaitingCount(st.stacks.ops, es);
      assert false;
    } else {
      e := DrainRead(st.stacks.ops, es, top.value);
    }
  }

  lemma Appended(a: seq<Token>, b: seq<Token>, c: seq<Token>)
    ensures a + b + c == a + (b + c)
  {
  }

  lemma FirstToken(ts: seq<Token>)
    requires ts != []
    ensures WithoutSpaces(ts) == WithoutSpaces([ts[0]]) + WithoutSpaces(ts[1..])
  {
    var rest := WithoutSpaces(ts[1..]);
    assert WithoutSpaces([ts[0]]) == if ts[0].Space? then [] else [ts[0]];
    assert [] + rest == rest;
  }

  lemma {:induction false} RunRead(ts: seq<Token>, st: State, es: seq<Expr>, top: Option<Expr>, done: seq<Token>) returns (e: Expr)
    requires Reads(st, es, top, done) && Regular(ts, st.phase) && Run(ts, st).Ok?
    ensures WellFormed(e) && Eval(e) == Some(Run(ts, st).value) && Print(e) == done + WithoutSpaces(ts)
    decreases |ts|
  {
    hide Step, Reads, Print, Drain, Eval, WithoutSpaces, WellFormed;
    if ts == [] {
      e := EndRead(st, es, top, done);
      NothingLeft();
    } else {
      var es', top' := StepRead(st, es, top, done, ts[0]);
      e := RunRead(ts[1..], Step(st, ts[0]).value, es', top', done + WithoutSpaces([ts[0]]));
      FirstToken(ts);
      Appended(done, WithoutSpaces([ts[0]]), WithoutSpaces(ts[1..]));
    }
  }

  lemma NothingLeft()
    ensures Regular([], AfterNumber) && WithoutSpaces([]) == []
  {
  }

  lemma RegularFirst(t: Token, rest: seq<Token>, phase: Phase)
    ensures Regular([t] + rest, phase) ==
            (!(phase.AfterNumber? && t.Open?) && !(phase.BeforeNumber? && t.Close?) && Regular(rest, NextPhase(phase, t)))
  {
    assert ([t] + rest)[1..] == rest;
  }

  lemma {:induction false} RegularWithoutSpaces(ts: seq<Token>, phase: Phase)
    ensures Regular(WithoutSpaces(ts), phase) == Regular(ts, phase)
    decreases |ts|
  {
    if ts != [] {
      RegularWithoutSpaces(ts[1..], NextPhase(phase, ts[0]));
      if ts[0].Space? {
        assert WithoutSpaces(ts) == WithoutSpaces(ts[1..]);
      } else {
        RegularFirst(ts[0], WithoutSpaces(ts[1..]), phase);
      }
    }
  }

  /** What is printed never opens a parenthesis behind a number nor closes one before a number. */
  lemma {:induction false} PrintRegular(e: Expr, rest: seq<Token>)
    requires WellFormed(e)
    ensures Regular(Print(e) + rest, BeforeNumber) == Regular(rest, AfterNumber)
    decreases e, 1
  {
    hide Regular;
    match e {
      case Num(n) => RegularFirst(Number(n), rest, BeforeNumber);
      case Neg(x) =>
        RegularFirst(Minus, PrintAt(x, 4) + rest, BeforeNumber);
        assert Print(e) + rest == [Minus] + (PrintAt(x, 4) + rest);
        PrintAtRegular(x, 4, rest);
      case Bin(f, l, r) =>
        var left, right := PrintAt(l, LeftLevel(f)), PrintAt(r, RightLevel(f));
        assert Print(e) + rest == left + ([Symbol(f)] + (right + rest));
        PrintAtRegular(l, LeftLevel(f), [Symbol(f)] + (right + rest));
        RegularFirst(Symbol(f), right + rest, AfterNumber);
        PrintAtRegular(r, RightLevel(f), rest);
      case Scaled(x, m) =>
        assert Print(e) + rest == PrintAt(x, 5) + ([Suffix(m)] + rest);
        PrintAtRegular(x, 5, [Suffix(m)] + rest);
        RegularFirst(Suffix(m), rest, AfterNumber);
      case Group(x) => GroupRegular(x, rest);
    }
  }

  lemma {:induction false} GroupRegular(e: Expr, rest: seq<Token>)
    requires WellFormed(e)
    ensures Regular([Open] + Print(e) + [Close] + rest, BeforeNumber) == Regular(rest, AfterNumber)
    decreases e, 2
  {
    hide Regular, Print;
    Regrouped([Open], Print(e), [Close], rest);
    RegularFirst(Open, Print(e) + ([Close] + rest), BeforeNumber);
    PrintRegular(e, [Close] + rest);
    RegularFirst(Close, rest, AfterNumber);
  }

  lemma {:induction false} PrintAtRegular(e: Expr, level: nat, rest: seq<Token>)
    requires WellFormed(e)
    ensures Regular(PrintAt(e, level) + rest, BeforeNumber) == Regular(rest, AfterNumber)
    decreases e, 3
  {
    hide Regular, Print;
    if Level(e) >= level {
      PrintRegular(e, rest);
    } else {
      GroupRegular(e, rest);
    }
  }

  /**
   * The parser is sound on regular input: eval_math gives a value exactly when the tokens are an expression with that
   * value, with the parentheses its precedences need, that fits the two stacks.
   */
  lemma RegularIff(ts: seq<Token>, v: int)
    requires Regular(ts, BeforeNumber)
    ensures Evaluate(ts) == Ok(v) <==>
            exists e :: Writes(e, ts) && Eval(e) == Some(v) && OpNeed(e) <= STACK_SIZE && ArgNeed(e) <= STACK_SIZE
  {
    hide Run, Print;
    SpacesIgnored(ts, START);
    if Evaluate(ts) == Ok(v) {
      var e := RunRead(ts, START, [], None, []);
      assert Print(e) == WithoutSpaces(ts);
      EvaluatesTrees(e);
      assert Writes(e, ts);
    }
    forall e | Writes(e, ts) && Eval(e) == Some(v) && OpNeed(e) <= STACK_SIZE && ArgNeed(e) <= STACK_SIZE
      ensures Evaluate(ts) == Ok(v)
    {
      EvaluatesTrees(e);
    }
  }

  lemma WrittenIsRegular(e: Expr, ts: seq<Token>)
    requires Writes(e, ts)
    ensures Regular(ts, BeforeNumber)
  {
    hide Print, Regular;
    assert Print(e) + [] == Print(e);
    PrintRegular(e, []);
    RegularWithoutSpaces(ts, BeforeNumber);
    NothingLeft();
  }

  /** Accepted input is an expression with the value it is given exactly when no parenthesis stands out of place. */
  lemma AcceptedIff(ts: seq<Token>)
    requires Evaluate(ts).Ok?
    ensures (exists e :: Writes(e, ts) && Eval(e) == Some(Evaluate(ts).value)) <==> Regular(ts, BeforeNumber)
  {
    hide Run, Regular, Writes;
    if Regular(ts, BeforeNumber) {
      RegularIff(ts, Evaluate(ts).value);
    }
    forall e | Writes(e, ts)
      ensures Regular(ts, BeforeNumber)
    {
      WrittenIsRegular(e, ts);
    }
  }

  /** The states a run goes through, from the first to the one the input ends in. */
  ghost predicate Through(ts: seq<Token>, sts: seq<State>) {
    |sts| == |ts| + 1 && forall k :: 0 <= k < |ts| ==> Step(sts[k], ts[k]) == Ok(sts[k + 1])
  }

  lemma {:induction false} RunThrough(ts: seq<Token>, sts: seq<State>)
    requires Through(ts, sts)
    ensures Run(ts, sts[0]) == Drain(sts[|ts|].stacks)
    decreases |ts|
  {
    hide Step, Drain;
    if ts != [] {
      assert Step(sts[0], ts[0]) == Ok(sts[1]);
      RunThrough(ts[1..], sts[1..]);
    }
  }

  lemma NumberStep(s: Stacks, n: int, args: seq<int>)
    requires |s.args| < STACK_SIZE && args == s.args + [n]
    ensures Step(State(s, BeforeNumber), Number(n)) == Ok(State(Stacks(s.ops, args), AfterNumber))
  {
  }

  lemma OpenStep(s: Stacks, phase: Phase, ops: seq<Fun>)
    requires |s.ops| < STACK_SIZE && ops == s.ops + [Paren]
    ensures Step(State(s, phase), Open) == Ok(State(Stacks(ops, s.args), phase))
  {
  }

  lemma OperatorStep(s: Stacks, phase: Phase, t: Token, ops: seq<Fun>)
    requires t.Plus? || t.Minus?
    requires var f := if phase.BeforeNumber? then Negate else Operator(t);
             && |s.ops| < STACK_SIZE && ops == s.ops + [f]
             && (phase.BeforeNumber? ==> t.Minus?) && (s.ops != [] ==> Stays(s.ops[|s.ops| - 1], f))
    ensures Step(State(s, phase), t) == Ok(State(Stacks(ops, s.args), BeforeNumber))
  {
  }

  /** Both halves of the condition are needed. A parenthesis may open between a number and the operator behind it. */
  lemma OpenBehindNumber(a: int, b: int)
    ensures var ts := [Number(a), Open, Plus, Number(b), Close];
            Evaluate(ts) == Ok(a + b) && !exists e :: Writes(e, ts)
  {
    var ts := [Number(a), Open, Plus, Number(b), Close];
    var s1, s2 := Stacks([], [a]), Stacks([Paren], [a]);
    var s3, s4 := Stacks([Paren, Add], [a]), Stacks([Paren, Add], [a, b]);
    NumberStep(START.stacks, a, [a]);
    OpenStep(s1, AfterNumber, [Paren]);
    OperatorStep(s2, AfterNumber, Plus, [Paren, Add]);
    NumberStep(s3, b, [a, b]);
    SumClosed(a, b);
    hide Step, Drain, Regular, Writes, Run;
    RunThrough(ts, [START, State(s1, AfterNumber), State(s2, AfterNumber), State(s3, BeforeNumber), State(s4, AfterNumber),
                    State(Stacks([], [a + b]), AfterNumber)]);
    DrainOne(a + b);
    OpenedTooLate(a, b);
    NotWritten(ts);
  }

  lemma OpenedTooLate(a: int, b: int)
    ensures !Regular([Number(a), Open, Plus, Number(b), Close], BeforeNumber)
  {
    hide Regular;
    var rest := [Plus, Number(b), Close];
    RegularFirst(Number(a), [Open] + rest, BeforeNumber);
    RegularFirst(Open, rest, AfterNumber);
    assert [Number(a)] + ([Open] + rest) == [Number(a), Open, Plus, Number(b), Close];
  }

  lemma DrainOne(n: int)
    ensures Drain(Stacks([], [n])) == Ok(n)
  {
  }

  lemma SumClosed(a: int, b: int)
    ensures Step(State(Stacks([Paren, Add], [a, b]), AfterNumber), Close) == Ok(State(Stacks([], [a + b]), AfterNumber))
  {
    var s := Stacks([Paren, Add], [a, b]);
    assert s.ops[..1] == [Paren] && s.args[..0] + [a + b] == [a + b] && [Paren][..0] == [];
    assert Pop(s) == Ok(Stacks([Paren], [a + b]));
    assert CloseParen(Stacks([Paren], [a + b])) == Ok(Stacks([], [a + b]));
  }

  /** One may close where a number is due, and its operators then take what stands outside: 3+(-)5 gives 2. */
  lemma CloseBeforeNumber(a: int, b: int)
    ensures var ts := [Number(a), Plus, Open, Minus, Close, Number(b)];
            Evaluate(ts) == Ok(b - a) && !exists e :: Writes(e, ts)
  {
    var ts := [Number(a), Plus, Open, Minus, Close, Number(b)];
    var s1, s2, s3 := Stacks([], [a]), Stacks([Add], [a]), Stacks([Add, Paren], [a]);
    var s4, s5, s6 := Stacks([Add, Paren, Negate], [a]), Stacks([Add], [-a]), Stacks([Add], [-a, b]);
    NumberStep(START.stacks, a, [a]);
    OperatorStep(s1, AfterNumber, Plus, [Add]);
    OpenStep(s2, BeforeNumber, [Add, Paren]);
    OperatorStep(s3, BeforeNumber, Minus, [Add, Paren, Negate]);
    MinusClosed(a);
    NumberStep(s5, b, [-a, b]);
    hide Step, Drain, Regular, Writes, Run;
    RunThrough(ts, [START, State(s1, AfterNumber), State(s2, BeforeNumber), State(s3, BeforeNumber), State(s4, BeforeNumber),
                    State(s5, BeforeNumber), State(s6, AfterNumber)]);
    SumDrained(a, b);
    ClosedTooEarly(a, b);
    NotWritten(ts);
  }

  lemma ClosedTooEarly(a: int, b: int)
    ensures !Regular([Number(a), Plus, Open, Minus, Close, Number(b)], BeforeNumber)
  {
    hide Regular;
    var r1, r2, r3 := [Plus, Open, Minus, Close, Number(b)], [Open, Minus, Close, Number(b)], [Minus, Close, Number(b)];
    RegularFirst(Number(a), r1, BeforeNumber);
    RegularFirst(Plus, r2, AfterNumber);
    RegularFirst(Open, r3, BeforeNumber);
    RegularFirst(Minus, [Close, Number(b)], BeforeNumber);
    RegularFirst(Close, [Number(b)], BeforeNumber);
    assert [Minus] + [Close, Number(b)] == r3 && [Open] + r3 == r2 && [Plus] + r2 == r1;
    assert [Close] + [Number(b)] == [Close, Number(b)];
    assert [Number(a)] + r1 == [Number(a), Plus, Open, Minus, Close, Number(b)];
  }

  lemma MinusClosed(a: int)
    ensures Step(State(Stacks([Add, Paren, Negate], [a]), BeforeNumber), Close) == Ok(State(Stacks([Add], [-a]), BeforeNumber))
  {
    var s := Stacks([Add, Paren, Negate], [a]);
    assert s.ops[..2] == [Add, Paren] && s.args[..0] + [-a] == [-a] && [Add, Paren][..1] == [Add];
    assert Pop(s) == Ok(Stacks([Add, Paren], [-a]));
    assert CloseParen(Stacks([Add, Paren], [-a])) == Ok(Stacks([Add], [-a]));
  }

  lemma SumDrained(a: int, b: int)
    ensures Drain(Stacks([Add], [-a, b])) == Ok(b - a)
  {
    assert [Add][..0] == [] && [-a, b][..0] + [b - a] == [b - a];
    assert Pop(Stacks([Add], [-a, b])) == Ok(Stacks([], [b - a]));
  }

  lemma NotWritten(ts: seq<Token>)
    requires !Regular(ts, BeforeNumber)
    ensures !exists e :: Writes(e, ts)
  {
    forall e | Writes(e, ts)
      ensures false
    {
      WrittenIsRegular(e, ts);
    }
  }
}
