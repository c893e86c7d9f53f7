/** The two-stack expression evaluator as functions on tokens, and its agreement with expression trees. */
module EvalMath {
  import opened Options

  const STACK_SIZE: nat := 16

  /** Numbers are lexed elsewhere; a suffix stands for its multiplier. */
  datatype Token = Number(n: int) | Plus | Minus | Star | Slash | Caret | Open | Close | Suffix(multiplier: int) | Space

  datatype Fun = Paren | Add | Subtract | Multiply | Divide | Power | Negate

  function Prec(f: Fun): nat {
    match f
    case Paren => 1
    case Add | Subtract => 2
    case Multiply | Divide => 3
    case Power | Negate => 4
  }

  /** Division as the C operator does it: the quotient is cut off towards zero. */
  function Quotient(a: int, b: int): (q: int)
    requires b != 0
    ensures var r := a - q * b; (if r < 0 then -r else r) < (if b < 0 then -b else b) && (r == 0 || (r < 0) == (a < 0))
  {
    if a >= 0 then
      if b > 0 then a / b else -(a / -b)
    else
      if b > 0 then -(-a / b) else -a / -b
  }

  function Raise(base: int, exponent: nat): int {
    if exponent == 0 then 1 else Raise(base, exponent - 1) * base
  }

  function Binary(f: Fun, a: int, b: int): Option<int> {
    match f
    case Add => Some(a + b)
    case Subtract => Some(a - b)
    case Multiply => Some(a * b)
    case Divide => if b == 0 then None else Some(Quotient(a, b))
    case Power => if b < 0 || b > 63 then None else Some(Raise(a, b))
    case _ => None
  }

  datatype Stacks = Stacks(ops: seq<Fun>, args: seq<int>)

  /** A call of the evaluator goes on, fails, or writes past the end of the operator stack. */
  datatype Result<T> = Ok(value: T) | Error | Overrun

  /** pop_operator: the operator on top takes its arguments from the other stack. */
  function Pop(s: Stacks): Result<Stacks> {
    if s.ops == [] then Error
    else
      var ops, f, n := s.ops[..|s.ops| - 1], s.ops[|s.ops| - 1], |s.args|;
      if f.Paren? then Error
      else if f.Negate? then
        if n < 1 then Error else Ok(Stacks(ops, s.args[..n - 1] + [-s.args[n - 1]]))
      else if n < 2 then Error
      else
        match Binary(f, s.args[n - 2], s.args[n - 1])
        case None => Error
        case Some(v) => Ok(Stacks(ops, s.args[..n - 2] + [v]))
  }

  predicate RightAssociative(f: Fun) {
    f.Power? || f.Negate?
  }

  /** The operator on top stays: the new one binds tighter, or as tight and groups to the right. */
  predicate Stays(top: Fun, f: Fun) {
    if RightAssociative(f) then Prec(f) >= Prec(top) else Prec(f) > Prec(top)
  }

  /** push_operator: whatever binds tighter is popped first. There is no check for room. */
  function Push(s: Stacks, f: Fun): Result<Stacks>
    decreases |s.ops|
  {
    if s.ops == [] || Stays(s.ops[|s.ops| - 1], f) then
      if |s.ops| >= STACK_SIZE then Overrun else Ok(s.(ops := s.ops + [f]))
    else
      match Pop(s)
      case Ok(s') => Push(s', f)
      case Error => Error
      case Overrun => Overrun
  }

  function OpenParen(s: Stacks): Result<Stacks> {
    if |s.ops| >= STACK_SIZE then Error else Ok(s.(ops := s.ops + [Paren]))
  }

  /** handle_right_paren: pops up to the parenthesis. */
  function CloseParen(s: Stacks): Result<Stacks>
    decreases |s.ops|
  {
    if s.ops == [] then Error
    else if s.ops[|s.ops| - 1].Paren? then Ok(s.(ops := s.ops[..|s.ops| - 1]))
    else
      match Pop(s)
      case Ok(s') => CloseParen(s')
      case Error => Error
      case Overrun => Overrun
  }

  function PushNumber(s: Stacks, n: int): Result<Stacks> {
    if |s.args| >= STACK_SIZE then Error else Ok(s.(args := s.args + [n]))
  }

  function Scale(s: Stacks, multiplier: int): Result<Stacks> {
    var n := |s.args|;
    if n < 1 then Error else Ok(s.(args := s.args[n - 1 := s.args[n - 1] * multiplier]))
  }

  /** What the parser waits for. */
  datatype Phase = BeforeNumber | AfterNumber

  datatype State = State(stacks: Stacks, phase: Phase)

  function Then(r: Result<Stacks>, phase: Phase): Result<State> {
    match r
    case Ok(s) => Ok(State(s, phase))
    case Error => Error
    case Overrun => Overrun
  }

  /** parse_whitespace_before_number, parse_number and parse_operator. */
  function Step(st: State, t: Token): Result<State> {
    var s := st.stacks;
    if t.Space? then Ok(st)
    else if st.phase.BeforeNumber? then
      match t
      case Open => Then(OpenParen(s), BeforeNumber)
      case Close => Then(CloseParen(s), BeforeNumber)
      case Minus => Then(Push(s, Negate), BeforeNumber)
      case Number(n) => Then(PushNumber(s, n), AfterNumber)
      case _ => Error
    else
      match t
      case Plus => Then(Push(s, Add), BeforeNumber)
      case Minus => Then(Push(s, Subtract), BeforeNumber)
      case Star => Then(Push(s, Multiply), BeforeNumber)
      case Slash => Then(Push(s, Divide), BeforeNumber)
      case Caret => Then(Push(s, Power), BeforeNumber)
      case Open => Then(OpenParen(s), AfterNumber)
      case Close => Then(CloseParen(s), AfterNumber)
      case Suffix(m) => Then(Scale(s, m), AfterNumber)
      case _ => Error
  }

  /** At the end the remaining operators are popped and exactly one argument must be left. */
  function Drain(s: Stacks): Result<int>
    decreases |s.ops|
  {
    if s.ops == [] then
      if |s.args| == 1 then Ok(s.args[0]) else Error
    else
      match Pop(s)
      case Ok(s') => Drain(s')
      case Error => Error
      case Overrun => Overrun
  }

  function Run(ts: seq<Token>, st: State): Result<int>
    decreases |ts|
  {
    if ts == [] then Drain(st.stacks)
    else
      match Step(st, ts[0])
      case Ok(st') => Run(ts[1..], st')
      case Error => Error
      case Overrun => Overrun
  }

  const START: State := State(Stacks([], []), BeforeNumber)

  /** eval_math */
  function Evaluate(ts: seq<Token>): Result<int> {
    Run(ts, START)
  }

  /** Expressions, with the parentheses a writer chose to add. */
  datatype Expr =
    | Num(n: int)
    | Neg(e: Expr)
    | Bin(f: Fun, l: Expr, r: Expr)
    | Scaled(e: Expr, multiplier: int)
    | Group(e: Expr)

  predicate IsBinary(f: Fun) {
    !f.Paren? && !f.Negate?
  }

  predicate WellFormed(e: Expr) {
    match e
    case Num(_) => true
    case Neg(x) => WellFormed(x)
    case Bin(f, l, r) => IsBinary(f) && WellFormed(l) && WellFormed(r)
    case Scaled(x, _) => WellFormed(x)
    case Group(x) => WellFormed(x)
  }

  function Eval(e: Expr): Option<int> {
    match e
    case Num(n) => Some(n)
    case Neg(x) => (match Eval(x) case None => None case Some(v) => Some(-v))
    case Bin(f, l, r) =>
      (match Eval(l)
       case None => None
       case Some(a) => match Eval(r) case None => None case Some(b) => Binary(f, a, b))
    case Scaled(x, m) => (match Eval(x) case None => None case Some(v) => Some(v * m))
    case Group(x) => Eval(x)
  }

  /** How tight the outermost operator of an expression binds. */
  function Level(e: Expr): nat {
    match e
    case Num(_) => 5
    case Neg(_) => 4
    case Bin(f, _, _) => Prec(f)
    case Scaled(_, _) => 5
    case Group(_) => 5
  }

  /** The least tight operands an operator takes without parentheses, on its left and on its right. */
  function LeftLevel(f: Fun): nat {
    if f.Power? then 5 else Prec(f)
  }

  function RightLevel(f: Fun): nat {
    if f.Power? then 4 else Prec(f) + 1
  }

  function Symbol(f: Fun): Token
    requires IsBinary(f)
  {
    match f
    case Add => Plus
    case Subtract => Minus
    case Multiply => Star
    case Divide => Slash
    case Power => Caret
  }

  function Print(e: Expr): seq<Token>
    requires WellFormed(e)
    decreases e, 0
  {
    match e
    case Num(n) => [Number(n)]
    case Neg(x) => [Minus] + PrintAt(x, 4)
    case Bin(f, l, r) => PrintAt(l, LeftLevel(f)) + [Symbol(f)] + PrintAt(r, RightLevel(f))
    case Scaled(x, m) => PrintAt(x, 5) + [Suffix(m)]
    case Group(x) => [Open] + Print(x) + [Close]
  }

  /** An operand, in parentheses where precedence asks for them. */
  function PrintAt(e: Expr, level: nat): seq<Token>
    requires WellFormed(e)
    decreases e, 1
  {
    if Level(e) >= level then Print(e) else [Open] + Print(e) + [Close]
  }

  function Max(a: nat, b: nat): nat {
    if a < b then b else a
  }

  /** How many operators and parentheses the expression needs on the stack at once. */
  function OpNeed(e: Expr): nat
    decreases e, 0
  {
    match e
    case Num(_) => 0
    case Neg(x) => 1 + OpNeedAt(x, 4)
    case Bin(f, l, r) => Max(OpNeedAt(l, LeftLevel(f)), 1 + OpNeedAt(r, RightLevel(f)))
    case Scaled(x, _) => OpNeedAt(x, 5)
    case Group(x) => 1 + OpNeed(x)
  }

  function OpNeedAt(e: Expr, level: nat): nat
    decreases e, 1
  {
    if Level(e) >= level then OpNeed(e) else 1 + OpNeed(e)
  }

  /** How many arguments the expression needs on the stack at once. */
  function ArgNeed(e: Expr): nat {
    match e
    case Num(_) => 1
    case Neg(x) => ArgNeed(x)
    case Bin(_, l, r) => Max(ArgNeed(l), 1 + ArgNeed(r))
    case Scaled(x, _) => ArgNeed(x)
    case Group(x) => ArgNeed(x)
  }

  /** The next token makes every operator on top that binds at least as tight as p be popped before anything else. */
  predicate Closes(rest: seq<Token>, p: nat) {
    rest == [] || match rest[0]
                  case Close => true
                  case Plus => p >= 2
                  case Minus => p >= 2
                  case Star => p >= 3
                  case Slash => p >= 3
                  case _ => false
  }

  /** No operator on top would be popped by the operators of an expression of this level. */
  predicate Undisturbed(ops: seq<Fun>, level: nat) {
    ops == [] || level >= 4 || Prec(ops[|ops| - 1]) < level
  }

  /** An operator on top followed by a token that closes it is applied first. */
  lemma Applied(rest: seq<Token>, s: Stacks, p: nat)
    requires s.ops != [] && Closes(rest, p) && Prec(s.ops[|s.ops| - 1]) >= p && !s.ops[|s.ops| - 1].Paren?
    ensures Run(rest, State(s, AfterNumber)) ==
            match Pop(s) case Ok(s') => Run(rest, State(s', AfterNumber)) case Error => Error case Overrun => Overrun
  {
    hide Pop;
  }

  lemma OneToken(t: Token, rest: seq<Token>, st: State)
    ensures Run([t] + rest, st) == match Step(st, t) case Ok(st') => Run(rest, st') case Error => Error case Overrun => Overrun
  {
    hide Step;
    assert ([t] + rest)[1..] == rest;
  }

  /** The run goes on behind an operand with its value on the argument stack. */
  function Behind(rest: seq<Token>, s: Stacks, r: Result<int>): Result<int> {
    match r
    case Ok(n) => Run(rest, State(s.(args := s.args + [n]), AfterNumber))
    case Error => Error
    case Overrun => Overrun
  }

  /**
   * What becomes of an expression on stacks that hold so many operators and arguments already: its value, an error,
   * or a write past the end, whichever its text meets first.
   */
  function Outcome(e: Expr, ops: nat, args: nat): Result<int>
    decreases e, 0
  {
    match e
    case Num(n) => if args >= STACK_SIZE then Error else Ok(n)
    case Neg(x) => if ops >= STACK_SIZE then Overrun else Map(OutcomeAt(x, 4, ops + 1, args), v => Some(-v))
    case Bin(f, l, r) =>
      (match OutcomeAt(l, LeftLevel(f), ops, args)
       case Ok(a) =>
         if ops >= STACK_SIZE then Overrun
         else Map(OutcomeAt(r, RightLevel(f), ops + 1, args + 1), b => Binary(f, a, b))
       case Error => Error
       case Overrun => Overrun)
    case Scaled(x, m) => Map(OutcomeAt(x, 5, ops, args), v => Some(v * m))
    case Group(x) => if ops >= STACK_SIZE then Error else Outcome(x, ops + 1, args)
  }

  function OutcomeAt(e: Expr, level: nat, ops: nat, args: nat): Result<int>
    decreases e, 1
  {
    if Level(e) >= level then Outcome(e, ops, args)
    else if ops >= STACK_SIZE then Error
    else Outcome(e, ops + 1, args)
  }

  function Map(r: Result<int>, f: int -> Option<int>): Result<int> {
    match r
    case Ok(v) => (match f(v) case None => Error case Some(w) => Ok(w))
    case Error => Error
    case Overrun => Overrun
  }

  lemma Regrouped(a: seq<Token>, b: seq<Token>, c: seq<Token>, d: seq<Token>)
    ensures a + b + c + d == a + (b + (c + d))
  {
  }

  lemma GroupCloses(s: Stacks, args: seq<int>)
    ensures Step(State(Stacks(s.ops + [Paren], args), AfterNumber), Close) == Ok(State(Stacks(s.ops, args), AfterNumber))
  {
    assert (s.ops + [Paren])[..|s.ops|] == s.ops;
  }

  lemma Grouped(inner: seq<Token>, s: Stacks, rest: seq<Token>, r: Result<int>)
    requires |s.ops| < STACK_SIZE
    requires var s' := s.(ops := s.ops + [Paren]);
             Run(inner + ([Close] + rest), State(s', BeforeNumber)) == Behind([Close] + rest, s', r)
    ensures Run([Open] + inner + [Close] + rest, State(s, BeforeNumber)) == Behind(rest, s, r)
  {
    assert Step(State(s, BeforeNumber), Open) == Ok(State(s.(ops := s.ops + [Paren]), BeforeNumber));
    hide Run, Step;
    Regrouped([Open], inner, [Close], rest);
    OneToken(Open, inner + ([Close] + rest), State(s, BeforeNumber));
    if r.Ok? {
      GroupCloses(s, s.args + [r.value]);
      OneToken(Close, rest, State(Stacks(s.ops + [Paren], s.args + [r.value]), AfterNumber));
    }
  }

  lemma NoRoomToOpen(inner: seq<Token>, s: Stacks)
    requires |s.ops| >= STACK_SIZE
    ensures Run([Open] + inner, State(s, BeforeNumber)) == Error
  {
    assert Step(State(s, BeforeNumber), Open) == Error;
    hide Run, Step;
    OneToken(Open, inner, State(s, BeforeNumber));
  }

  /** A parenthesised operand. */
  lemma {:induction false} RunGroup(e: Expr, s: Stacks, rest: seq<Token>)
    requires WellFormed(e)
    ensures Run([Open] + Print(e) + [Close] + rest, State(s, BeforeNumber)) ==
            Behind(rest, s, if |s.ops| >= STACK_SIZE then Error else Outcome(e, |s.ops| + 1, |s.args|))
    decreases e, 2
  {
    hide Run, Print, Outcome;
    if |s.ops| >= STACK_SIZE {
      Regrouped([Open], Print(e), [Close], rest);
      NoRoomToOpen(Print(e) + ([Close] + rest), s);
    } else {
      RunPrint(e, s.(ops := s.ops + [Paren]), [Close] + rest);
      Grouped(Print(e), s, rest, Outcome(e, |s.ops| + 1, |s.args|));
    }
  }

  /**
   * The heart of the evaluator's correctness: running the printed form of an expression, in a context whose
   * operators it does not disturb and before a token that closes it, leaves just its value, or ends as its text does.
   */
  lemma {:induction false} RunPrint(e: Expr, s: Stacks, rest: seq<Token>)
    requires WellFormed(e) && Undisturbed(s.ops, Level(e)) && (Level(e) == 5 || Closes(rest, Level(e)))
    ensures Run(Print(e) + rest, State(s, BeforeNumber)) == Behind(rest, s, Outcome(e, |s.ops|, |s.args|))
    decreases e, 1
  {
    match e
    case Num(n) => OneToken(Number(n), rest, State(s, BeforeNumber));
    case Neg(x) => RunNegation(x, s, rest);
    case Bin(f, l, r) => RunBinary(f, l, r, s, rest);
    case Scaled(x, m) => RunScaled(x, m, s, rest);
    case Group(x) => RunGroup(x, s, rest);
  }

  lemma {:induction false} RunPrintAt(e: Expr, level: nat, s: Stacks, rest: seq<Token>)
    requires WellFormed(e) && Undisturbed(s.ops, level) && 2 <= level <= 5 && (level == 5 || Closes(rest, level))
    ensures Run(PrintAt(e, level) + rest, State(s, BeforeNumber)) == Behind(rest, s, OutcomeAt(e, level, |s.ops|, |s.args|))
    decreases e, 3
  {
    hide Run, Print, Outcome;
    if Level(e) >= level {
      RunPrint(e, s, rest);
    } else {
      RunGroup(e, s, rest);
    }
  }

  lemma {:induction false} RunNegation(x: Expr, s: Stacks, rest: seq<Token>)
    requires WellFormed(x) && Closes(rest, 4)
    ensures Run(Print(Neg(x)) + rest, State(s, BeforeNumber)) == Behind(rest, s, Outcome(Neg(x), |s.ops|, |s.args|))
    decreases x, 4
  {
    hide Run, PrintAt, OutcomeAt;
    var s' := s.(ops := s.ops + [Negate]);
    assert [Minus] + PrintAt(x, 4) + rest == [Minus] + (PrintAt(x, 4) + rest);
    OneToken(Minus, PrintAt(x, 4) + rest, State(s, BeforeNumber));
    if |s.ops| < STACK_SIZE {
      RunPrintAt(x, 4, s', rest);
      var r := OutcomeAt(x, 4, |s.ops| + 1, |s.args|);
      if r.Ok? {
        var pending := s'.(args := s'.args + [r.value]);
        Applied(rest, pending, 4);
        assert pending.ops[..|s.ops|] == s.ops && pending.args[..|s.args|] == s.args;
      }
    }
  }

  lemma {:induction false} RunScaled(x: Expr, m: int, s: Stacks, rest: seq<Token>)
    requires WellFormed(x)
    ensures Run(Print(Scaled(x, m)) + rest, State(s, BeforeNumber)) == Behind(rest, s, Outcome(Scaled(x, m), |s.ops|, |s.args|))
    decreases x, 4
  {
    hide Run, PrintAt, OutcomeAt;
    assert PrintAt(x, 5) + [Suffix(m)] + rest == PrintAt(x, 5) + ([Suffix(m)] + rest);
    RunPrintAt(x, 5, s, [Suffix(m)] + rest);
    var r := OutcomeAt(x, 5, |s.ops|, |s.args|);
    if r.Ok? {
      var pending := s.(args := s.args + [r.value]);
      OneToken(Suffix(m), rest, State(pending, AfterNumber));
      assert pending.args[|s.args| := r.value * m] == s.args + [r.value * m];
    }
  }

  lemma BinaryPushed(f: Fun, s: Stacks)
    requires IsBinary(f) && Undisturbed(s.ops, Prec(f))
    ensures Step(State(s, AfterNumber), Symbol(f)) ==
            if |s.ops| >= STACK_SIZE then Overrun else Ok(State(s.(ops := s.ops + [f]), BeforeNumber))
  {
  }

  /** What the right operand and the operator make of the left operand's value. */
  function RightOutcome(f: Fun, a: int, r: Expr, ops: nat, args: nat): Result<int> {
    if ops >= STACK_SIZE then Overrun
    else Map(OutcomeAt(r, RightLevel(f), ops + 1, args + 1), b => Binary(f, a, b))
  }

  /** From the operator on: the right operand is run and the operator applied. */
  lemma {:induction false} RunRight(f: Fun, a: int, r: Expr, s: Stacks, rest: seq<Token>)
    requires IsBinary(f) && WellFormed(r) && Undisturbed(s.ops, Prec(f)) && Closes(rest, Prec(f))
    ensures Run([Symbol(f)] + (PrintAt(r, RightLevel(f)) + rest), State(s.(args := s.args + [a]), AfterNumber)) ==
            Behind(rest, s, RightOutcome(f, a, r, |s.ops|, |s.args|))
    decreases r, 4
  {
    hide Run, PrintAt, Push, Step, OutcomeAt, Binary;
    var right := PrintAt(r, RightLevel(f));
    var s1 := s.(args := s.args + [a]);
    OneToken(Symbol(f), right + rest, State(s1, AfterNumber));
    BinaryPushed(f, s1);
    if |s.ops| < STACK_SIZE {
      var s2 := s1.(ops := s.ops + [f]);
      RunPrintAt(r, RightLevel(f), s2, rest);
      var b := OutcomeAt(r, RightLevel(f), |s2.ops|, |s2.args|);
      if b.Ok? {
        Applied(rest, s2.(args := s2.args + [b.value]), Prec(f));
        BinaryPopped(f, a, b.value, s);
      }
    }
  }

  lemma BinaryPopped(f: Fun, a: int, b: int, s: Stacks)
    requires IsBinary(f)
    ensures Pop(Stacks(s.ops + [f], s.args + [a] + [b])) ==
            match Binary(f, a, b) case None => Error case Some(v) => Ok(s.(args := s.args + [v]))
  {
    hide Binary;
    var args := s.args + [a] + [b];
    assert (s.ops + [f])[..|s.ops|] == s.ops && args[..|s.args|] == s.args;
  }

  lemma {:induction false} RunBinary(f: Fun, l: Expr, r: Expr, s: Stacks, rest: seq<Token>)
    requires WellFormed(Bin(f, l, r)) && Undisturbed(s.ops, Prec(f)) && Closes(rest, Prec(f))
    ensures Run(Print(Bin(f, l, r)) + rest, State(s, BeforeNumber)) == Behind(rest, s, Outcome(Bin(f, l, r), |s.ops|, |s.args|))
    decreases Bin(f, l, r), 0
  {
    hide Run, PrintAt, Binary, OutcomeAt;
    var left, right := PrintAt(l, LeftLevel(f)), PrintAt(r, RightLevel(f));
    assert left + [Symbol(f)] + right + rest == left + ([Symbol(f)] + (right + rest));
    RunPrintAt(l, LeftLevel(f), s, [Symbol(f)] + (right + rest));
    var a := OutcomeAt(l, LeftLevel(f), |s.ops|, |s.args|);
    if a.Ok? {
      RunRight(f, a.value, r, s, rest);
    }
  }

  /** It comes out with its value exactly when it has one and the stacks have room for it. */
  predicate RightOutcomeAt(e: Expr, level: nat, ops: nat, args: nat) {
    var r := OutcomeAt(e, level, ops, args);
    && (r.Ok? <==> Eval(e).Some? && ops + OpNeedAt(e, level) <= STACK_SIZE && args + ArgNeed(e) <= STACK_SIZE)
    && (r.Ok? ==> Eval(e) == Some(r.value))
  }

  predicate RightWhole(e: Expr, ops: nat, args: nat) {
    var r := Outcome(e, ops, args);
    && (r.Ok? <==> Eval(e).Some? && ops + OpNeed(e) <= STACK_SIZE && args + ArgNeed(e) <= STACK_SIZE)
    && (r.Ok? ==> Eval(e) == Some(r.value))
  }

  lemma NegationIs(x: Expr, ops: nat, args: nat)
    requires ops <= STACK_SIZE && (ops < STACK_SIZE ==> RightOutcomeAt(x, 4, ops + 1, args))
    ensures RightWhole(Neg(x), ops, args)
  {
    hide OutcomeAt, OpNeedAt;
  }

  lemma BinaryIs(f: Fun, l: Expr, r: Expr, ops: nat, args: nat)
    requires ops <= STACK_SIZE && RightOutcomeAt(l, LeftLevel(f), ops, args)
    requires ops < STACK_SIZE ==> RightOutcomeAt(r, RightLevel(f), ops + 1, args + 1)
    ensures RightWhole(Bin(f, l, r), ops, args)
  {
    hide OutcomeAt, OpNeedAt, Binary, LeftLevel, RightLevel;
  }

  lemma ScaledIs(x: Expr, m: int, ops: nat, args: nat)
    requires RightOutcomeAt(x, 5, ops, args)
    ensures RightWhole(Scaled(x, m), ops, args)
  {
    hide OutcomeAt, OpNeedAt;
  }

  lemma GroupIs(x: Expr, ops: nat, args: nat)
    requires ops <= STACK_SIZE && (ops < STACK_SIZE ==> RightWhole(x, ops + 1, args))
    ensures RightWhole(Group(x), ops, args)
  {
  }

  lemma {:induction false} WholeIs(e: Expr, ops: nat, args: nat)
    requires ops <= STACK_SIZE
    ensures RightWhole(e, ops, args)
    decreases e, 0
  {
    hide RightWhole, RightOutcomeAt;
    match e
    case Num(n) => NumberIs(n, ops, args);
    case Neg(x) =>
      if ops < STACK_SIZE {
        OutcomeAtIs(x, 4, ops + 1, args);
      }
      NegationIs(x, ops, args);
    case Bin(f, l, r) =>
      OutcomeAtIs(l, LeftLevel(f), ops, args);
      if ops < STACK_SIZE {
        OutcomeAtIs(r, RightLevel(f), ops + 1, args + 1);
      }
      BinaryIs(f, l, r, ops, args);
    case Scaled(x, m) =>
      OutcomeAtIs(x, 5, ops, args);
      ScaledIs(x, m, ops, args);
    case Group(x) =>
      if ops < STACK_SIZE {
        WholeIs(x, ops + 1, args);
      }
      GroupIs(x, ops, args);
  }

  lemma NumberIs(n: int, ops: nat, args: nat)
    requires ops <= STACK_SIZE
    ensures RightWhole(Num(n), ops, args)
  {
  }

  /** An expression comes out with a value exactly when it has one and the stacks have room for it. */
  lemma OutcomeIs(e: Expr, ops: nat, args: nat)
    requires ops <= STACK_SIZE
    ensures Outcome(e, ops, args).Ok? <==>
            Eval(e).Some? && ops + OpNeed(e) <= STACK_SIZE && args + ArgNeed(e) <= STACK_SIZE
    ensures Outcome(e, ops, args).Ok? ==> Eval(e) == Some(Outcome(e, ops, args).value)
  {
    WholeIs(e, ops, args);
    hide Outcome, Eval, OpNeed, ArgNeed;
  }

  lemma {:induction false} OutcomeAtIs(e: Expr, level: nat, ops: nat, args: nat)
    requires ops <= STACK_SIZE
    ensures RightOutcomeAt(e, level, ops, args)
    decreases e, 1
  {
    hide Outcome, Eval, OpNeed, ArgNeed;
    if Level(e) >= level {
      WholeIs(e, ops, args);
    } else if ops < STACK_SIZE {
      WholeIs(e, ops + 1, args);
    }
  }

  /** eval_math gives an expression a value exactly when it has one and its printed form fits the stacks. */
  lemma EvaluatesTrees(e: Expr)
    requires WellFormed(e)
    ensures Evaluate(Print(e)) == Outcome(e, 0, 0)
    ensures forall v :: Evaluate(Print(e)) == Ok(v) <==> Eval(e) == Some(v) && OpNeed(e) <= STACK_SIZE && ArgNeed(e) <= STACK_SIZE
  {
    assert Print(e) + [] == Print(e);
    RunPrint(e, Stacks([], []), []);
    OutcomeIs(e, 0, 0);
  }

  /** The printed form holds no parenthesis. */
  predicate NoParens(e: Expr) {
    match e
    case Num(_) => true
    case Neg(x) => NoParens(x) && Level(x) >= 4
    case Bin(f, l, r) => NoParens(l) && NoParens(r) && Level(l) >= LeftLevel(f) && Level(r) >= RightLevel(f)
    case Scaled(x, _) => NoParens(x) && Level(x) >= 5
    case Group(_) => false
  }

  /**
   * The operator stack has no guard of its own. An expression with a value whose arguments fit and whose text has no
   * parenthesis makes eval_math write past the end exactly when it needs more than sixteen operators at once.
   */
  lemma OverrunIff(e: Expr)
    requires WellFormed(e) && NoParens(e) && Eval(e).Some? && ArgNeed(e) <= STACK_SIZE
    ensures Evaluate(Print(e)) == Overrun <==> OpNeed(e) > STACK_SIZE
  {
    EvaluatesTrees(e);
    UnguardedOutcome(e, 0, 0);
  }

  lemma {:induction false} UnguardedOutcome(e: Expr, ops: nat, args: nat)
    requires NoParens(e) && Eval(e).Some? && ops <= STACK_SIZE && args + ArgNeed(e) <= STACK_SIZE
    ensures Outcome(e, ops, args) == if ops + OpNeed(e) > STACK_SIZE then Overrun else Ok(Eval(e).value)
  {
    match e
    case Num(_) =>
    case Neg(x) =>
      if ops < STACK_SIZE {
        UnguardedOutcome(x, ops + 1, args);
      }
    case Bin(f, l, r) =>
      UnguardedOutcome(l, ops, args);
      if ops < STACK_SIZE {
        UnguardedOutcome(r, ops + 1, args + 1);
      }
    case Scaled(x, _) => UnguardedOutcome(x, ops, args);
  }

  function Negations(n: nat, e: Expr): Expr {
    if n == 0 then e else Neg(Negations(n - 1, e))
  }

  /** So a row of minus signs runs past the end exactly from the seventeenth on. */
  lemma MinusSigns(n: nat, v: int)
    ensures WellFormed(Negations(n, Num(v)))
    ensures Evaluate(Print(Negations(n, Num(v)))) == Overrun <==> n > STACK_SIZE
  {
    NegationNeeds(n, v);
    OverrunIff(Negations(n, Num(v)));
  }

  lemma {:induction false} NegationNeeds(n: nat, v: int)
    ensures var e := Negations(n, Num(v));
            WellFormed(e) && NoParens(e) && Eval(e).Some? && Level(e) >= 4 && OpNeed(e) == n && ArgNeed(e) == 1
  {
    if n > 0 {
      NegationNeeds(n - 1, v);
    }
  }

  /** The tokens that can take a place on the operator stack. */
  function OperatorTokens(ts: seq<Token>): nat {
    if ts == [] then 0
    else (match ts[0] case Plus | Minus | Star | Slash | Caret | Open => 1 case _ => 0) + OperatorTokens(ts[1..])
  }

  /** Up to sixteen operators and opening parentheses, in whatever order, never run past the end. */
  lemma FewOperators(ts: seq<Token>)
    requires OperatorTokens(ts) <= STACK_SIZE
    ensures Evaluate(ts) != Overrun
  {
    RoomLeft(ts, START);
  }

  lemma {:induction false} RoomLeft(ts: seq<Token>, st: State)
    requires |st.stacks.ops| + OperatorTokens(ts) <= STACK_SIZE
    ensures Run(ts, st) != Overrun
  {
    if ts == [] {
      DrainStays(st.stacks);
    } else {
      StepRoom(st, ts[0]);
      hide Step;
      if Step(st, ts[0]).Ok? {
        RoomLeft(ts[1..], Step(st, ts[0]).value);
      }
    }
  }

  lemma StepRoom(st: State, t: Token)
    requires |st.stacks.ops| + OperatorTokens([t]) <= STACK_SIZE
    ensures Step(st, t) != Overrun
    ensures Step(st, t).Ok? ==> |Step(st, t).value.stacks.ops| <= |st.stacks.ops| + OperatorTokens([t])
  {
    hide Push, CloseParen;
    PushRoom(st.stacks, Add);
    PushRoom(st.stacks, Subtract);
    PushRoom(st.stacks, Multiply);
    PushRoom(st.stacks, Divide);
    PushRoom(st.stacks, Power);
    PushRoom(st.stacks, Negate);
    CloseRoom(st.stacks);
  }

  lemma {:induction false} PushRoom(s: Stacks, f: Fun)
    ensures |s.ops| < STACK_SIZE ==> Push(s, f) != Overrun
    ensures Push(s, f).Ok? ==> |Push(s, f).value.ops| <= |s.ops| + 1
    decreases |s.ops|
  {
    if s.ops != [] && Pop(s).Ok? {
      PushRoom(Pop(s).value, f);
    }
  }

  lemma {:induction false} CloseRoom(s: Stacks)
    ensures CloseParen(s) != Overrun && (CloseParen(s).Ok? ==> |CloseParen(s).value.ops| <= |s.ops|)
    decreases |s.ops|
  {
    if s.ops != [] && Pop(s).Ok? {
      CloseRoom(Pop(s).value);
    }
  }

  lemma {:induction false} DrainStays(s: Stacks)
    ensures Drain(s) != Overrun
    decreases |s.ops|
  {
    if s.ops != [] && Pop(s).Ok? {
      DrainStays(Pop(s).value);
    }
  }

  function WithoutSpaces(ts: seq<Token>): seq<Token> {
    if ts == [] then [] else (if ts[0].Space? then [] else [ts[0]]) + WithoutSpaces(ts[1..])
  }

  /** White space may stand between any two tokens. */
  lemma {:induction false} SpacesIgnored(ts: seq<Token>, st: State)
    ensures Run(ts, st) == Run(WithoutSpaces(ts), st)
    decreases |ts|
  {
    if ts != [] {
      if ts[0].Space? {
        assert WithoutSpaces(ts) == WithoutSpaces(ts[1..]);
        SpacesIgnored(ts[1..], st);
      } else {
        hide Step;
        assert WithoutSpaces(ts)[1..] == WithoutSpaces(ts[1..]);
        if Step(st, ts[0]).Ok? {
          SpacesIgnored(ts[1..], Step(st, ts[0]).value);
        }
      }
    }
  }
}
