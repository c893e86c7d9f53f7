/** What the evaluator makes of each operator, and of two of them side by side, told by its results alone. */
module EvalLaws {
  import opened Options
  import opened EvalMath

  predicate IsOperator(t: Token) {
    t.Plus? || t.Minus? || t.Star? || t.Slash? || t.Caret?
  }

  function OperatorOf(t: Token): (f: Fun)
    requires IsOperator(t)
    ensures IsBinary(f) && Symbol(f) == t
  {
    match t
    case Plus => Add
    case Minus => Subtract
    case Star => Multiply
    case Slash => Divide
    case Caret => Power
  }

  /** The result of an operator between two numbers. */
  function Between(a: int, t: Token, b: int): Result<int> {
    Evaluate([Number(a), t, Number(b)])
  }

  function Given(v: Option<int>): Result<int> {
    match v
    case None => Error
    case Some(n) => Ok(n)
  }

  /** An expression with this text, precedence and value, that needs at most so much room on the two stacks. */
  predicate Shape(e: Expr, text: seq<Token>, level: nat, v: Option<int>, ops: nat, args: nat) {
    WellFormed(e) && Print(e) == text && Level(e) == level && Eval(e) == v && OpNeed(e) <= ops && ArgNeed(e) <= args
  }

  lemma NumShape(n: int)
    ensures Shape(Num(n), [Number(n)], 5, Some(n), 0, 1)
  {
  }

  function Combined(f: Fun, l: Option<int>, r: Option<int>): Option<int> {
    if l.Some? && r.Some? then Binary(f, l.value, r.value) else None
  }

  lemma BinShape(f: Fun, l: Expr, left: seq<Token>, ll: nat, lv: Option<int>, r: Expr, right: seq<Token>, rl: nat, rv: Option<int>, ops: nat, args: nat)
    requires IsBinary(f) && Shape(l, left, ll, lv, ops, args) && Shape(r, right, rl, rv, ops, args)
    requires ll >= LeftLevel(f) && rl >= RightLevel(f)
    ensures Shape(Bin(f, l, r), left + [Symbol(f)] + right, Prec(f), Combined(f, lv, rv), ops + 1, args + 1)
  {
    hide Binary, Prec, LeftLevel, RightLevel;
    assert PrintAt(l, LeftLevel(f)) == left && PrintAt(r, RightLevel(f)) == right;
    assert OpNeedAt(l, LeftLevel(f)) <= ops && OpNeedAt(r, RightLevel(f)) <= ops;
  }

  lemma NegShape(x: Expr, text: seq<Token>, level: nat, v: Option<int>, ops: nat, args: nat)
    requires Shape(x, text, level, v, ops, args) && level >= 4
    ensures Shape(Neg(x), [Minus] + text, 4, if v.Some? then Some(-v.value) else None, ops + 1, args)
  {
  }

  lemma ScaledShape(x: Expr, m: int, text: seq<Token>, v: Option<int>, ops: nat, args: nat)
    requires Shape(x, text, 5, v, ops, args)
    ensures Shape(Scaled(x, m), text + [Suffix(m)], 5, if v.Some? then Some(v.value * m) else None, ops, args)
  {
  }

  lemma GroupShape(x: Expr, text: seq<Token>, level: nat, v: Option<int>, ops: nat, args: nat)
    requires Shape(x, text, level, v, ops, args)
    ensures Shape(Group(x), [Open] + text + [Close], 5, v, ops + 1, args)
  {
  }

  lemma {:induction false} NoOverrun(e: Expr, ops: nat, args: nat)
    requires ops + OpNeed(e) <= STACK_SIZE
    ensures !Outcome(e, ops, args).Overrun?
    decreases e, 0
  {
    hide Binary;
    match e
    case Num(_) =>
    case Neg(x) => NoOverrunAt(x, 4, ops + 1, args);
    case Bin(f, l, r) =>
      NoOverrunAt(l, LeftLevel(f), ops, args);
      NoOverrunAt(r, RightLevel(f), ops + 1, args + 1);
    case Scaled(x, _) => NoOverrunAt(x, 5, ops, args);
    case Group(x) => NoOverrun(x, ops + 1, args);
  }

  lemma {:induction false} NoOverrunAt(e: Expr, level: nat, ops: nat, args: nat)
    requires ops + OpNeedAt(e, level) <= STACK_SIZE
    ensures !OutcomeAt(e, level, ops, args).Overrun?
    decreases e, 1
  {
    hide Outcome, OpNeed;
    NoOverrun(e, if Level(e) >= level then ops else ops + 1, args);
  }

  /** With room for it on both stacks the text of an expression gives its value, or fails if it has none. */
  lemma ShapeRuns(e: Expr, text: seq<Token>, level: nat, v: Option<int>, ops: nat, args: nat)
    requires Shape(e, text, level, v, ops, args) && ops <= STACK_SIZE && args <= STACK_SIZE
    ensures Evaluate(text) == Given(v)
  {
    hide Outcome, Evaluate, Eval, OpNeed, ArgNeed, Print, WellFormed;
    EvaluatesTrees(e);
    NoOverrun(e, 0, 0);
    OutcomeIs(e, 0, 0);
  }

  lemma BetweenIs(a: int, t: Token, b: int)
    requires IsOperator(t)
    ensures Between(a, t, b) == Given(Binary(OperatorOf(t), a, b))
    ensures var f := OperatorOf(t); Shape(Bin(f, Num(a), Num(b)), [Number(a), t, Number(b)], Prec(f), Binary(f, a, b), 1, 2)
  {
    hide Binary, Evaluate, Shape, OperatorOf;
    var f := OperatorOf(t);
    NumShape(a);
    NumShape(b);
    BinShape(f, Num(a), [Number(a)], 5, Some(a), Num(b), [Number(b)], 5, Some(b), 0, 1);
    assert [Number(a)] + [t] + [Number(b)] == [Number(a), t, Number(b)];
    ShapeRuns(Bin(f, Num(a), Num(b)), [Number(a), t, Number(b)], Prec(f), Binary(f, a, b), 1, 2);
  }

  lemma Addition(a: int, b: int)
    ensures Evaluate([Number(a), Plus, Number(b)]) == Ok(a + b)
  {
    BetweenIs(a, Plus, b);
    hide Evaluate;
  }

  lemma Subtraction(a: int, b: int)
    ensures Evaluate([Number(a), Minus, Number(b)]) == Ok(a - b)
  {
    BetweenIs(a, Minus, b);
    hide Evaluate;
  }

  lemma Multiplication(a: int, b: int)
    ensures Evaluate([Number(a), Star, Number(b)]) == Ok(a * b)
  {
    BetweenIs(a, Star, b);
    hide Evaluate;
  }

  function Magnitude(n: int): nat {
    if n < 0 then -n else n
  }

  /** Division fails by zero and otherwise cuts off towards zero: what is left is smaller than b and not of the other sign than a. */
  lemma Division(a: int, b: int)
    ensures b == 0 ==> Evaluate([Number(a), Slash, Number(b)]) == Error
    ensures b != 0 ==>
              var r := Evaluate([Number(a), Slash, Number(b)]);
              r.Ok? && Magnitude(a - r.value * b) < Magnitude(b) && (a - r.value * b == 0 || (a - r.value * b < 0 <==> a < 0))
  {
    hide Evaluate, Quotient;
    BetweenIs(a, Slash, b);
  }

  lemma {:induction false} RaiseSum(a: int, m: nat, n: nat)
    ensures Raise(a, m + n) == Raise(a, m) * Raise(a, n)
  {
    if n > 0 {
      RaiseSum(a, m, n - 1);
      assert Raise(a, m + n) == Raise(a, m + (n - 1)) * a;
      Associates(Raise(a, m), Raise(a, n - 1), a);
    }
  }

  lemma Associates(x: int, y: int, z: int)
    ensures x * y * z == x * (y * z)
  {
  }

  /** Powers take exponents from 0 to 63: one, the number itself, and products where exponents add up. */
  lemma Powers(a: int, m: nat, n: nat)
    ensures Evaluate([Number(a), Caret, Number(0)]) == Ok(1) && Evaluate([Number(a), Caret, Number(1)]) == Ok(a)
    ensures m + n <= 63 ==>
              var x, y := Evaluate([Number(a), Caret, Number(m)]), Evaluate([Number(a), Caret, Number(n)]);
              x.Ok? && y.Ok? && Evaluate([Number(a), Caret, Number(m + n)]) == Ok(x.value * y.value)
  {
    hide Evaluate;
    BetweenIs(a, Caret, 0);
    BetweenIs(a, Caret, 1);
    BetweenIs(a, Caret, m);
    BetweenIs(a, Caret, n);
    BetweenIs(a, Caret, m + n);
    RaiseSum(a, m, n);
    assert Raise(a, 1) == Raise(a, 0) * a;
  }

  lemma NoPower(a: int, b: int)
    requires b < 0 || b > 63
    ensures Evaluate([Number(a), Caret, Number(b)]) == Error
  {
    hide Evaluate;
    BetweenIs(a, Caret, b);
  }

  /** A number by itself, behind a minus sign, and before a suffix. */
  lemma Alone(n: int, multiplier: int)
    ensures Evaluate([Number(n)]) == Ok(n) && Evaluate([Minus, Number(n)]) == Ok(-n) && Evaluate([Number(n), Suffix(multiplier)]) == Ok(n * multiplier)
  {
    hide Evaluate, Shape;
    NumShape(n);
    ShapeRuns(Num(n), [Number(n)], 5, Some(n), 0, 1);
    NegShape(Num(n), [Number(n)], 5, Some(n), 0, 1);
    ShapeRuns(Neg(Num(n)), [Minus] + [Number(n)], 4, Some(-n), 1, 1);
    ScaledShape(Num(n), multiplier, [Number(n)], Some(n), 0, 1);
    ShapeRuns(Scaled(Num(n), multiplier), [Number(n)] + [Suffix(multiplier)], 5, Some(n * multiplier), 0, 1);
    assert [Minus] + [Number(n)] == [Minus, Number(n)] && [Number(n)] + [Suffix(multiplier)] == [Number(n), Suffix(multiplier)];
  }

  /** The second operator is applied first: powers bind tightest and group to the right, then `*` and `/`, then `+` and `-`. */
  predicate SecondFirst(t: Token, u: Token) {
    u.Caret? || ((u.Star? || u.Slash?) && (t.Plus? || t.Minus?))
  }

  function AndThen(r: Result<int>, next: int -> Result<int>): Result<int> {
    match r
    case Ok(v) => next(v)
    case Error => Error
    case Overrun => Overrun
  }

  function FirstThen(a: int, t: Token, b: int, u: Token, c: int): Result<int> {
    AndThen(Between(a, t, b), v => Between(v, u, c))
  }

  function SecondThen(a: int, t: Token, b: int, u: Token, c: int): Result<int> {
    AndThen(Between(b, u, c), v => Between(a, t, v))
  }

  /** Two operators: one is applied to the result of the other, whichever binds tighter, from the left where both bind alike. */
  lemma Precedence(a: int, t: Token, b: int, u: Token, c: int)
    requires IsOperator(t) && IsOperator(u)
    ensures Evaluate([Number(a), t, Number(b), u, Number(c)]) == if SecondFirst(t, u) then SecondThen(a, t, b, u, c) else FirstThen(a, t, b, u, c)
  {
    hide Evaluate, Binary, Shape, Between;
    var f, g := OperatorOf(t), OperatorOf(u);
    NumShape(a);
    NumShape(c);
    RoomToSpare(a);
    RoomToSpare(c);
    if SecondFirst(t, u) {
      BetweenIs(b, u, c);
      BinShape(f, Num(a), [Number(a)], 5, Some(a), Bin(g, Num(b), Num(c)), [Number(b), u, Number(c)], Prec(g), Binary(g, b, c), 1, 2);
      assert [Number(a)] + [t] + [Number(b), u, Number(c)] == [Number(a), t, Number(b), u, Number(c)];
      ShapeRuns(Bin(f, Num(a), Bin(g, Num(b), Num(c))), [Number(a), t, Number(b), u, Number(c)], Prec(f), Combined(f, Some(a), Binary(g, b, c)), 2, 3);
      SecondIs(a, t, b, u, c);
    } else {
      BetweenIs(a, t, b);
      BinShape(g, Bin(f, Num(a), Num(b)), [Number(a), t, Number(b)], Prec(f), Binary(f, a, b), Num(c), [Number(c)], 5, Some(c), 1, 2);
      assert [Number(a), t, Number(b)] + [u] + [Number(c)] == [Number(a), t, Number(b), u, Number(c)];
      ShapeRuns(Bin(g, Bin(f, Num(a), Num(b)), Num(c)), [Number(a), t, Number(b), u, Number(c)], Prec(g), Combined(g, Binary(f, a, b), Some(c)), 2, 3);
      FirstIs(a, t, b, u, c);
    }
  }

  lemma RoomToSpare(n: int)
    ensures Shape(Num(n), [Number(n)], 5, Some(n), 1, 2) && Shape(Num(n), [Number(n)], 5, Some(n), 2, 2)
  {
    NumShape(n);
  }

  lemma FirstIs(a: int, t: Token, b: int, u: Token, c: int)
    requires IsOperator(t) && IsOperator(u)
    ensures FirstThen(a, t, b, u, c) == Given(Combined(OperatorOf(u), Binary(OperatorOf(t), a, b), Some(c)))
  {
    hide Binary, Between, OperatorOf;
    BetweenIs(a, t, b);
    var v := Binary(OperatorOf(t), a, b);
    if v.Some? {
      BetweenIs(v.value, u, c);
    }
  }

  lemma SecondIs(a: int, t: Token, b: int, u: Token, c: int)
    requires IsOperator(t) && IsOperator(u)
    ensures SecondThen(a, t, b, u, c) == Given(Combined(OperatorOf(t), Some(a), Binary(OperatorOf(u), b, c)))
  {
    hide Binary, Between, OperatorOf;
    BetweenIs(b, u, c);
    var v := Binary(OperatorOf(u), b, c);
    if v.Some? {
      BetweenIs(a, t, v.value);
    }
  }

  /** Parentheses overrule that on either side. */
  lemma Parentheses(a: int, t: Token, b: int, u: Token, c: int)
    requires IsOperator(t) && IsOperator(u)
    ensures Evaluate([Open, Number(a), t, Number(b), Close, u, Number(c)]) == FirstThen(a, t, b, u, c)
    ensures Evaluate([Number(a), t, Open, Number(b), u, Number(c), Close]) == SecondThen(a, t, b, u, c)
  {
    hide Evaluate, Binary, Shape, Between, FirstThen, SecondThen;
    FirstIs(a, t, b, u, c);
    SecondIs(a, t, b, u, c);
    RoomToSpare(a);
    RoomToSpare(c);
    var f, g := OperatorOf(t), OperatorOf(u);
    var x, y := Bin(f, Num(a), Num(b)), Bin(g, Num(b), Num(c));
    var left, right := [Open] + [Number(a), t, Number(b)] + [Close], [Open] + [Number(b), u, Number(c)] + [Close];
    BetweenIs(a, t, b);
    GroupShape(x, [Number(a), t, Number(b)], Prec(f), Binary(f, a, b), 1, 2);
    BinShape(g, Group(x), left, 5, Binary(f, a, b), Num(c), [Number(c)], 5, Some(c), 2, 2);
    ShapeRuns(Bin(g, Group(x), Num(c)), left + [u] + [Number(c)], Prec(g), Combined(g, Binary(f, a, b), Some(c)), 3, 3);
    assert left + [u] + [Number(c)] == [Open, Number(a), t, Number(b), Close, u, Number(c)];
    BetweenIs(b, u, c);
    GroupShape(y, [Number(b), u, Number(c)], Prec(g), Binary(g, b, c), 1, 2);
    BinShape(f, Num(a), [Number(a)], 5, Some(a), Group(y), right, 5, Binary(g, b, c), 2, 2);
    ShapeRuns(Bin(f, Num(a), Group(y)), [Number(a)] + [t] + right, Prec(f), Combined(f, Some(a), Binary(g, b, c)), 3, 3);
    assert [Number(a)] + [t] + right == [Number(a), t, Open, Number(b), u, Number(c), Close];
  }

  /** A minus sign in front takes the first number, or the whole power. */
  lemma SignInFront(a: int, t: Token, b: int)
    requires IsOperator(t)
    ensures Evaluate([Minus, Number(a), t, Number(b)]) == if t.Caret? then AndThen(Between(a, t, b), v => Ok(-v)) else Between(-a, t, b)
  {
    hide Evaluate, Binary, Shape, Between;
    var f := OperatorOf(t);
    NumShape(a);
    RoomToSpare(b);
    if t.Caret? {
      BetweenIs(a, t, b);
      var v := Binary(f, a, b);
      NegShape(Bin(f, Num(a), Num(b)), [Number(a), t, Number(b)], Prec(f), v, 1, 2);
      assert [Minus] + [Number(a), t, Number(b)] == [Minus, Number(a), t, Number(b)];
      ShapeRuns(Neg(Bin(f, Num(a), Num(b))), [Minus, Number(a), t, Number(b)], 4, if v.Some? then Some(-v.value) else None, 2, 2);
    } else {
      BetweenIs(-a, t, b);
      RoomToSpare(a);
      NegShape(Num(a), [Number(a)], 5, Some(a), 1, 2);
      BinShape(f, Neg(Num(a)), [Minus] + [Number(a)], 4, Some(-a), Num(b), [Number(b)], 5, Some(b), 2, 2);
      assert [Minus] + [Number(a)] + [t] + [Number(b)] == [Minus, Number(a), t, Number(b)];
      ShapeRuns(Bin(f, Neg(Num(a)), Num(b)), [Minus, Number(a), t, Number(b)], Prec(f), Binary(f, -a, b), 3, 3);
    }
  }

  /** Behind an operator a minus sign takes the number behind it, and a suffix the one before it. */
  lemma SignsAndSuffixes(a: int, t: Token, b: int, multiplier: int)
    requires IsOperator(t)
    ensures Evaluate([Number(a), t, Minus, Number(b)]) == Between(a, t, -b)
    ensures Evaluate([Number(a), t, Number(b), Suffix(multiplier)]) == Between(a, t, b * multiplier)
  {
    hide Evaluate, Binary, Shape, Between;
    var f := OperatorOf(t);
    RoomToSpare(a);
    RoomToSpare(b);
    BetweenIs(a, t, -b);
    BetweenIs(a, t, b * multiplier);
    NegShape(Num(b), [Number(b)], 5, Some(b), 1, 2);
    BinShape(f, Num(a), [Number(a)], 5, Some(a), Neg(Num(b)), [Minus] + [Number(b)], 4, Some(-b), 2, 2);
    assert [Number(a)] + [t] + ([Minus] + [Number(b)]) == [Number(a), t, Minus, Number(b)];
    ShapeRuns(Bin(f, Num(a), Neg(Num(b))), [Number(a), t, Minus, Number(b)], Prec(f), Binary(f, a, -b), 3, 3);
    ScaledShape(Num(b), multiplier, [Number(b)], Some(b), 2, 2);
    BinShape(f, Num(a), [Number(a)], 5, Some(a), Scaled(Num(b), multiplier), [Number(b)] + [Suffix(multiplier)], 5, Some(b * multiplier), 2, 2);
    assert [Number(a)] + [t] + ([Number(b)] + [Suffix(multiplier)]) == [Number(a), t, Number(b), Suffix(multiplier)];
    ShapeRuns(Bin(f, Num(a), Scaled(Num(b), multiplier)), [Number(a), t, Number(b), Suffix(multiplier)], Prec(f), Binary(f, a, b * multiplier), 3, 3);
  }
}
