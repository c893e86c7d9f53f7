/** The evaluator as it runs: two fixed arrays with moving tops and a loop over the input. */
module EvalMachine {
  import opened EvalMath
  import opened Options

  datatype Rc = Fine | Failed | PastEnd

  /** A call behaved as the function on stacks says. */
  ghost predicate Follows<T>(rc: Rc, r: Result<T>) {
    (rc.Fine? <==> r.Ok?) && (rc.Failed? <==> r.Error?)
  }

  class EvalState {
    const args: array<int>
    const operatorStack: array<Fun>
    var nextArg: nat
    var nextOp: nat
    var phase: Phase

    ghost predicate Valid()
      reads this
    {
      args.Length == STACK_SIZE && operatorStack.Length == STACK_SIZE && nextArg <= STACK_SIZE && nextOp <= STACK_SIZE
    }

    ghost function Contents(): (s: Stacks)
      requires Valid()
      reads this, args, operatorStack
    {
      Stacks(operatorStack[..nextOp], args[..nextArg])
    }

    constructor ()
      ensures Valid() && Contents() == Stacks([], []) && phase == BeforeNumber
      ensures fresh(args) && fresh(operatorStack)
    {
      args := new int[STACK_SIZE](_ => 0);
      operatorStack := new Fun[STACK_SIZE](_ => Paren);
      nextArg := 0;
      nextOp := 0;
      phase := BeforeNumber;
    }

    /** do_power: a loop of multiplications. */
    static method DoPower(base: int, exponent: int) returns (ok: bool, result: int)
      ensures ok <==> 0 <= exponent <= 63
      ensures ok ==> result == Raise(base, exponent)
    {
      if exponent < 0 || exponent > 63 {
        return false, 0;
      }
      result := 1;
      var left := exponent;
      while left > 0
        invariant 0 <= left <= exponent && result == Raise(base, exponent - left)
      {
        result := result * base;
        left := left - 1;
      }
      ok := true;
    }

    /** The functions of the operator table, applied to two arguments. */
    static method DoBinary(f: Fun, a: int, b: int) returns (ok: bool, result: int)
      ensures Binary(f, a, b) == if ok then Some(result) else None
    {
      ok, result := true, 0;
      match f {
        case Add => result := a + b;
        case Subtract => result := a - b;
        case Multiply => result := a * b;
        case Divide =>
          if b == 0 {
            ok := false;
          } else {
            result := Quotient(a, b);
          }
        case Power => ok, result := DoPower(a, b);
        case _ => ok := false;
      }
    }

    /** pop_operator */
    method PopOperator() returns (rc: Rc)
      requires Valid()
      modifies `nextArg, `nextOp, args
      ensures Valid() && Follows(rc, Pop(old(Contents()))) && (rc.Fine? ==> Contents() == Pop(old(Contents())).value)
      ensures rc.Fine? ==> nextOp < old(nextOp)
    {
      hide Binary;
      if nextOp == 0 {
        return Failed;
      }
      var f := operatorStack[nextOp - 1];
      if f.Paren? {
        return Failed;
      }
      if f.Negate? {
        if nextArg < 1 {
          return Failed;
        }
        args[nextArg - 1] := -args[nextArg - 1];
      } else {
        if nextArg < 2 {
          return Failed;
        }
        var ok, result := DoBinary(f, args[nextArg - 2], args[nextArg - 1]);
        if !ok {
          return Failed;
        }
        args[nextArg - 2] := result;
        nextArg := nextArg - 1;
      }
      nextOp := nextOp - 1;
      rc := Fine;
    }

    /** push_operator: pops whatever binds tighter, then writes at the top without looking for room. */
    method PushOperator(f: Fun) returns (rc: Rc)
      requires Valid()
      modifies `nextArg, `nextOp, args, operatorStack
      ensures Valid() && Follows(rc, Push(old(Contents()), f)) && (rc.Fine? ==> Contents() == Push(old(Contents()), f).value)
    {
      hide Pop, Stays;
      while nextOp != 0
        invariant Valid() && Push(Contents(), f) == Push(old(Contents()), f)
        decreases nextOp
      {
        if Stays(operatorStack[nextOp - 1], f) {
          break;
        }
        rc := PopOperator();
        if !rc.Fine? {
          return;
        }
      }
      if nextOp >= STACK_SIZE {
        return PastEnd;
      }
      operatorStack[nextOp] := f;
      nextOp := nextOp + 1;
      rc := Fine;
    }

    /** handle_right_paren */
    method HandleRightParen() returns (rc: Rc)
      requires Valid()
      modifies `nextArg, `nextOp, args
      ensures Valid() && Follows(rc, CloseParen(old(Contents()))) && (rc.Fine? ==> Contents() == CloseParen(old(Contents())).value)
    {
      hide Pop;
      while true
        invariant Valid() && CloseParen(Contents()) == CloseParen(old(Contents()))
        decreases nextOp
      {
        if nextOp == 0 {
          return Failed;
        }
        if operatorStack[nextOp - 1].Paren? {
          nextOp := nextOp - 1;
          return Fine;
        }
        rc := PopOperator();
        if !rc.Fine? {
          return;
        }
      }
    }

    /** handle_left_paren */
    method HandleLeftParen() returns (rc: Rc)
      requires Valid()
      modifies `nextOp, operatorStack
      ensures Valid() && Follows(rc, OpenParen(old(Contents()))) && (rc.Fine? ==> Contents() == OpenParen(old(Contents())).value)
    {
      if nextOp >= STACK_SIZE {
        return Failed;
      }
      operatorStack[nextOp] := Paren;
      nextOp := nextOp + 1;
      rc := Fine;
    }

    /** handle_suffix */
    method HandleSuffix(multiplier: int) returns (rc: Rc)
      requires Valid()
      modifies args
      ensures Valid() && Follows(rc, Scale(old(Contents()), multiplier)) && (rc.Fine? ==> Contents() == Scale(old(Contents()), multiplier).value)
    {
      if nextArg < 1 {
        return Failed;
      }
      args[nextArg - 1] := args[nextArg - 1] * multiplier;
      rc := Fine;
    }

    method HandleNumber(n: int) returns (rc: Rc)
      requires Valid()
      modifies `nextArg, args
      ensures Valid() && Follows(rc, PushNumber(old(Contents()), n)) && (rc.Fine? ==> Contents() == PushNumber(old(Contents()), n).value)
    {
      if nextArg >= STACK_SIZE {
        return Failed;
      }
      args[nextArg] := n;
      nextArg := nextArg + 1;
      rc := Fine;
    }

    /** One call of the current parse function. */
    method Parse(t: Token) returns (rc: Rc)
      requires Valid()
      modifies this, args, operatorStack
      ensures Valid() && Follows(rc, Step(State(old(Contents()), old(phase)), t))
      ensures rc.Fine? ==> State(Contents(), phase) == Step(State(old(Contents()), old(phase)), t).value
    {
      hide Push, CloseParen, OpenParen, PushNumber, Scale;
      if t.Space? {
        return Fine;
      }
      if phase.BeforeNumber? {
        match t {
          case Open => rc := HandleLeftParen();
          case Close => rc := HandleRightParen();
          case Minus => rc := PushOperator(Negate);
          case Number(n) =>
            rc := HandleNumber(n);
            phase := AfterNumber;
          case _ => rc := Failed;
        }
      } else {
        match t {
          case Plus => rc := PushOperator(Add); phase := BeforeNumber;
          case Minus => rc := PushOperator(Subtract); phase := BeforeNumber;
          case Star => rc := PushOperator(Multiply); phase := BeforeNumber;
          case Slash => rc := PushOperator(Divide); phase := BeforeNumber;
          case Caret => rc := PushOperator(Power); phase := BeforeNumber;
          case Open => rc := HandleLeftParen();
          case Close => rc := HandleRightParen();
          case Suffix(m) => rc := HandleSuffix(m);
          case _ => rc := Failed;
        }
      }
    }

    /** What is left on the operator stack at the end of the input. */
    method Finish() returns (rc: Rc, result: int)
      requires Valid()
      modifies `nextArg, `nextOp, args
      ensures Follows(rc, Drain(old(Contents()))) && (rc.Fine? ==> result == Drain(old(Contents())).value)
    {
      hide Pop;
      result := 0;
      while nextOp != 0
        invariant Valid() && Drain(Contents()) == Drain(old(Contents()))
        decreases nextOp
      {
        rc := PopOperator();
        if !rc.Fine? {
          return;
        }
      }
      if nextArg != 1 {
        return Failed, 0;
      }
      return Fine, args[0];
    }
  }

  /** eval_math */
  method EvaluateTokens(ts: seq<Token>) returns (rc: Rc, result: int)
    ensures Follows(rc, Evaluate(ts)) && (rc.Fine? ==> result == Evaluate(ts).value)
  {
    hide Step, Drain;
    var state := new EvalState();
    result := 0;
    var i := 0;
    while i < |ts|
      invariant 0 <= i <= |ts| && state.Valid() && fresh(state) && fresh(state.args) && fresh(state.operatorStack)
      invariant Run(ts[i..], State(state.Contents(), state.phase)) == Evaluate(ts)
    {
      assert ts[i..][1..] == ts[i + 1..];
      rc := state.Parse(ts[i]);
      if !rc.Fine? {
        return;
      }
      i := i + 1;
    }
    rc, result := state.Finish();
  }
}
